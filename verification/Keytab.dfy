/**
 Removing all keytab entries of a realm or a service principal (kt_solaris.c): a scan that deletes
 what it finds and starts over. The keytab library is given as a sequence of entries and the error
 codes its calls return.
 */
module Keytab {
  import opened Wrappers

  const PRINCIPAL: nat := 0
  const REALM: nat := 1
  const EINVAL: int := 22
  const KT_END: int := -1765328202

  datatype Name = Name(realm: string, components: seq<string>)

  datatype KeyEntry = KeyEntry(principal: Name, kvno: int, enctype: int)

  type Match = KeyEntry -> bool

  /** The library finds the entry to remove by principal, version and encryption type. */
  function RemoveFirst(es: seq<KeyEntry>, e: KeyEntry): (r: seq<KeyEntry>) {
    if es == [] then [] else if es[0] == e then es[1..] else [es[0]] + RemoveFirst(es[1..], e)
  }

  /** `es` without its first `k` matching entries. */
  function Without(es: seq<KeyEntry>, m: Match, k: nat): (r: seq<KeyEntry>) {
    if es == [] || k == 0 then es
    else if m(es[0]) then Without(es[1..], m, k - 1)
    else [es[0]] + Without(es[1..], m, k)
  }

  /** The entries that do not match, in order and with their multiplicities. */
  function Others(es: seq<KeyEntry>, m: Match): (r: seq<KeyEntry>) {
    if es == [] then [] else if m(es[0]) then Others(es[1..], m) else [es[0]] + Others(es[1..], m)
  }

  lemma {:induction false} RemoveFirstAt(es: seq<KeyEntry>, m: Match, c: nat)
    requires c < |es| && m(es[c]) && forall i :: 0 <= i < c ==> !m(es[i])
    ensures RemoveFirst(es, es[c]) == es[..c] + es[c + 1..]
    ensures Without(es, m, 1) == es[..c] + es[c + 1..]
  {
    if c > 0 {
      RemoveFirstAt(es[1..], m, c - 1);
      assert es[..c] + es[c + 1..] == [es[0]] + (es[1..][..c - 1] + es[1..][c..]);
    } else {
      assert Without(es[1..], m, 0) == es[1..];
    }
  }

  lemma {:induction false} WithoutOneMore(es: seq<KeyEntry>, m: Match, k: nat)
    ensures Without(Without(es, m, k), m, 1) == Without(es, m, k + 1)
  {
    if es != [] && k > 0 {
      if m(es[0]) {
        WithoutOneMore(es[1..], m, k - 1);
      } else {
        WithoutOneMore(es[1..], m, k);
        var r := Without(es[1..], m, k);
        assert ([es[0]] + r)[1..] == r;
      }
    }
  }

  lemma {:induction false} OthersOfWithout(es: seq<KeyEntry>, m: Match, k: nat)
    ensures Others(Without(es, m, k), m) == Others(es, m)
  {
    if es != [] && k > 0 {
      if m(es[0]) {
        OthersOfWithout(es[1..], m, k - 1);
      } else {
        OthersOfWithout(es[1..], m, k);
        var r := Without(es[1..], m, k);
        assert ([es[0]] + r)[1..] == r;
      }
    }
  }

  lemma {:induction false} OthersIsAll(es: seq<KeyEntry>, m: Match)
    requires forall i :: 0 <= i < |es| ==> !m(es[i])
    ensures Others(es, m) == es
  {
    if es != [] {
      OthersIsAll(es[1..], m);
    }
  }

  lemma {:induction false} OthersAre(es: seq<KeyEntry>, m: Match, e: KeyEntry)
    ensures e in Others(es, m) <==> e in es && !m(e)
  {
    if es != [] {
      OthersAre(es[1..], m, e);
    }
  }

  lemma OthersAreAll(es: seq<KeyEntry>, m: Match)
    ensures forall e :: e in Others(es, m) <==> e in es && !m(e)
  {
    forall e ensures e in Others(es, m) <==> e in es && !m(e) {
      OthersAre(es, m, e);
    }
  }

  /** What the key is compared with; parsing a principal name can fail. */
  function Matcher(parse: string -> Option<Name>, key: string, ty: nat): Match {
    (e: KeyEntry) =>
      if ty == REALM then e.principal.realm == key
      else parse(key) == Some(e.principal)
  }

  class File {
    var entries: seq<KeyEntry>

    constructor (es: seq<KeyEntry>)
      ensures entries == es
    {
      entries := es;
    }
  }

  /**
   `env(n)` is what the n-th library call returns, 0 for success; the end of the file is reported by
   the file itself. On success exactly the matching entries are gone. On any failure some of the
   first matching ones are, and all others are still there in order.
   */
  method RemoveByKey(kt: File, key: string, ty: nat, parse: string -> Option<Name>, parseError: int, env: nat -> int)
    returns (code: int)
    requires parseError != 0 && forall n :: env(n) != KT_END
    modifies kt
    ensures ty != PRINCIPAL && ty != REALM ==> code == EINVAL && kt.entries == old(kt.entries)
    ensures ty == PRINCIPAL && parse(key).None? ==> code == parseError && kt.entries == old(kt.entries)
    ensures code == 0 ==> kt.entries == Others(old(kt.entries), Matcher(parse, key, ty))
    ensures code == 0 && ty == REALM ==>
              forall e :: e in kt.entries <==> e in old(kt.entries) && e.principal.realm != key
    ensures code == 0 && ty == PRINCIPAL ==>
              forall e :: e in kt.entries <==> e in old(kt.entries) && Some(e.principal) != parse(key)
    ensures exists k: nat :: kt.entries == Without(old(kt.entries), Matcher(parse, key, ty), k)
    ensures (ty == REALM || (ty == PRINCIPAL && parse(key).Some?)) && (forall n :: env(n) == 0) ==> code == 0
  {
    ghost var m := Matcher(parse, key, ty);
    ghost var es := kt.entries;
    ghost var k := 0;
    assert kt.entries == Without(es, m, k);
    if ty != REALM {
      if ty != PRINCIPAL {
        return EINVAL;
      }
      if parse(key).None? {
        return parseError;
      }
    }
    code := env(0);     // open
    if code != 0 {
      return;
    }
    code := env(1);     // start the scan
    if code != 0 {
      return;
    }
    var n, cursor := 2, 0;
    while true
      invariant 0 <= cursor <= |kt.entries|
      invariant kt.entries == Without(es, m, k)
      invariant forall i :: 0 <= i < cursor ==> !m(kt.entries[i])
      invariant n >= 2
      decreases |kt.entries|, |kt.entries| - cursor
    {
      code := if env(n) != 0 then env(n) else if cursor == |kt.entries| then KT_END else 0;
      n := n + 1;
      if code != 0 {
        break;
      }
      var entry := kt.entries[cursor];
      var found := if ty == REALM then entry.principal.realm == key else parse(key) == Some(entry.principal);
      cursor := cursor + 1;
      if found {
        code := env(n);         // end the scan
        if code != 0 {
          return;
        }
        code := env(n + 1);     // remove
        if code != 0 {
          return;
        }
        RemoveFirstAt(kt.entries, m, cursor - 1);
        WithoutOneMore(es, m, k);
        kt.entries := RemoveFirst(kt.entries, entry);
        k := k + 1;
        code := env(n + 2);     // start over
        if code != 0 {
          return;
        }
        n := n + 3;
        cursor := 0;
      }
    }
    if code != KT_END {
      return;
    }
    OthersIsAll(kt.entries, m);
    OthersOfWithout(es, m, k);
    OthersAreAll(es, m);
    code := env(n);             // end the scan
  }
}
