/**
 PostScript string escaping (labeltops.c) against a scanner for literal text strings as section
 3.2.2 of the PostScript Language Reference, third edition, defines them.
 */
module PsString {
  import opened Words
  import opened Wrappers

  /** The bytes of a C string; a character here stands for one byte. */
  ghost predicate IsBytes(s: string) {
    forall i :: 0 <= i < |s| ==> s[i] as int < 0x100
  }

  function OctalDigit(n: int): char
    requires 0 <= n < 8
  {
    '0' + n as char
  }

  /** `\ddd`, always with three digits. */
  function Octal(c: char): string
    requires c as int < 0x100
  {
    var n := c as int;
    ['\\', OctalDigit(n / 64), OctalDigit(n / 8 % 8), OctalDigit(n % 8)]
  }

  predicate Special(c: char) {
    c == '(' || c == ')' || c == '\\'
  }

  function EscapeByte(c: char): (r: string)
    requires c as int < 0x100
    ensures 0 < |r| <= 4
  {
    if Special(c) then ['\\', c]
    else if c as int < 0x20 || c as int >= 0x7f then Octal(c)
    else [c]
  }

  function Escape(s: string): (r: string)
    requires IsBytes(s)
    ensures |r| <= 4 * |s|
  {
    if s == [] then [] else EscapeByte(s[0]) + Escape(s[1..])
  }

  // ---------------------------------------------------------------------------
  // The program: a walk that writes into a buffer of 4n + 1 bytes

  /** SIZE_MAX of a 64-bit program. */
  const SIZE_MAX: nat := 0xffff_ffff_ffff_ffff

  lemma EscapeCons(c: char, t: string)
    requires c as int < 0x100 && IsBytes(t)
    ensures IsBytes([c] + t) && Escape([c] + t) == EscapeByte(c) + Escape(t)
  {
    assert ([c] + t)[1..] == t;
  }

  lemma {:induction false} EscapeAppend(s: string, c: char)
    requires IsBytes(s) && c as int < 0x100
    ensures IsBytes(s + [c]) && Escape(s + [c]) == Escape(s) + EscapeByte(c)
  {
    if s == [] {
      EscapeCons(c, []);
      assert s + [c] == [c] + [];
    } else {
      EscapeAppend(s[1..], c);
      EscapeCons(s[0], s[1..] + [c]);
      assert s + [c] == [s[0]] + (s[1..] + [c]);
      Reassociate(EscapeByte(s[0]), Escape(s[1..]), EscapeByte(c));
    }
  }

  lemma Reassociate(a: string, b: string, c: string)
    ensures a + (b + c) == (a + b) + c
  {
  }

  lemma EscapePrefix(s: string, i: nat)
    requires IsBytes(s) && i < |s|
    ensures Escape(s[..i + 1]) == Escape(s[..i]) + EscapeByte(s[i])
  {
    assert s[..i + 1] == s[..i] + [s[i]];
    EscapeAppend(s[..i], s[i]);
  }

  /** `*q++ = c`. */
  method Put(dst: array<char>, q: nat, c: char)
    requires q < dst.Length
    modifies dst
    ensures dst[..q + 1] == old(dst[..q]) + [c]
  {
    dst[q] := c;
  }

  /** `sprintf` of one octal escape, its terminating NUL included. */
  method PrintOctal(dst: array<char>, q: nat, c: char)
    requires q + 4 < dst.Length && c as int < 0x100
    modifies dst
    ensures dst[..q + 4] == old(dst[..q]) + Octal(c)
  {
    var text := Octal(c);
    dst[q], dst[q + 1], dst[q + 2], dst[q + 3] := text[0], text[1], text[2], text[3];
    dst[q + 4] := '\0';
  }

  /** The switch on one byte. */
  method WriteByte(dst: array<char>, q0: nat, c: char) returns (q: nat)
    requires q0 + 4 < dst.Length && c as int < 0x100
    modifies dst
    ensures q0 < q <= q0 + 4
    ensures dst[..q] == old(dst[..q0]) + EscapeByte(c)
  {
    q := q0;
    if Special(c) {
      Put(dst, q, '\\');
      q := q + 1;
      Put(dst, q, c);
      q := q + 1;
    } else if c as int < 0x20 || c as int >= 0x7f {
      PrintOctal(dst, q, c);
      q := q + 4;
    } else {
      Put(dst, q, c);
      q := q + 1;
    }
  }

  /** Fails only when the buffer size would overflow; otherwise the buffer holds the escaped string, ended by NUL. */
  method PsEscape(src: string) returns (dst: array?<char>, ghost len: nat)
    requires IsBytes(src)
    ensures dst == null <==> 4 * |src| + 1 >= TWO64
    ensures dst != null ==>
      && fresh(dst) && dst.Length == 4 * |src| + 1
      && len < dst.Length
      && dst[..len] == Escape(src)
      && dst[len] == '\0'
  {
    if |src| > (SIZE_MAX - 1) / 4 {
      return null, 0;
    }
    dst := new char[4 * |src| + 1](_ => '\0');
    var p, q := 0, 0;
    while p < |src|
      invariant 0 <= p <= |src| && 0 <= q <= 4 * p
      invariant dst[..q] == Escape(src[..p])
    {
      EscapePrefix(src, p);
      q := WriteByte(dst, q, src[p]);
      p := p + 1;
    }
    assert src[..p] == src;
    dst[q] := '\0';
    len := q;
  }

  // ---------------------------------------------------------------------------
  // The scanner

  predicate IsOctal(c: char) {
    '0' <= c <= '7'
  }

  function OctalValue(c: char): int
    requires IsOctal(c)
  {
    c as int - '0' as int
  }

  /** How many octal digits, at most three, stand at the front. */
  function OctalRun(s: string): (n: nat)
    ensures n <= 3 && n <= |s|
  {
    if |s| > 0 && IsOctal(s[0]) then
      if |s| > 1 && IsOctal(s[1]) then
        if |s| > 2 && IsOctal(s[2]) then 3 else 2
      else 1
    else 0
  }

  function OctalNumber(s: string, n: nat): int
    requires n <= |s| && n <= 3 && forall i :: 0 <= i < n ==> IsOctal(s[i])
    decreases n
  {
    if n == 0 then 0 else OctalNumber(s, n - 1) * 8 + OctalValue(s[n - 1])
  }

  /** What a backslash in front of `s` stands for, and how many characters of `s` it takes. */
  function EscapeSequence(s: string): (r: (string, nat))
    requires s != []
    ensures 0 < r.1 <= |s|
  {
    var c := s[0];
    if c == 'n' then (['\n'], 1)
    else if c == 'r' then (['\r'], 1)
    else if c == 't' then (['\t'], 1)
    else if c == 'b' then ([8 as char], 1)
    else if c == 'f' then ([12 as char], 1)
    else if c == '\r' then ([], if |s| > 1 && s[1] == '\n' then 2 else 1)
    else if c == '\n' then ([], 1)
    else if IsOctal(c) then ([(OctalNumber(s, OctalRun(s)) % 0x100) as char], OctalRun(s))
    else ([c], 1)
  }

  /** One element of a string body: the text it stands for and its length. */
  function Element(s: string): (r: (string, nat))
    requires s != []
    ensures 0 < r.1 <= |s|
  {
    if s[0] == '\\' && |s| > 1 then
      var e := EscapeSequence(s[1..]);
      (e.0, e.1 + 1)
    else if s[0] == '\\' then ([], 1)
    else if s[0] == '\r' then (['\n'], if |s| > 1 && s[1] == '\n' then 2 else 1)
    else ([s[0]], 1)
  }

  /** The body of a string after its opening parenthesis: the text, and what follows the closing one. */
  function ScanString(s: string, depth: nat): (r: Option<(string, string)>)
    ensures r.Some? ==> |r.value.1| < |s|
    decreases |s|
  {
    if s == [] then None
    else if s[0] == ')' && depth == 0 then Some(([], s[1..]))
    else
      var (text, n) := Element(s);
      var inner := if s[0] == '(' then depth + 1 else if s[0] == ')' && depth > 0 then depth - 1 else depth;
      match ScanString(s[n..], inner)
      case None => None
      case Some((more, rest)) => Some((text + more, rest))
  }

  /** One escaped byte scans to that byte, whatever follows it. */
  lemma ElementOfEscape(c: char, rest: string)
    requires c as int < 0x100
    ensures var e := EscapeByte(c) + rest;
            Element(e) == ([c], |EscapeByte(c)|) && e[0] != '(' && e[0] != ')'
  {
    var e := EscapeByte(c) + rest;
    if Special(c) {
      assert e[1..][0] == c;
    } else if c as int < 0x20 || c as int >= 0x7f {
      OctalScans(c, rest);
      assert e[1..] == Octal(c)[1..] + rest;
    }
  }

  lemma OctalOf(n: int)
    requires 0 <= n < 0x100
    ensures 0 <= n / 64 < 8 && (n / 64 * 8 + n / 8 % 8) * 8 + n % 8 == n
  {
    assert n / 64 == n / 8 / 8;
  }

  lemma ThreeDigits(s: string, a: int, b: int, c: int)
    requires 0 <= a < 8 && 0 <= b < 8 && 0 <= c < 8 && |s| >= 3
    requires s[0] == OctalDigit(a) && s[1] == OctalDigit(b) && s[2] == OctalDigit(c)
    ensures OctalRun(s) == 3 && OctalNumber(s, 3) == (a * 8 + b) * 8 + c
  {
    assert OctalNumber(s, 1) == a;
    assert OctalNumber(s, 2) == a * 8 + b;
  }

  lemma OctalScans(c: char, rest: string)
    requires c as int < 0x100
    ensures EscapeSequence(Octal(c)[1..] + rest) == ([c], 3)
  {
    var n := c as int;
    OctalOf(n);
    ThreeDigits(Octal(c)[1..] + rest, n / 64, n / 8 % 8, n % 8);
  }

  lemma ScanOneByte(c: char, more: string)
    requires c as int < 0x100
    ensures var r := ScanString(more, 0);
            ScanString(EscapeByte(c) + more, 0)
            == if r.None? then None else Some(([c] + r.value.0, r.value.1))
  {
    var t := EscapeByte(c) + more;
    ElementOfEscape(c, more);
    assert t[|EscapeByte(c)|..] == more;
  }

  lemma ScanEnd(rest: string)
    ensures ScanString(")" + rest, 0) == Some(([], rest))
  {
    assert (")" + rest)[1..] == rest;
  }

  lemma EscapeStep(s: string, tail: string)
    requires IsBytes(s) && s != []
    ensures Escape(s) + tail == EscapeByte(s[0]) + (Escape(s[1..]) + tail)
  {
  }

  lemma ScanPrepends(s: string, more: string, rest: string)
    requires IsBytes(s) && s != [] && ScanString(more, 0) == Some((s[1..], rest))
    ensures ScanString(EscapeByte(s[0]) + more, 0) == Some((s, rest))
  {
    ScanOneByte(s[0], more);
    assert [s[0]] + s[1..] == s;
  }

  /** The escaped string scans back to the string, and the scanner stops at the template's own parenthesis. */
  lemma {:induction false} ScanOfEscape(s: string, rest: string)
    requires IsBytes(s)
    ensures ScanString(Escape(s) + (")" + rest), 0) == Some((s, rest))
  {
    var tail := ")" + rest;
    if s == [] {
      assert Escape(s) + tail == tail;
      ScanEnd(rest);
    } else {
      ScanOfEscape(s[1..], rest);
      ScanPrepends(s, Escape(s[1..]) + tail, rest);
      EscapeStep(s, tail);
    }
  }

  // ---------------------------------------------------------------------------
  // The emitted dictionary

  /** A word is a run of regular characters: an executable name or a number. */
  datatype Token = Word(name: string) | Literal(name: string) | Text(s: string) | Open | Close

  predicate IsSpace(c: char) {
    c == '\0' || c == '\t' || c == '\n' || c == 12 as char || c == '\r' || c == ' '
  }

  predicate IsRegular(c: char) {
    && !IsSpace(c)
    && c != '(' && c != ')' && c != '<' && c != '>' && c != '[' && c != ']'
    && c != '{' && c != '}' && c != '/' && c != '%'
  }

  /** The regular characters in front. */
  function NameLength(s: string): (n: nat)
    ensures n <= |s|
  {
    if s == [] || !IsRegular(s[0]) then 0 else 1 + NameLength(s[1..])
  }

  predicate EndsComment(c: char) {
    c == '\n' || c == '\r' || c == 12 as char
  }

  /** The characters in front of the end of the line. */
  function CommentLength(s: string): (n: nat)
    ensures n <= |s|
  {
    if s == [] || EndsComment(s[0]) then 0 else 1 + CommentLength(s[1..])
  }

  /** The tokens of a program made of words, literal names, strings, procedures and comments. */
  function Tokens(s: string): (r: Option<seq<Token>>)
    decreases |s|
  {
    if s == [] then Some([])
    else if IsSpace(s[0]) then Tokens(s[1..])
    else if s[0] == '(' then
      match ScanString(s[1..], 0)
      case None => None
      case Some((text, rest)) => Cons(Text(text), Tokens(rest))
    else if s[0] == '/' then
      var n := NameLength(s[1..]);
      Cons(Literal(s[1..][..n]), Tokens(s[1..][n..]))
    else if IsRegular(s[0]) then
      var n := NameLength(s);
      Cons(Word(s[..n]), Tokens(s[n..]))
    else if s[0] == '{' then Cons(Open, Tokens(s[1..]))
    else if s[0] == '}' then Cons(Close, Tokens(s[1..]))
    else if s[0] == '%' then Tokens(s[1..][CommentLength(s[1..])..])
    else None
  }

  function Cons(t: Token, r: Option<seq<Token>>): Option<seq<Token>> {
    if r.None? then None else Some([t] + r.value)
  }

  ghost predicate AllRegular(s: string) {
    forall i :: 0 <= i < |s| ==> IsRegular(s[i])
  }

  ghost predicate AllSpace(s: string) {
    forall i :: 0 <= i < |s| ==> IsSpace(s[i])
  }

  lemma {:induction false} NameEnds(name: string, rest: string)
    requires AllRegular(name) && (rest == [] || !IsRegular(rest[0]))
    ensures NameLength(name + rest) == |name|
  {
    if name == [] {
      assert name + rest == rest;
    } else {
      NameEnds(name[1..], rest);
      assert (name + rest)[1..] == name[1..] + rest;
    }
  }

  lemma {:induction false} SpaceSkips(gap: string, rest: string)
    requires AllSpace(gap)
    ensures Tokens(gap + rest) == Tokens(rest)
  {
    if gap == [] {
      assert gap + rest == rest;
    } else {
      SpaceSkips(gap[1..], rest);
      assert (gap + rest)[1..] == gap[1..] + rest;
    }
  }

  /** A concatenation falls into its two parts again. */
  lemma Parts(a: string, b: string)
    ensures (a + b)[..|a|] == a && (a + b)[|a|..] == b
  {
  }

  lemma WordAt(s: string, name: string, rest: string)
    requires name != [] && AllRegular(name) && |name| <= |s|
    requires NameLength(s) == |name| && s[..|name|] == name && s[|name|..] == rest
    ensures Tokens(s) == Cons(Word(name), Tokens(rest))
  {
    assert s[0] == name[0];
  }

  lemma WordToken(name: string, rest: string)
    requires name != [] && AllRegular(name) && (rest == [] || !IsRegular(rest[0]))
    ensures Tokens(name + rest) == Cons(Word(name), Tokens(rest))
  {
    NameEnds(name, rest);
    Parts(name, rest);
    WordAt(name + rest, name, rest);
  }

  lemma LiteralAt(s: string, t: string, name: string, rest: string)
    requires s != [] && s[0] == '/' && s[1..] == t && |name| <= |t|
    requires NameLength(t) == |name| && t[..|name|] == name && t[|name|..] == rest
    ensures Tokens(s) == Cons(Literal(name), Tokens(rest))
  {
  }

  lemma BehindSlash(name: string, rest: string)
    ensures (['/'] + name + rest)[0] == '/' && (['/'] + name + rest)[1..] == name + rest
  {
  }

  lemma LiteralToken(name: string, rest: string)
    requires AllRegular(name) && (rest == [] || !IsRegular(rest[0]))
    ensures Tokens(['/'] + name + rest) == Cons(Literal(name), Tokens(rest))
  {
    NameEnds(name, rest);
    Parts(name, rest);
    BehindSlash(name, rest);
    LiteralAt(['/'] + name + rest, name + rest, name, rest);
  }

  lemma TextAt(s: string, t: string, value: string, rest: string)
    requires s != [] && s[0] == '(' && s[1..] == t && ScanString(t, 0) == Some((value, rest))
    ensures Tokens(s) == Cons(Text(value), Tokens(rest))
  {
  }

  lemma TextToken(value: string, rest: string)
    requires IsBytes(value)
    ensures Tokens(['('] + (Escape(value) + (")" + rest))) == Cons(Text(value), Tokens(rest))
  {
    var t := Escape(value) + (")" + rest);
    ScanOfEscape(value, rest);
    Parts(['('], t);
    TextAt(['('] + t, t, value, rest);
  }

  /** One line of the template: two blanks, the key, a gap of tabs, the value and `def`. */
  datatype Field = Field(key: string, gap: string)

  ghost predicate GoodField(f: Field) {
    AllRegular(f.key) && f.gap != [] && IsSpace(f.gap[0]) && AllSpace(f.gap)
  }

  function Ending(rest: string): string {
    " " + ("def" + ("\n" + rest))
  }

  function Line(f: Field, value: string, rest: string): string
    requires IsBytes(value)
  {
    "  " + (['/'] + f.key + (f.gap + (['('] + (Escape(value) + (")" + Ending(rest))))))
  }

  lemma EndingTokens(rest: string)
    ensures Tokens(Ending(rest)) == Cons(Word("def"), Tokens(rest))
  {
    var end := "\n" + rest;
    SpaceSkips(" ", "def" + end);
    WordToken("def", end);
    SpaceSkips("\n", rest);
  }

  lemma LineTokens(f: Field, value: string, rest: string)
    requires GoodField(f) && IsBytes(value)
    ensures Tokens(Line(f, value, rest))
            == Cons(Literal(f.key), Cons(Text(value), Cons(Word("def"), Tokens(rest))))
  {
    var end := Ending(rest);
    var text := ['('] + (Escape(value) + (")" + end));
    var value_ := f.gap + text;
    SpaceSkips("  ", ['/'] + f.key + value_);
    LiteralToken(f.key, value_);
    SpaceSkips(f.gap, text);
    TextToken(value, end);
    EndingTokens(rest);
  }

  const FIELDS: seq<Field> := [
    Field("Job_Printer", "\t\t"), Field("Job_Host", "\t\t"), Field("Job_User", "\t\t"),
    Field("Job_JobID", "\t\t"), Field("Job_Title", "\t\t"), Field("Job_DoPageLabels", "\t"),
    Field("Job_Date", "\t\t"), Field("Job_Hash", "\t\t"), Field("Job_Classification", "\t"),
    Field("Job_Protect", "\t\t"), Field("Job_Caveats", "\t\t"), Field("Job_Channels", "\t"),
    Field("Job_SL_Internal", "\t")]

  ghost predicate AllBytes(values: seq<string>) {
    forall i :: 0 <= i < |values| ==> IsBytes(values[i])
  }

  function Lines(fs: seq<Field>, values: seq<string>, rest: string): string
    requires |fs| == |values| && AllBytes(values)
  {
    if fs == [] then rest else Line(fs[0], values[0], Lines(fs[1..], values[1..], rest))
  }

  /** The dictionary, and what follows it. */
  function Dictionary(values: seq<string>, rest: string): string
    requires |values| == |FIELDS| && AllBytes(values)
  {
    "begin" + ("\n" + Lines(FIELDS, values, "end" + ("\n" + rest)))
  }

  function Definitions(fs: seq<Field>, values: seq<string>): seq<Token>
    requires |fs| == |values|
  {
    if fs == [] then []
    else [Literal(fs[0].key), Text(values[0]), Word("def")] + Definitions(fs[1..], values[1..])
  }

  lemma {:induction false} LinesTokens(fs: seq<Field>, values: seq<string>, rest: string)
    requires |fs| == |values| && AllBytes(values)
    requires forall i :: 0 <= i < |fs| ==> GoodField(fs[i])
    requires Tokens(rest).Some?
    ensures Tokens(Lines(fs, values, rest)) == Some(Definitions(fs, values) + Tokens(rest).value)
  {
    if fs == [] {
      assert Definitions(fs, values) + Tokens(rest).value == Tokens(rest).value;
    } else {
      var lines := Lines(fs[1..], values[1..], rest);
      var more, tail := Definitions(fs[1..], values[1..]), Tokens(rest).value;
      LinesTokens(fs[1..], values[1..], rest);
      LineTokens(fs[0], values[0], lines);
      ThreeTokens(Literal(fs[0].key), Text(values[0]), Word("def"), more, tail);
    }
  }

  lemma OneToken(a: Token, more: seq<Token>, tail: seq<Token>)
    ensures Cons(a, Some(more + tail)) == Some(([a] + more) + tail)
  {
    assert [a] + (more + tail) == ([a] + more) + tail;
  }

  lemma ThreeTokens(a: Token, b: Token, c: Token, more: seq<Token>, tail: seq<Token>)
    ensures Cons(a, Cons(b, Cons(c, Some(more + tail)))) == Some(([a, b, c] + more) + tail)
  {
    assert [a] + ([b] + ([c] + (more + tail))) == ([a, b, c] + more) + tail;
  }

  lemma GoodJobKeys()
    ensures AllRegular("Job_Printer") && AllRegular("Job_Host") && AllRegular("Job_User")
  {
  }

  lemma GoodTitleKeys()
    ensures AllRegular("Job_JobID") && AllRegular("Job_Title") && AllRegular("Job_DoPageLabels")
  {
  }

  lemma GoodTimeKeys()
    ensures AllRegular("Job_Date") && AllRegular("Job_Hash") && AllRegular("Job_Classification")
  {
  }

  lemma GoodLabelKeys()
    ensures AllRegular("Job_Protect") && AllRegular("Job_Caveats") && AllRegular("Job_Channels")
    ensures AllRegular("Job_SL_Internal")
  {
  }

  lemma FieldsAreGood()
    ensures forall i :: 0 <= i < |FIELDS| ==> GoodField(FIELDS[i])
  {
    GoodJobKeys();
    GoodTitleKeys();
    GoodTimeKeys();
    GoodLabelKeys();
  }

  /** A name on a line of its own. */
  lemma NameLine(name: string, rest: string)
    requires name != [] && AllRegular(name)
    ensures Tokens(name + ("\n" + rest)) == Cons(Word(name), Tokens(rest))
  {
    WordToken(name, "\n" + rest);
    SpaceSkips("\n", rest);
  }

  lemma BlockTokens(first: string, fs: seq<Field>, values: seq<string>, last: string, rest: string)
    requires first != [] && AllRegular(first) && last != [] && AllRegular(last)
    requires |fs| == |values| && AllBytes(values)
    requires forall i :: 0 <= i < |fs| ==> GoodField(fs[i])
    requires Tokens(rest).Some?
    ensures Tokens(first + ("\n" + Lines(fs, values, last + ("\n" + rest))))
            == Some([Word(first)] + (Definitions(fs, values) + ([Word(last)] + Tokens(rest).value)))
  {
    var end := last + ("\n" + rest);
    NameLine(last, rest);
    LinesTokens(fs, values, end);
    NameLine(first, Lines(fs, values, end));
  }

  /** The whole dictionary scans to its thirteen definitions, with the values as they were given. */
  lemma DictionaryScans(values: seq<string>, rest: string)
    requires |values| == |FIELDS| && AllBytes(values)
    requires Tokens(rest).Some?
    ensures Tokens(Dictionary(values, rest))
            == Some([Word("begin")] + (Definitions(FIELDS, values) + ([Word("end")] + Tokens(rest).value)))
  {
    FieldsAreGood();
    BlockTokens("begin", FIELDS, values, "end", rest);
  }

  // ---------------------------------------------------------------------------
  // The file that `emit_dict` writes

  ghost predicate OneLine(s: string) {
    forall i :: 0 <= i < |s| ==> !EndsComment(s[i])
  }

  /** Comment lines, without their first percent sign, and what follows them. */
  function Comments(lines: seq<string>, rest: string): string {
    if lines == [] then rest else "%" + (lines[0] + ("\n" + Comments(lines[1..], rest)))
  }

  /** Every line is there, behind a percent sign and on a line of its own. */
  lemma {:induction false} OneMoreComment(lines: seq<string>, line: string, rest: string)
    ensures Comments([], rest) == rest
    ensures Comments(lines + [line], rest) == Comments(lines, "%" + (line + ("\n" + rest)))
  {
    if lines == [] {
      assert lines + [line] == [line] && [line][1..] == [];
    } else {
      OneMoreComment(lines[1..], line, rest);
      assert (lines + [line])[1..] == lines[1..] + [line];
    }
  }

  lemma {:induction false} CommentEnds(line: string, rest: string)
    requires OneLine(line)
    ensures CommentLength(line + ("\n" + rest)) == |line|
  {
    var s := line + ("\n" + rest);
    if line != [] {
      CommentEnds(line[1..], rest);
      assert s[1..] == line[1..] + ("\n" + rest);
    }
  }

  lemma CommentSkips(line: string, rest: string)
    requires OneLine(line)
    ensures Tokens("%" + (line + ("\n" + rest))) == Tokens(rest)
  {
    var s, end := "%" + (line + ("\n" + rest)), "\n" + rest;
    CommentEnds(line, rest);
    assert s[1..] == line + end;
    assert s[1..][|line|..] == end;
    SpaceSkips("\n", rest);
  }

  lemma {:induction false} CommentsSkip(lines: seq<string>, rest: string)
    requires forall i :: 0 <= i < |lines| ==> OneLine(lines[i])
    ensures Tokens(Comments(lines, rest)) == Tokens(rest)
  {
    if lines != [] {
      CommentsSkip(lines[1..], rest);
      CommentSkips(lines[0], Comments(lines[1..], rest));
    }
  }

  /** A word or a brace and the space behind it. */
  function Spaced(t: Token, gap: string, rest: string): string {
    match t
    case Word(name) => name + (gap + rest)
    case Literal(name) => ['/'] + name + (gap + rest)
    case Open => "{" + (gap + rest)
    case _ => "}" + (gap + rest)
  }

  lemma SpacedToken(t: Token, gap: string, rest: string)
    requires gap != [] && IsSpace(gap[0]) && AllSpace(gap) && !t.Text?
    requires t.Word? ==> t.name != [] && AllRegular(t.name)
    requires t.Literal? ==> AllRegular(t.name)
    ensures Tokens(Spaced(t, gap, rest)) == Cons(t, Tokens(rest))
  {
    var tail := gap + rest;
    SpaceSkips(gap, rest);
    match t
    case Word(name) => WordToken(name, tail);
    case Literal(name) => LiteralToken(name, tail);
    case Open => assert ("{" + tail)[1..] == tail;
    case Close => assert ("}" + tail)[1..] == tail;
  }

  datatype Piece = Piece(token: Token, gap: string)

  function Program(ps: seq<Piece>, rest: string): string {
    if ps == [] then rest else Spaced(ps[0].token, ps[0].gap, Program(ps[1..], rest))
  }

  function TokensOf(ps: seq<Piece>): seq<Token> {
    if ps == [] then [] else [ps[0].token] + TokensOf(ps[1..])
  }

  ghost predicate GoodPiece(p: Piece) {
    && p.gap != [] && IsSpace(p.gap[0]) && AllSpace(p.gap) && !p.token.Text?
    && (p.token.Word? ==> p.token.name != [] && AllRegular(p.token.name))
    && (p.token.Literal? ==> AllRegular(p.token.name))
  }

  lemma {:induction false} ProgramTokens(ps: seq<Piece>, rest: string)
    requires forall i :: 0 <= i < |ps| ==> GoodPiece(ps[i])
    requires Tokens(rest).Some?
    ensures Tokens(Program(ps, rest)) == Some(TokensOf(ps) + Tokens(rest).value)
  {
    if ps == [] {
      assert TokensOf(ps) + Tokens(rest).value == Tokens(rest).value;
    } else {
      ProgramTokens(ps[1..], rest);
      SpacedToken(ps[0].token, ps[0].gap, Program(ps[1..], rest));
      OneToken(ps[0].token, TokensOf(ps[1..]), Tokens(rest).value);
    }
  }

  /** The job dictionary is made when there is none yet. */
  const MAKE_DICT: seq<Piece> := [
    Piece(Word("userdict"), " "), Piece(Literal("JobDict"), " "), Piece(Word("known"), " "), Piece(Word("not"), " "),
    Piece(Open, "\n  "),
    Piece(Word("userdict"), " "), Piece(Literal("JobDict"), " "), Piece(Word("100"), " "), Piece(Word("dict"), " "),
    Piece(Word("put"), "\n"),
    Piece(Close, " "), Piece(Word("if"), "\n\n")]

  const USE_DICT: seq<Piece> := [Piece(Word("JobDict"), "\n")]

  const TRAILER: seq<string> := ["%EndProlog", "%Page: 1 1"]

  ghost predicate AllOneLine(lines: seq<string>) {
    forall i :: 0 <= i < |lines| ==> OneLine(lines[i])
  }

  /** The file; `header` and `remark` are its comment lines above the dictionary, whatever they say. */
  function JobFile(header: seq<string>, remark: seq<string>, values: seq<string>): string
    requires |values| == |FIELDS| && AllBytes(values)
  {
    Framed(header, MAKE_DICT, remark, USE_DICT, Dictionary(values, "\n" + Comments(TRAILER, "")))
  }

  function Framed(header: seq<string>, make: seq<Piece>, remark: seq<string>, use: seq<Piece>, dict: string): string {
    Comments(header, Program(make, Comments(remark, Program(use, dict))))
  }

  lemma FramedTokens(header: seq<string>, make: seq<Piece>, remark: seq<string>, use: seq<Piece>, dict: string)
    requires AllOneLine(header) && AllOneLine(remark)
    requires forall i :: 0 <= i < |make| ==> GoodPiece(make[i])
    requires forall i :: 0 <= i < |use| ==> GoodPiece(use[i])
    requires Tokens(dict).Some?
    ensures Tokens(Framed(header, make, remark, use, dict))
            == Some(TokensOf(make) + (TokensOf(use) + Tokens(dict).value))
  {
    var body := Comments(remark, Program(use, dict));
    ProgramTokens(use, dict);
    CommentsSkip(remark, Program(use, dict));
    ProgramTokens(make, body);
    CommentsSkip(header, Program(make, body));
  }

  lemma TrailerScans(trailer: seq<string>)
    requires AllOneLine(trailer)
    ensures Tokens("\n" + Comments(trailer, "")) == Some([])
  {
    SpaceSkips("\n", Comments(trailer, ""));
    CommentsSkip(trailer, "");
  }

  lemma TrailerIsComment()
    ensures AllOneLine(TRAILER)
  {
  }

  lemma GoodWords()
    ensures AllRegular("userdict") && AllRegular("JobDict") && AllRegular("known") && AllRegular("not")
    ensures AllRegular("100") && AllRegular("dict") && AllRegular("put") && AllRegular("if")
  {
  }

  lemma PiecesAreGood()
    ensures forall i :: 0 <= i < |MAKE_DICT| ==> GoodPiece(MAKE_DICT[i])
    ensures forall i :: 0 <= i < |USE_DICT| ==> GoodPiece(USE_DICT[i])
  {
    GoodWords();
  }

  lemma JobFileTokens(header: seq<string>, remark: seq<string>, values: seq<string>)
    requires AllOneLine(header) && AllOneLine(remark)
    requires |values| == |FIELDS| && AllBytes(values)
    ensures Tokens(JobFile(header, remark, values))
            == Some(TokensOf(MAKE_DICT) + (TokensOf(USE_DICT) +
                    ([Word("begin")] + (Definitions(FIELDS, values) + [Word("end")]))))
  {
    assert [Word("end")] + [] == [Word("end")];
    TrailerIsComment();
    TrailerScans(TRAILER);
    var trailer := "\n" + Comments(TRAILER, "");
    DictionaryScans(values, trailer);
    PiecesAreGood();
    FramedTokens(header, MAKE_DICT, remark, USE_DICT, Dictionary(values, trailer));
  }

  lemma DefinitionStep(fs: seq<Field>, values: seq<string>, i: nat, key: string, tail: seq<Token>)
    requires i < |fs| == |values| && fs[i].key == key
    ensures Definitions(fs[i..], values[i..]) + tail ==
            [Literal(key), Text(values[i]), Word("def")] + (Definitions(fs[i + 1..], values[i + 1..]) + tail)
  {
    var more := Definitions(fs[i + 1..], values[i + 1..]);
    assert fs[i..][1..] == fs[i + 1..] && values[i..][1..] == values[i + 1..];
    assert ([Literal(key), Text(values[i]), Word("def")] + more) + tail
        == [Literal(key), Text(values[i]), Word("def")] + (more + tail);
  }

  lemma ThreeDefinitions(fs: seq<Field>, values: seq<string>, i: nat, tail: seq<Token>)
    requires i + 3 <= |fs| == |values|
    ensures Definitions(fs[i..], values[i..]) + tail ==
            [Literal(fs[i].key), Text(values[i]), Word("def")]
            + ([Literal(fs[i + 1].key), Text(values[i + 1]), Word("def")]
            + ([Literal(fs[i + 2].key), Text(values[i + 2]), Word("def")]
            + (Definitions(fs[i + 3..], values[i + 3..]) + tail)))
  {
    DefinitionStep(fs, values, i, fs[i].key, tail);
    DefinitionStep(fs, values, i + 1, fs[i + 1].key, tail);
    DefinitionStep(fs, values, i + 2, fs[i + 2].key, tail);
  }

  /** The thirteen definitions, word by word, and what follows them. */
  function JobDefinitions(v: seq<string>, tail: seq<Token>): seq<Token>
    requires |v| == 13
  {
    JobNames(v, JobTitles(v, JobTimes(v, JobLabels(v, [Literal("Job_SL_Internal"), Text(v[12]), Word("def")] + tail))))
  }

  function JobNames(v: seq<string>, tail: seq<Token>): seq<Token>
    requires |v| == 13
  {
    [Literal("Job_Printer"), Text(v[0]), Word("def")]
    + ([Literal("Job_Host"), Text(v[1]), Word("def")]
    + ([Literal("Job_User"), Text(v[2]), Word("def")] + tail))
  }

  function JobTitles(v: seq<string>, tail: seq<Token>): seq<Token>
    requires |v| == 13
  {
    [Literal("Job_JobID"), Text(v[3]), Word("def")]
    + ([Literal("Job_Title"), Text(v[4]), Word("def")]
    + ([Literal("Job_DoPageLabels"), Text(v[5]), Word("def")] + tail))
  }

  function JobTimes(v: seq<string>, tail: seq<Token>): seq<Token>
    requires |v| == 13
  {
    [Literal("Job_Date"), Text(v[6]), Word("def")]
    + ([Literal("Job_Hash"), Text(v[7]), Word("def")]
    + ([Literal("Job_Classification"), Text(v[8]), Word("def")] + tail))
  }

  function JobLabels(v: seq<string>, tail: seq<Token>): seq<Token>
    requires |v| == 13
  {
    [Literal("Job_Protect"), Text(v[9]), Word("def")]
    + ([Literal("Job_Caveats"), Text(v[10]), Word("def")]
    + ([Literal("Job_Channels"), Text(v[11]), Word("def")] + tail))
  }

  lemma JobNamesAre(v: seq<string>, tail: seq<Token>)
    requires |v| == |FIELDS|
    ensures Definitions(FIELDS[0..], v[0..]) + tail == JobNames(v, Definitions(FIELDS[3..], v[3..]) + tail)
  {
    ThreeDefinitions(FIELDS, v, 0, tail);
  }

  lemma JobTitlesAre(v: seq<string>, tail: seq<Token>)
    requires |v| == |FIELDS|
    ensures Definitions(FIELDS[3..], v[3..]) + tail == JobTitles(v, Definitions(FIELDS[6..], v[6..]) + tail)
  {
    ThreeDefinitions(FIELDS, v, 3, tail);
  }

  lemma JobTimesAre(v: seq<string>, tail: seq<Token>)
    requires |v| == |FIELDS|
    ensures Definitions(FIELDS[6..], v[6..]) + tail == JobTimes(v, Definitions(FIELDS[9..], v[9..]) + tail)
  {
    ThreeDefinitions(FIELDS, v, 6, tail);
  }

  lemma JobLabelsAre(v: seq<string>, tail: seq<Token>)
    requires |v| == |FIELDS|
    ensures Definitions(FIELDS[9..], v[9..]) + tail == JobLabels(v, Definitions(FIELDS[12..], v[12..]) + tail)
  {
    ThreeDefinitions(FIELDS, v, 9, tail);
  }

  lemma LastIs(v: seq<string>, tail: seq<Token>)
    requires |v| == |FIELDS|
    ensures Definitions(FIELDS[12..], v[12..]) + tail == [Literal("Job_SL_Internal"), Text(v[12]), Word("def")] + tail
  {
    DefinitionStep(FIELDS, v, 12, FIELDS[12].key, tail);
    assert Definitions(FIELDS[13..], v[13..]) + tail == tail;
  }

  lemma DefinitionsAre(v: seq<string>, tail: seq<Token>)
    requires |v| == |FIELDS|
    ensures Definitions(FIELDS, v) + tail == JobDefinitions(v, tail)
  {
    assert FIELDS[0..] == FIELDS && v[0..] == v;
    JobNamesAre(v, tail);
    JobTitlesAre(v, tail);
    JobTimesAre(v, tail);
    JobLabelsAre(v, tail);
    LastIs(v, tail);
  }

  lemma {:induction false} TokensOfAt(ps: seq<Piece>, i: nat)
    requires i < |ps|
    ensures |TokensOf(ps)| == |ps| && TokensOf(ps)[i] == ps[i].token
  {
    if |ps| > 1 {
      TokensOfAt(ps[1..], if i == 0 then 0 else i - 1);
    }
  }

  lemma TokensOfAre(ps: seq<Piece>, ts: seq<Token>)
    requires |ps| == |ts| && forall i :: 0 <= i < |ps| ==> ps[i].token == ts[i]
    ensures TokensOf(ps) == ts
  {
    forall i | 0 <= i < |ps|
      ensures |TokensOf(ps)| == |ps| && TokensOf(ps)[i] == ts[i]
    {
      TokensOfAt(ps, i);
    }
  }

  lemma MakingIs()
    ensures TokensOf(MAKE_DICT) == [
              Word("userdict"), Literal("JobDict"), Word("known"), Word("not"), Open,
              Word("userdict"), Literal("JobDict"), Word("100"), Word("dict"), Word("put"), Close, Word("if")]
    ensures TokensOf(USE_DICT) == [Word("JobDict")]
  {
    TokensOfAre(MAKE_DICT, [
      Word("userdict"), Literal("JobDict"), Word("known"), Word("not"), Open,
      Word("userdict"), Literal("JobDict"), Word("100"), Word("dict"), Word("put"), Close, Word("if")]);
    TokensOfAre(USE_DICT, [Word("JobDict")]);
  }

  /**
   The whole file, comments included, scans to the making of the job dictionary and the thirteen
   definitions with the values as they were given, whatever bytes these hold.
   */
  lemma JobFileScans(header: seq<string>, remark: seq<string>, values: seq<string>)
    requires AllOneLine(header) && AllOneLine(remark)
    requires |values| == 13 && AllBytes(values)
    ensures Tokens(JobFile(header, remark, values))
            == Some([Word("userdict"), Literal("JobDict"), Word("known"), Word("not"), Open,
                     Word("userdict"), Literal("JobDict"), Word("100"), Word("dict"), Word("put"), Close, Word("if")] +
                    ([Word("JobDict")] + ([Word("begin")] + JobDefinitions(values, [Word("end")]))))
  {
    JobFileTokens(header, remark, values);
    DefinitionsAre(values, [Word("end")]);
    MakingIs();
  }
}
