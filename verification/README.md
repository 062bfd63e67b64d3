# Verified models of the algorithms in solaris-userland

This repository is mostly packaging, but it carries several self-contained algorithms that were
written or heavily changed for Solaris. This project models eight of them in Dafny and proves what
they promise, for every input and every run.

| files | what they model |
|---|---|
| `SequenceWindow`, `PlainWindow`, `AcceptedHistory` | the GSS replay and sequencing window: a 20-slot circular array of numbers modulo 2^32 or 2^64, refined step by step down to a memory of everything ever accepted |
| `KexProtocol`, `KexClient`, `KexClientProgram`, `KexServer`, `KexServerProgram`, `KexProduct`, `KexRuns`, `DiffieHellman` | the GSS-authenticated SSH key exchange (sections 2.1 and 2.2 of RFC 4462): both sides as step machines, with any peer and any mechanism, the programs over their own variables, and the two sides joined by channels |
| `Xdr`, `XdrBytes`, `XdrRoundTrip`, `XdrWire`, `XdrStreams` | the XDR packer and unpacker (RFC 1014), for types nested to any depth, against the bytes of the standard |
| `FinalizerThreads`, `FinalizerScope`, `AtexitRace`, `DestructorRegistry` | the C++ destructor registry: every interleaving of finalizations, also with the exit callback, which takes no mutex, the growing array and the order of calls |
| `PsString` | PostScript string escaping and the file the job dictionary is written to, against a scanner |
| `BlockChaining`, `CipherState` | the DES and AES providers: message parts, block chaining, ciphertext stealing (section 5 of RFC 3962) and the state between messages |
| `Keytab` | removing keytab entries by deleting and starting over |
| `LocaleShare` | sharing of equal locale categories through common files |

Code that works in place is a class or a method with loops, proved equal to a function; the theorems
are about those functions. A callback of the source is a function value. `Wrappers` holds `Option` and
`Words` powers of two and the sizes of machine words.

## How the source is represented

- Unsigned 64-bit numbers of the window are integers below 2^64; `x & mask` is the remainder by
  `mask + 1` and the test of the bit `half` is the parity of `x / half`. The remark in
  util_ordering.c that 2^32 messages with 32-bit numbers would be handled wrongly is too
  pessimistic: `RunAgreesExactly` holds across any number of wraps. Its half-range assumption is not
  quite enough, though. One number that is less than half the space from every held one is judged
  wrongly, the one exactly half the space behind the expected number with a residue in the lower
  half; `FirstNumberIsCompleteTwice` gives a run in which the replay service then accepts it again.
- A GSS major status is three bits: error, CONTINUE_NEEDED, and any supplementary bit. COMPLETE is
  none of them. The mechanism may return any combination.
- The group size limits of the SSH exchange and the size the client asks for are parameters: their
  values are defined outside this repository. Hash, MIC, the choice of a group and the check of a
  public key are functions given from outside.
- A message whose contents cannot be read is one constructor of its own, and both programs stop on it.
- The destructor registry follows the code where it differs from the C++ ABI it implements: the walk for
  one shared object goes forward, in order of registration.
- A locale category is given by its text; the hash is any function.

## Model

| member | source | states |
|---|---|---|
| SequenceWindow.AfterMasked | components/krb5/Solaris/util_ordering.c:100-124 | on masked numbers the comparison, bit test included, is: less than half ahead, or at least half behind |
| SequenceWindow.AfterIsTotalAndAntisymmetric | components/krb5/Solaris/util_ordering.c:88-125 | of two distinct masked numbers exactly one is after the other, also at distance exactly half |
| SequenceWindow.AfterAgreesExactly | components/krb5/Solaris/util_ordering.c:64-125 | residues compare like the numbers themselves if and only if these lie less than half the space apart, or exactly half with the larger one wrapped |
| SequenceWindow.NeverLost | components/krb5/Solaris/util_ordering.c:208-259 | the final failure return is unreachable for every window and every number, ordered or not, in half range or not |
| SequenceWindow.Queue.constructor | components/krb5/Solaris/util_ordering.c:159-185 | a new queue holds only the number before the first one, masked |
| SequenceWindow.Queue.QueueInsert | components/krb5/Solaris/util_ordering.c:128-157 | shifting in the ring inserts behind the given index and drops exactly the oldest element of a full queue |
| SequenceWindow.OpenedRing | components/krb5/Solaris/util_ordering.c:139-156 | with room left, the shifted ring read from the same start is the old contents with the number inserted |
| SequenceWindow.OpenedFullRing | components/krb5/Solaris/util_ordering.c:139-156 | in a full ring the shift overwrites only the oldest element, and the contents read from the next slot are the insertion without it |
| SequenceWindow.Queue.Locate | components/krb5/Solaris/util_ordering.c:243-255 | the search loop stops at the first equal element or bracketing pair |
| SequenceWindow.Queue.FindPlace | components/krb5/Solaris/util_ordering.c:208-259 | the rules in order find the place of a number among the residues, never the failure case |
| SequenceWindow.Queue.Check | components/krb5/Solaris/util_ordering.c:187-260 | verdict and new contents are those of the check on residues, and the verdict is never failure |
| PlainWindow.PlainCheckKeepsWindow | components/krb5/Solaris/util_ordering.c:56-59 | the window stays strictly increasing with 1 to 20 elements |
| PlainWindow.PlaceAgreesExactly | components/krb5/Solaris/util_ordering.c:208-256 | a number less than half the space from every held one is placed where it really is, save exactly one: half the space behind the expected number with a residue in the lower half, which is taken for a new one |
| PlainWindow.CheckAgreesExactly | components/krb5/Solaris/util_ordering.c:187-260 | one check gives the verdict of the plain integers and a window that is still their residues if and only if the number is not that one |
| PlainWindow.RunAgreesExactly | components/krb5/Solaris/util_ordering.c:187-260 | in every run whose numbers lie less than half the space from the held ones, across any number of wraps and evictions, all verdicts and all windows are those of the unbounded integers if and only if no number is the misjudged one |
| PlainWindow.RelativeIsResidue | components/krb5/Solaris/util_ordering.c:199-206 | subtracting the first number in 64 bits and masking leaves the residue of the relative number |
| PlainWindow.NewQueueAgreesExactly | components/krb5/Solaris/util_ordering.c:83-86 | a new queue places a number correctly if and only if it is less than half the number space ahead |
| PlainWindow.SecondArrivalIsRefused | components/krb5/Solaris/util_ordering.c:208-256 | a number that arrives again is answered duplicate or old (unsequenced), whatever came between, so none is answered complete twice |
| PlainWindow.SecondArrivalIsRefusedExactly | components/krb5/Solaris/util_ordering.c:208-256 | for numbers held modulo the number space, after a run without misjudged numbers, a number that arrives again near the held ones is refused if and only if it is not the misjudged one |
| PlainWindow.FirstNumberIsCompleteTwice | components/krb5/Solaris/util_ordering.c:117-124 | the exception is real, for both widths: after half the space of numbers in order the first one comes again, near every held number, and the replay service answers complete a second time |
| AcceptedHistory.CheckKeepsNewest | components/krb5/Solaris/util_ordering.c:146-156 | the window is always the twenty largest accepted numbers, or all of them |
| AcceptedHistory.CheckAnswersFromHistory | components/krb5/Solaris/util_ordering.c:187-260 | every verdict is the one read off the set of everything accepted: old exactly when twenty larger ones are known or all known ones are larger |
| AcceptedHistory.RunAnswersFromHistory | components/krb5/Solaris/util_ordering.c:187-260 | the same for runs of any length, window included |
| AcceptedHistory.NewQueueAnswersFromHistory | components/krb5/Solaris/util_ordering.c:159-260 | from a new queue, every such run of residues gives exactly the verdicts of the full history, and the window is the residues of the twenty largest accepted numbers |
| AcceptedHistory.VerdictsByOption | components/krb5/Solaris/util_ordering.c:187-260 | the verdicts by the two options: with sequencing on, replay detection on or off, a gap, an old number and a late one are each told; with replay detection alone a gap and a late number are complete; with neither everything is |
| AcceptedHistory.CheckAll | components/krb5/Solaris/util_ordering.c:187-260 | any run of checks on the circular queue gives the verdicts and the window of the run on residues, never the failure |
| AcceptedHistory.RunNewQueue | components/krb5/Solaris/util_ordering.c:159-260 | the circular queue itself, made for any first number and fed raw numbers of either width, gives each number the answer its two options and the full history ask for, and holds the newest twenty, in every run without misjudged numbers |
| AcceptedHistory.DuplicateArrivedBefore | components/krb5/Solaris/util_ordering.c:178-181 | duplicate is said only of numbers that arrived before or were in the history at the start, such as the one before the first |
| DiffieHellman.SecretsAgree | components/openssh/sources/kexgsss.c:427-433 | raising the peer's public value to one's own exponent gives both sides the base to the product of the exponents, for every base, exponents and modulus |
| DiffieHellman.PowerAdds | components/openssh/sources/kexgsss.c:427-433 | the power of a sum of exponents is the product of the powers |
| DiffieHellman.ModExpIsResidue | components/openssh/sources/kexgsss.c:427-433 | the modular power is below the modulus and a multiple of it away from the power |
| KexProtocol.SizeAllowedExactly | components/openssh/sources/kexgssc.c:409-411 | a modulus has a number of bits within two bounds if and only if it lies between the powers of two of these |
| KexClient.GroupIsTakenExactly | components/openssh/sources/kexgssc.c:401-418 | the client goes on with a group if and only if its modulus lies between the powers of two of the bounds and a key can be made |
| KexClient.AfterInitKeeps | components/openssh/sources/kexgssc.c:111-170 | what follows a call of the mechanism keeps the client invariant, whatever it returned |
| KexClient.ReadKeeps | components/openssh/sources/kexgssc.c:171-259 | so does every packet read |
| KexClient.ReachingTheMicCheck | components/openssh/sources/kexgssc.c:111-268 | in every run that reaches the MIC check one INIT was sent and was the first token, one COMPLETE was received and came last, at most one host key came, and the context is complete with both flags if and only if the last status had no supplementary bit |
| KexClient.TokensUpToTheMicCheck | components/openssh/sources/kexgssc.c:111-268 | in those runs every token the mechanism produced was sent, in order, and every token received was handed to it, the last one included, if and only if the last status had no supplementary bit |
| KexClient.KeysExactlyFromAFittingMic | components/openssh/sources/kexgssc.c:269-333 | the client then ends with keys if and only if the server's public key is valid and the MIC of the final message fits the hash of what was sent and received: its own INIT, a group with a modulus between the powers of two of the bounds, a host key, and the modular powers that are its public key and the secret; otherwise it stops |
| KexClient.SupplementaryStatusPasses | components/openssh/sources/kexgssc.c:134-142 | the exception is real: a bare supplementary status reaches the MIC check with neither flag set |
| KexClientProgram.SendToken | components/openssh/sources/kexgssc.c:112-170 | the checks on the mechanism's answer and the message sent, over the program's variables, are the machine's step; fatal exactly in the three cases named |
| KexClientProgram.ReadReply | components/openssh/sources/kexgssc.c:171-184 | the inner loop takes in host keys until another packet comes, a second host key being fatal |
| KexClientProgram.TokenLoop | components/openssh/sources/kexgssc.c:111-268 | the nested loops over the program's own variables end as the machine does, with the same messages sent and the same final message held |
| KexClientProgram.CheckMic | components/openssh/sources/kexgssc.c:269-333 | secret, hash and MIC check over the program's variables give the machine's end |
| KexClientProgram.KexgssClient | components/openssh/sources/kexgssc.c:55-346 | the program for a fixed group sends what the machine sends and ends with the same keys, or as fatal, or waiting |
| KexClientProgram.KexgssgexClient | components/openssh/sources/kexgssc.c:348-639 | the same for a group exchange, size request and group check included |
| KexServer.ReadGroupReqKeeps | components/openssh/sources/kexgsss.c:314-355 | answering the size request keeps the server invariant: the hashed size is the clamped one and lies in the allowed range |
| KexServer.RequestIsServedExactly | components/openssh/sources/kexgsss.c:314-355 | a size request is served if and only if the server's size nearest to the one asked for lies within the client's bounds and group and key can be had; the group is chosen within the bounds of both, and that size is hashed with the client's own bounds |
| KexServer.AfterAcceptKeeps | components/openssh/sources/kexgsss.c:161-237 | what follows a call of the mechanism keeps the server invariant; a final message carries the MIC over what was hashed |
| KexServer.AfterAcceptRelays | components/openssh/sources/kexgsss.c:161-237 | the server sends every token its mechanism produces, the last one with COMPLETE, and has handed it every token received |
| KexServer.EveryRunIsSafe | components/openssh/sources/kexgsss.c:110-237 | in every state of every run, stopped ones included: no token leaves before an INIT came, a second INIT stops the server, and COMPLETE leaves only with both flags, no error and a valid client key, carrying the MIC over what was hashed |
| KexServerProgram.Serve | components/openssh/sources/kexgsss.c:110-237 | the loop over the program's own variables, with the secret of a fixed group computed at the INIT, and what follows it send what the machine sends and end as it does |
| KexServerProgram.Conclusion | components/openssh/sources/kexgsss.c:184-237 | error message, flags, hash, MIC and final message over the program's variables give the machine's end |
| KexServerProgram.KexgssServer | components/openssh/sources/kexgsss.c:60-261 | the program for a fixed group sends what the machine sends and ends with the same keys, or as fatal, or waiting |
| KexServerProgram.KexgssgexServer | components/openssh/sources/kexgsss.c:263-500 | the same for a group exchange, clamping included |
| KexProduct.StepKeeps | components/openssh/sources/kexgssc.c:148-259 | every step of either program keeps the joint invariant, first-in first-out delivery included |
| KexProduct.NeverBothWaiting | components/openssh/sources/kexgssc.c:148-259 | in every run, until one side ends, exactly one party runs or exactly one message is under way, and some step can be taken |
| KexProduct.TokensAreRelayed | components/openssh/sources/kexgssc.c:111-268 | in every run, as long as neither side has stopped, each mechanism has been handed a prefix of what the other one produced, unchanged and in order |
| KexProduct.HonestRunsAgree | components/openssh/sources/kexgsss.c:326-336 | in every honest run in which the client has the final message both compute the same secret, the base to the product of their exponents, and they hash the same inputs if and only if the size asked for lies in the allowed range |
| KexProduct.HonestClientAcceptsTheMic | components/openssh/sources/kexgssc.c:269-333 | so the client's last step accepts the MIC and ends with the server's secret and hash inputs if the server's public key is valid, and stops otherwise |
| KexRuns.HonestRunsExist | components/openssh/sources/kexgssc.c:111-268 | for every two lists of tokens of one length, for both kinds of exchange and every size asked for, some honest run reaches the MIC check in which the mechanisms produce exactly these tokens, in as many rounds |
| KexRuns.ClampedSizesAreHashedDifferently | components/openssh/sources/kexgsss.c:326-336 | the exception is real: for every size out of range and every such dialogue some honest run reaches the MIC check with equal secrets and different hash inputs |
| XdrRoundTrip.RoundTrip | components/python/xdrlib/files/xdrlib.py:65-247 | a value of any type packed anywhere in a buffer unpacks to its canonical form and leaves the cursor right behind it |
| XdrBytes.PackIsWire | components/python/xdrlib/files/xdrlib.py:65-134 | a call that raises nothing writes exactly the bytes of RFC 1014, for types nested to any depth |
| XdrBytes.BoolBytes | components/python/xdrlib/files/xdrlib.py:76-80 | a boolean is written as the bytes 0, 0, 0, 1 or 0, 0, 0, 0 |
| XdrBytes.FstringBytes | components/python/xdrlib/files/xdrlib.py:101-107 | a fixed string is its first bytes followed by zeros to a whole word |
| XdrBytes.IntBytes | components/python/xdrlib/files/xdrlib.py:69-71 | a signed number is written in two's complement |
| XdrBytes.ScalarErrors | components/python/xdrlib/files/xdrlib.py:65-114 | which numbers, sizes and lengths are refused, and with which exception |
| XdrBytes.FirstErrorStops | components/python/xdrlib/files/xdrlib.py:125-129 | the first item that raises stops an array, with exactly the items in front of it written |
| XdrBytes.ReadErrors | components/python/xdrlib/files/xdrlib.py:160-237 | reading raises end-of-file on a short word, refuses a negative size, and a list marker that is neither 0 nor 1 |
| XdrRoundTrip.UhyperIsBigEndian | components/python/xdrlib/files/xdrlib.py:81-91 | the two words of a hyper are the eight bytes of the number modulo 2^64, big end first |
| XdrRoundTrip.PackThenUnpack | components/python/xdrlib/files/xdrlib.py:65-247 | the same for any prefix and any suffix |
| XdrRoundTrip.PackSucceedsExactly | components/python/xdrlib/files/xdrlib.py:65-134 | packing raises nothing if and only if all numbers are in range and all lengths and counts fit |
| XdrRoundTrip.ComesBackExactly | components/python/xdrlib/files/xdrlib.py:81-107 | the value itself comes back if and only if hypers lie in the 64-bit range and fixed strings have their size |
| XdrRoundTrip.PackWritesWords | components/python/xdrlib/files/xdrlib.py:101-134 | every call, also one that raises, appends a multiple of four bytes |
| XdrWire.UnpackOfCutInput | components/python/xdrlib/files/xdrlib.py:160-247 | unpacking reads nothing behind the cursor it leaves, and on input cut short of it raises end-of-file |
| XdrWire.StrictPrefixIsEndOfFile | components/python/xdrlib/files/xdrlib.py:160-247 | an encoding cut off anywhere inside raises end-of-file |
| XdrWire.EncodingsArePrefixFree | components/python/xdrlib/files/xdrlib.py:65-134 | no encoding of a type continues another one of that type |
| XdrWire.ReadRepacksExactly | components/python/xdrlib/files/xdrlib.py:101-247 | what arbitrary bytes unpack to can be packed again if and only if the value holds no fixed array of negative count |
| XdrWire.RepackWhatWasRead | components/python/xdrlib/files/xdrlib.py:101-247 | then it takes as many bytes as were consumed, different only in padding and in words of true booleans, also from a cursor set behind the end |
| XdrWire.RereadWhatWasRepacked | components/python/xdrlib/files/xdrlib.py:101-247 | and unpacks to the same value again |
| Xdr.UnpackList | components/python/xdrlib/files/xdrlib.py:227-237 | list decoding ends on arbitrary bytes and never moves the cursor back |
| XdrStreams.Packer.PackFstring | components/python/xdrlib/files/xdrlib.py:101-107 | appends the string cut or padded to whole words, or raises on a negative size |
| XdrStreams.Packer.PackList | components/python/xdrlib/files/xdrlib.py:119-123 | the loop appends exactly the encoding of the list, up to the item that raises |
| XdrStreams.Packer.PackFarray | components/python/xdrlib/files/xdrlib.py:125-129 | the loop appends exactly the items, and nothing when the count is wrong |
| XdrStreams.Packer.PackItem | components/python/xdrlib/files/xdrlib.py:65-134 | any composed call appends its encoding, the bytes of RFC 1014 when it raises nothing, and keeps the buffer in whole words |
| XdrStreams.Unpacker.UnpackUint | components/python/xdrlib/files/xdrlib.py:160-166 | reads a word and moves the cursor, also when it raises end-of-file |
| XdrStreams.Unpacker.UnpackFstring | components/python/xdrlib/files/xdrlib.py:208-216 | reads a padded string, or leaves the cursor when it raises |
| XdrStreams.Unpacker.UnpackList | components/python/xdrlib/files/xdrlib.py:227-237 | the loop reads what list decoding reads and leaves the same cursor |
| XdrStreams.Unpacker.UnpackFarray | components/python/xdrlib/files/xdrlib.py:239-243 | the loop reads what array decoding reads and leaves the same cursor |
| XdrStreams.Unpacker.UnpackItem | components/python/xdrlib/files/xdrlib.py:160-247 | any composed call reads what its type reads and leaves the same cursor |
| FinalizerThreads.AdvanceKeepsMutex | components/llvm-21/cxa_finalize/cxa_finalize.c:216-271 | exactly the call recorded as holder of the mutex is inside a locked section |
| FinalizerThreads.AdvanceMovesClaims | components/llvm-21/cxa_finalize/cxa_finalize.c:242-247 | marking a pending entry makes one claim, calling turns the claim into a call, and no other step changes either |
| FinalizerThreads.AdvanceKeeps | components/llvm-21/cxa_finalize/cxa_finalize.c:231-268 | every step of every call keeps mutual exclusion, coverage and the conservation of claims and calls |
| FinalizerThreads.AtMostOnce | components/llvm-21/cxa_finalize/cxa_finalize.c:216-271 | in every interleaving of any finalizations, nested ones included, no destructor is called twice and none that was done is called |
| FinalizerThreads.ExactlyOnce | components/llvm-21/cxa_finalize/cxa_finalize.c:216-271 | once all calls have returned, every pending destructor in the scope of one of them was called exactly once |
| FinalizerScope.OthersAreLeftAlone | components/llvm-21/cxa_finalize/cxa_finalize.c:254-268 | in every interleaving, an entry that no call started so far was for is as it was and has not been called |
| FinalizerScope.CalledExactly | components/llvm-21/cxa_finalize/cxa_finalize.c:216-271 | once all calls have returned, the destructors called are exactly the pending ones that some call was for, each once |
| FinalizerThreads.NoDeadlock | components/llvm-21/cxa_finalize/cxa_finalize.c:234-253 | after every run, while some call has not returned some call can go on: the mutex is never held across a destructor |
| FinalizerThreads.RunsAreBounded | components/llvm-21/cxa_finalize/cxa_finalize.c:231-268 | without new calls a run has a bounded number of steps |
| FinalizerThreads.CanFinish | components/llvm-21/cxa_finalize/cxa_finalize.c:231-268 | after every run all calls under way can be brought to an end |
| AtexitRace.TakeKeeps | components/llvm-21/cxa_finalize/cxa_finalize.c:169-271 | every step of the callback and of the finalizations keeps the count of claims, and a second claim on an entry arises only in a state where both sides have tested it and neither has marked it |
| AtexitRace.AtMostOnceWithoutRace | components/llvm-21/cxa_finalize/cxa_finalize.c:169-271 | in every interleaving of the exit callback with any finalizations, a destructor is called at most once as long as no state has raced on its entry |
| AtexitRace.TwiceExactlyAfterRace | components/llvm-21/cxa_finalize/cxa_finalize.c:169-271 | once all are over, every pending destructor was called once, or twice if and only if some state raced on it |
| AtexitRace.UndisturbedDoesNotRace | components/llvm-21/cxa_finalize/cxa_finalize.c:177-184 | finalizations that are never under way between the callback's test and its mark do not race |
| AtexitRace.EveryPendingEntryCanBeCalledTwice | components/llvm-21/cxa_finalize/cxa_finalize.c:169-253 | the race is real: in every registry every pending destructor is called twice in some run |
| AtexitRace.LocalsGoFirst | components/llvm-21/cxa_finalize/cxa_finalize.c:169-197 | in every interleaving, the callback calls a destructor of global scope only when every entry of local scope is done |
| AtexitRace.CallbackEnds | components/llvm-21/cxa_finalize/cxa_finalize.c:169-197 | whatever the finalizations do, the callback makes a bounded number of steps, is never kept from its next one, and ends |
| DestructorRegistry.Registry.Resize | components/llvm-21/cxa_finalize/cxa_finalize.c:88-104 | the new array starts with exactly the old entries |
| DestructorRegistry.Registry.Register | components/llvm-21/cxa_finalize/cxa_finalize.c:106-167 | the array holds the registered entries in order through every doubling, and its capacity is 64 times a power of two, less than twice what is needed |
| DestructorRegistry.DoublingMakesRoomExactly | components/llvm-21/cxa_finalize/cxa_finalize.c:128-129 | doubling in 32 bits makes room if and only if the size is below 2^31; at 2^31 it wraps to zero |
| DestructorRegistry.Registry.CxaAtexit | components/llvm-21/cxa_finalize/cxa_finalize.c:199-214 | appends a pending entry of global scope |
| DestructorRegistry.Registry.WalkDown | components/llvm-21/cxa_finalize/cxa_finalize.c:231-253 | an undisturbed walk marks the chosen entries, touches no other, and calls the pending ones among them from the last to the first |
| DestructorRegistry.Registry.WalkUp | components/llvm-21/cxa_finalize/cxa_finalize.c:254-268 | an undisturbed walk for one object calls its pending entries in order of registration and touches no other |
| DestructorRegistry.Registry.CxaFinalize | components/llvm-21/cxa_finalize/cxa_finalize.c:216-271 | fails before any registration; else calls exactly the pending entries of the object, in order of registration, or all pending ones in reverse order for no object, marks those entries done and changes no other |
| DestructorRegistry.Registry.AtexitCallback | components/llvm-21/cxa_finalize/cxa_finalize.c:169-197 | local entries first, then global ones, each in reverse order; everything is done afterwards |
| DestructorRegistry.DescendingIsReverseOrder | components/llvm-21/cxa_finalize/cxa_finalize.c:231-253 | the calls are exactly the pending chosen entries, in exact reverse order of registration |
| DestructorRegistry.AscendingIsOrder | components/llvm-21/cxa_finalize/cxa_finalize.c:254-268 | the calls are exactly the pending entries of the object, in order of registration |
| DestructorRegistry.GlobalsOnlyIsPlainReverse | components/llvm-21/cxa_finalize/cxa_finalize.c:176-213 | what was registered through the public entry leaves the exit callback in plain reverse order |
| PsString.PsEscape | components/libcupsfilters/files/labeltops.c:151-189 | writes only within the buffer of 4n+1 bytes and leaves the escaped string ended by NUL; fails if and only if 4n+1 is 2^64 or more |
| PsString.WriteByte | components/libcupsfilters/files/labeltops.c:169-184 | one byte takes one, two or four bytes, the terminator of the octal form included |
| PsString.ScanOfEscape | components/libcupsfilters/files/labeltops.c:169-186 | a PostScript scanner recovers the string from its escaped form and stops exactly at the template's own parenthesis |
| PsString.LineTokens | components/libcupsfilters/files/labeltops.c:380-395 | a line of the template scans to a key, the value as it was given, and def |
| PsString.DictionaryScans | components/libcupsfilters/files/labeltops.c:380-395 | the whole dictionary scans to its thirteen definitions with the given values, and what follows it scans as it would alone |
| PsString.JobFileScans | components/libcupsfilters/files/labeltops.c:377-436 | the whole file written, comments before and after included, scans to the making of the dictionary and the thirteen definitions, word for word, whatever bytes the values hold |
| PsString.OneMoreComment | components/libcupsfilters/files/labeltops.c:377-436 | every comment line is written behind a percent sign on a line of its own |
| CipherState.GatherOfScatter | components/krb5/Solaris/ucrypto/enc_provider/des.c:112-125 | what is scattered over the encrypted parts is gathered again, however they are cut |
| CipherState.ScatterKeepsShape | components/krb5/Solaris/ucrypto/enc_provider/des.c:112-125 | parts that are not encrypted stay untouched and no length changes |
| CipherState.GatherIsConcatenation | components/krb5/Solaris/ucrypto/enc_provider/des.c:111-114 | the encrypted parts are joined in order, and nothing of the others |
| CipherState.DesAcceptsExactly | components/krb5/Solaris/ucrypto/enc_provider/des.c:63-80 | DES takes a call if and only if key and state have eight bytes and the message whole blocks of eight; which error is returned otherwise |
| CipherState.AesAcceptsExactly | components/krb5/Solaris/ucrypto/enc_provider/aes.c:180-222 | AES takes sixteen bytes, or more when a state given has sixteen; a short message is a bad size |
| CipherState.NoStateIsZeroState | components/krb5/Solaris/ucrypto/enc_provider/des.c:96-99 | without a state all four operations give the bytes they give from a state of zeros |
| BlockChaining.CbcChains | components/krb5/Solaris/ucrypto/enc_provider/des.c:116-121 | every ciphertext block is the cipher of its plaintext block combined with the ciphertext block before it, or the starting value |
| BlockChaining.CbcRoundTrip | components/krb5/Solaris/ucrypto/enc_provider/des.c:117-186 | chained decryption undoes chained encryption under the same starting value |
| BlockChaining.CtsRoundTrip | components/krb5/Solaris/ucrypto/enc_provider/aes.c:135-151 | ciphertext stealing is undone for every length above one block, from the law of the block cipher alone |
| BlockChaining.MovedBlockIsChain | components/krb5/Solaris/ucrypto/enc_provider/aes.c:156-171 | the last whole block of the stolen ciphertext is the chaining value after the zero-padded plaintext |
| CipherState.DesIsUndone | components/krb5/Solaris/ucrypto/enc_provider/des.c:82-202 | from equal states decryption gives the plaintext back and ends in the sender's new state |
| CipherState.AesIsUndone | components/krb5/Solaris/ucrypto/enc_provider/aes.c:38-222 | the same for AES; a single block is encrypted from zeros and leaves the state alone |
| CipherState.AesStateIsChain | components/krb5/Solaris/ucrypto/enc_provider/aes.c:153-172 | with more than one block the state AES writes back is the chaining value after the zero-padded plaintext |
| CipherState.DesStreamsDecrypt | components/krb5/Solaris/ucrypto/enc_provider/des.c:82-202 | over a stream of any length, each message cut differently on the two sides, the states stay equal and every message comes back |
| CipherState.AesStreamsDecrypt | components/krb5/Solaris/ucrypto/enc_provider/aes.c:38-222 | the same for AES |
| CipherState.StateAfterOneMore | components/krb5/Solaris/ucrypto/enc_provider/des.c:127-135 | the state after a stream is the one left by the call on its last message |
| CipherState.DesCbcMac | components/krb5/Solaris/ucrypto/enc_provider/des.c:204-241 | the loop computes the chaining value after all blocks, from zeros when no state is given, with the error codes of the validation |
| CipherState.MacIsCipherState | components/krb5/Solaris/ucrypto/enc_provider/des.c:117-135 | on a non-empty message that value is the last ciphertext block and the state encryption writes back |
| Keytab.RemoveByKey | components/krb5/Solaris/kt_solaris.c:265-340 | the loop ends; on success exactly the entries of the realm, or of the principal, are gone and the others keep order and multiplicity; on any failure only some of the first matching ones are gone |
| Keytab.RemoveFirstAt | components/krb5/Solaris/kt_solaris.c:302-313 | removing the entry found removes the first matching one and nothing else |
| Keytab.OthersOfWithout | components/krb5/Solaris/kt_solaris.c:293-325 | however many deletions were made, the entries that do not match are all still there in order |
| LocaleShare.BuildTable | components/locale/prepare_localedef.py:106-127 | the nested loops build the table, or stop at an assertion that fires |
| LocaleShare.NoAssertionFiresExactly | components/locale/prepare_localedef.py:118-127 | no assertion fires if and only if parts with one hash have one text and one charset, for any hash function |
| LocaleShare.TableIsFaithful | components/locale/prepare_localedef.py:112-127 | if no assertion fires every category finds its own text and charset under its hash, for any hash function |
| LocaleShare.TableCounts | components/locale/prepare_localedef.py:121-124 | the counter is the number of categories with that hash, less one |
| LocaleShare.PartsInOrder | components/locale/prepare_localedef.py:48-48 | the categories of a locale are taken in the order of the source |
| LocaleShare.DistinctAreGiven | components/locale/prepare_localedef.py:106-114 | the names written out are exactly the names given |
| LocaleShare.DistinctDiffer | components/locale/prepare_localedef.py:106-114 | none of them comes twice |
| LocaleShare.DistinctGrows | components/locale/prepare_localedef.py:106-114 | and they keep the order in which they were first given |
| LocaleShare.PointsExactly | components/locale/prepare_localedef.py:143-169 | a category is written as a reference to a common file if and only if its hash came up twice, its charset is UTF-8, it is LC_CTYPE or LC_COLLATE and its locale is neither standalone one; otherwise its own text is written |
| LocaleShare.Emit | components/locale/prepare_localedef.py:138-181 | the nested loops write the outputs and the common files of the sharing rule |
| LocaleShare.FilesAreDistinct | components/locale/prepare_localedef.py:173-181 | no common file is written twice, and no two share a hash |
| LocaleShare.ReadsBackExactly | components/locale/prepare_localedef.py:143-181 | with a faithful table every category reads back through the common files if and only if no hash is pointed to under both categories |
| LocaleShare.SharingKeepsEveryLocaleExactly | components/locale/prepare_localedef.py:106-181 | if no assertion fires, every locale reads back all its categories if and only if no shareable LC_CTYPE text is also a shareable LC_COLLATE text |
| LocaleShare.Prepare | components/locale/prepare_localedef.py:106-181 | the script from the list of locales to the files: it comes to an end if and only if parts with one hash have one text and one charset, and what it then writes reads back under the same condition as above |
| LocaleShare.OneTextForBothIsLost | components/locale/prepare_localedef.py:143-181 | the exception is real: a locale with one text for both categories, and no other text under one hash, does not read back although no assertion fires |

## Left out

- Export, import and release of the sequencing window, and allocation failures: plain copies and early returns.
- The elliptic-curve variants of the SSH exchange: their key agreement is a library this repository does not hold.
- Trailing data after an SSH message, which some branches of the exchange accept and others refuse.
- Deriving and installing the SSH keys after both sides hold secret and hash, credentials and rekeying.
- Float and double values in XDR, negative cursor positions, and the texts of Python exceptions; a value of the wrong sort is one error of its own.
- Registration while a finalization or the exit callback is under way, and allocation or `atexit` failures of the destructor registry.
- DestructorRegistry.Registry.WalkDown: undisturbed walks only; destructors that call back are covered by the interleavings of `FinalizerThreads`.
- DestructorRegistry.Registry.Register: a full array must be below 2^31 entries; at 2^31 the doubled size is zero, and the source writes outside the new array.
- FinalizerThreads.ExactlyOnce: the early return of a registry that was never used is not part of the interleavings.
- The PostScript scanner covers words, literal names, literal strings, procedures and comments, which is all the file holds; a number counts as a word, the wording of the comments above the dictionary is left open, and missing job values are not modelled.
- CipherState.AesIsUndone: an empty message counts as refused; the source goes on with no block and copies a state from in front of its buffer.
- CipherState.AesStreamsDecrypt: the parts are values rather than memory updated in place; the block ciphers inside libucrypto enter with the law that decryption undoes encryption, and its two modes are defined here.
- The other Kerberos encryption and hash providers: the same shape again, or state kept in an unseen library.
- Adding and validating Active Directory keytab entries: they rest on encryption-type tables that are not part of this model.
- Reading and joining lines of locale sources, and the header text of the files written.
- Audit plugins, configuration writers, tracing glue, user interfaces and build scripts: input, output and foreign calls with shallow logic.
