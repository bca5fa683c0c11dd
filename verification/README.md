# Verified models of the hard cores of a BSD userland on Linux

The programs and libraries in this repository rest on a handful of self-contained algorithms.  The Dafny
files here model those algorithms in the form the C code gives them (objects whose fields are updated,
arrays rewritten in place, loops), tie every such method to a specification function, and prove about
those functions what the code is there for.  The modules named `Laws` say what the functions come to in numbers,
bits and characters, without using them.

- **compress** (`LzwCodes`, `LzwPacking`, `LzwStream`, `LzwLaws`, `LzwHash`, `ZWriter`, `ZReader`, `ZRoundTrip`): the LZW
  writer and reader of `zopen.c`.  The list of codes alone determines where each code lies in the file and
  how wide it is; the writer follows that layout, the reader finds it again one entry behind, the two
  dictionaries stay in lockstep, and the open-addressed hash table of the writer refines a map.  Whatever
  is written in any pieces is read back in any pieces.
- **awk** (`RegexTree`, `RegexLaws`, `RegexAutomaton`, `RegexBuild`, `RegexDfa`, `Utf8Text`, `RegexMatch`, `RegexAnchors`,
  `Substitute`, `SubstituteLaws`): from the parse tree of a regular expression to the follow-position automaton, the lazily
  built and memoised machine, the two matchers, and the substitution loop of `sub` and `gsub`.
- **sorting** (`Ordering`, `MergeSetup`, `MergeSort`, `HeapSort`): the natural merge sort with its two arrays
  that serve as each other's list of runs, and the bottom-up heapsort.
- **indexes and caches** (`OhashTable`, `Ohash`, `Mpool`, `EdBuffer`): the hash table with tombstones, which
  refines a map; the page cache, which refines a store of pages; the circular list of lines of ed with its
  cached cursor.
- **transformations** (`SetMode`, `SymbolicMode`, `ModeEffects`, `ModeManual`, `ModeWhole`, `Bpf`, `Capsicum`):
  symbolic file modes, parsed, compiled to commands, compacted in place, brought into closed form and compared
  with the manual; allowlists assembled into jump-patched filter programs.
- **codecs** (`Unvis`, `Vis`, `Base64`, `Base64Laws`) and **calendar arithmetic** (`IsoWeek`).
- `Arithmetic`, `Bits` and `Probing` hold what several of them share: powers of two, bitwise operations on
  numbers, and walks with an invertible stride.

## Where code and documentation disagree

The model follows the code.  Each point shows in a lemma or a contract.

- compress(1) offers widths from 9 bits on, but `zread` refuses files of fewer than 12, and an empty input
  leaves an empty file, which `zread` refuses too: `LzwStream.RoundTrip` is an equivalence.
- `^` and `$` are the runes 1261 and 0 inside the automaton, so a text that holds U+04ED, or an overlong
  encoding of zero, is matched by them in its middle: `RegexAnchors.AnchorsInsideText` names two such texts,
  and `RegexAnchors.AnchorsConfined` shows that the absence of the rune is exactly what excludes it.
- chmod(1), taken at its word, differs from the code in these points, and `ModeManual.AsDocumented` says exactly
  for which actions the two agree.  `-` where nobody is named is to clear bits that are set in the creation mask;
  the code clears those that are clear in it (`ModeWhole.MinusDiffers`).  Copies are to be taken from the original
  mode; the code takes them from the mode as the actions before have left it (`ModeWhole.CopyDiffers`).  `X` is to
  count for `+` alone; `-X` and `=X` set execute bits.  `=` is to clear the bits of its class; with a copy the code
  leaves set-ID bits alone (`ModeWhole.EqualDiffers`), and letters before the last copy are lost.  `+rt`, where
  nobody is named, sets the sticky bit alone.  In `Documented` the bits a class stands for include its set-ID bit,
  as in the code, and the sticky bit counts as a permission of every class but `o` by itself.
- For a whole mode it is enough that every action agrees where it stands (`ModeWhole.ModeAsDocumented`), and not
  needed, since a later action may undo what differs (`ModeWhole.Undone`).  `ModeWhole.TrialsSuffice` gives the
  exact condition: 256 combinations of a creation mask and a file decide about all of them.
- `match` takes a rune 0 for the end of the text and `pmatch` does not: `RegexMatch.MatchersAgree` says exactly when
  they agree, and `RegexMatch.BehindZero` names a text where they do not.
- `compat_b64_pton` checks the slop bits only when it has a target (`Base64.SlopAccepted`).
- `get_line_node_addr` reports an unknown node as line 0 when the buffer is empty.
- `mpool_new` with a page number that is already cached leaves two buffers for it (`Mpool.NewTwice`); the contract of
  `Mpool.Pool.New` says, of the state before the call, exactly when the cache stays consistent.
- `O_TMPFILE` contains the bit of `O_DIRECTORY`, so the open check also refuses to open a directory for reading
  when the caller asks for a directory (`Bpf.DirectoryRefused`); `Bpf.RefusedReading` says exactly which opens for
  reading are refused without asking to write.
- `zread` of a file with nothing behind its header returns 0, but its next call, like one after a failure, takes
  bytes from a stack that holds none; and a first code above 255 is taken for a code with a text.
  `ZReader.Reader.Read` says exactly when a call goes astray.
- `install_arg1_limits` refuses programs whose jumps would not fit, and has no such test for its array of 96 command
  indexes: its contract says exactly when that is overrun, and `Capsicum.SevenDescriptors` names such a registry.
- A character class that is empty matches the empty string, as `first` has it.

Conventions: pointers are indices or object references, a file is a sequence of bytes, allocation succeeds,
integers are unbounded except where a width matters and is written out, and a comparator is any total
preorder.  C remainders and quotients of negative numbers are written out in `IsoWeek`.

## Model

| member | source | states |
|---|---|---|
| LzwCodes.ExpandLength | src.freebsd/compress/zopen.c:540-552 | the text of a code is at most one byte longer than the dictionary, so unwinding a code never overflows the stack and always ends |
| LzwCodes.KnownCode | src.freebsd/compress/zopen.c:314-325 | the pending code is always one both ends can name, below the limit and never CLEAR |
| LzwCodes.EmitDecodes | src.freebsd/compress/zopen.c:528-552 | whichever of its two branches the reader takes, the emitted code yields the text the writer had pending |
| LzwCodes.EmitKeepsLockstep | src.freebsd/compress/zopen.c:314-325 | emitting a code and learning an entry keeps writer and reader dictionaries equal but for at most the newest entry |
| LzwCodes.ExtendKeepsLockstep | src.freebsd/compress/zopen.c:297-299 | following an existing entry keeps the lockstep and lengthens the pending text by exactly the byte read |
| LzwCodes.ClearKeepsLockstep | src.freebsd/compress/zopen.c:520-527 | a CLEAR puts both ends back to the empty dictionary and yields no bytes |
| LzwPacking.PutGet | src.freebsd/compress/zopen.c:385-405 | a code inserted at any bit offset is read back unchanged by the masking and shifting of the reader, for every width 9 to 16 |
| LzwPacking.PutKeeps | src.freebsd/compress/zopen.c:385-405 | inserting a code leaves every earlier code of the block readable |
| LzwPacking.LayOrder | src.freebsd/compress/zopen.c:406-443 | no two codes of a stream overlap: a later code is in a later block or further on in the same one |
| LzwPacking.OutputFollowsLay | src.freebsd/compress/zopen.c:406-443 | the offset, width, maxcode and file length kept by output are those determined by the list of codes alone, with nothing in the stream marking a width change |
| LzwPacking.OutputPacked | src.freebsd/compress/zopen.c:375-443 | after each output every code so far is in its place in what is written and buffered |
| LzwPacking.CloseHolds | src.freebsd/compress/zopen.c:444-453 | after the final flush the file holds every code and ends with the byte of the last one |
| LzwStream.CodeFits | src.freebsd/compress/zopen.c:421-443 | every code of the dictionary, and CLEAR, is below two to the width in force |
| LzwStream.FeedTracks | src.freebsd/compress/zopen.c:291-326 | one byte of input keeps the invariant that the codes written so far are packed as laid out and decode to the input but for the pending code |
| LzwStream.ClBlockTracks | src.freebsd/compress/zopen.c:641-667 | the invariant survives cl_block: the list of codes is as it was when the ratio has grown, said as an inequality without a division, and otherwise has grown by exactly CLEAR |
| LzwStream.StateTracks | src.freebsd/compress/zopen.c:291-326 | the invariant holds after every non-empty input and every maxbits 9 to 16 |
| LzwStream.ReadsCode | src.freebsd/compress/zopen.c:583-639 | the next code getcode returns is the next code of the list, and the reader is again exactly one code behind the layout |
| LzwStream.ReadsEnd | src.freebsd/compress/zopen.c:607-612 | after the last code getcode reports the end of the file and not a phantom code out of the padding |
| LzwStream.FreeInStep | src.freebsd/compress/zopen.c:562-566 | before each code the next free code of the reader is the one the writer had at its width check |
| LzwStream.DecodesRest | src.freebsd/compress/zopen.c:518-570 | from any point on the reader delivers just what a decoder of the remaining list of codes would |
| LzwStream.FileOf | src.freebsd/compress/zopen.c:331-349 | what zclose leaves is the header and a list of codes, all below the limit, that decodes to the whole input |
| LzwStream.DecodesBack | src.freebsd/compress/zopen.c:464-573 | reading what was written of a non-empty input gives the input and then the end of the file |
| LzwStream.RoundTrip | src.freebsd/compress/zopen.c:497-500 | the round trip holds if and only if the input is not empty and maxbits is at least 12 |
| LzwStream.RateMeans | src.freebsd/compress/zopen.c:648-656 | the ratio and its comparison with the last one without a division, on either side of the overflow guard |
| LzwLaws.CodeBits | src.freebsd/compress/zopen.c:385-405 | bit j of a code at bit offset n of a block is bit n+j of the block, bits counted from the lowest of the first byte |
| LzwLaws.Widths | src.freebsd/compress/zopen.c:421-443 | the width of the code after any list of codes: nine bits at the start and after CLEAR, else the least that will do for the next free code, which is 257 and the number of codes since the last CLEAR, up to the limit |
| LzwLaws.Follows | src.freebsd/compress/zopen.c:406-443 | a code begins at the bit where the last one ends; only after CLEAR and at a change of width the block of eight is filled up |
| LzwLaws.TextsDiffer | src.freebsd/compress/zopen.c:314-325 | different codes of a dictionary without duplicates stand for different texts |
| LzwLaws.Greedy | src.freebsd/compress/zopen.c:291-326 | the writer is greedy: it puts nothing out while some code stands for the pending text with the next byte, and else the pending code, after which the two together get the next code while there is room |
| LzwLaws.Checks | src.freebsd/compress/zopen.c:314-326 | with all codes taken the dictionary stays until a check is due, and what the check decides is said as an inequality |
| LzwLaws.SmallFiles | src.freebsd/compress/zopen.c:263-290 | the files of one byte and of a byte three times, byte for byte |
| LzwLaws.NoMarks | src.freebsd/compress/zopen.c:494-527 | in a file without the block mark code 256 is a dictionary entry, and the dictionary is never dropped |
| LzwLaws.MarkMatters | src.freebsd/compress/zopen.c:494-527 | two files that differ in the mark alone: one ends after the byte, the other has it three times |
| LzwHash.HsizePrime | src.freebsd/compress/zopen.c:302-306 | the table size 69001 is prime |
| LzwHash.FcodeInjective | src.freebsd/compress/zopen.c:292-295 | different pairs of prefix and byte have different fcodes |
| LzwHash.ProbeSequence | src.freebsd/compress/zopen.c:295-306 | the probes step back by the secondary hash, wrapping round |
| LzwHash.ProbeReaches | src.freebsd/compress/zopen.c:302-313 | every probe sequence comes by every slot |
| LzwHash.EmptySlot | src.freebsd/compress/zopen.c:312-313 | while there are fewer entries than slots one slot is empty, so probing ends |
| LzwHash.FoundIs | src.freebsd/compress/zopen.c:297-311 | a slot whose fcode matches holds the code of that very pair |
| LzwHash.AbsentFromProbes | src.freebsd/compress/zopen.c:300-313 | a probe sequence that meets an empty slot first shows the pair is not in the dictionary |
| LzwHash.InsertHolds | src.freebsd/compress/zopen.c:318-320 | entering a new pair in that slot keeps every pair findable |
| LzwHash.ClearedHolds | src.freebsd/compress/zopen.c:669-699 | with every slot cleared the table represents the empty dictionary |
| ZWriter.Writer.constructor | src.freebsd/compress/zopen.c:702-786 | a fresh writer has written nothing |
| ZWriter.Writer.Insert | src.freebsd/compress/zopen.c:385-405 | the bit insertion into the buffer is the specified packing |
| ZWriter.Writer.Output | src.freebsd/compress/zopen.c:375-443 | the whole packer state after output, with clear_flg cleared |
| ZWriter.Writer.ClHash | src.freebsd/compress/zopen.c:669-699 | sixteen at a time and then the rest: every slot is -1 |
| ZWriter.Writer.Rat | src.freebsd/compress/zopen.c:648-655 | the ratio with its ways round overflow and division by zero |
| ZWriter.Writer.ClBlock | src.freebsd/compress/zopen.c:641-667 | the next check is due 10000 bytes on; when the ratio of input to output has grown, said as an inequality, dictionary and file are untouched and the new ratio is the quotient in 256ths; otherwise the dictionary is empty, the ratio 0 and CLEAR is put out |
| ZWriter.Writer.Probe | src.freebsd/compress/zopen.c:292-313 | a hit returns the slot of the pair; a miss returns the empty slot its probes end at and shows the pair is absent |
| ZWriter.Writer.Learn | src.freebsd/compress/zopen.c:318-320 | the hash table afterwards represents the dictionary with the entry appended |
| ZWriter.Writer.NoMatch | src.freebsd/compress/zopen.c:314-325 | the new abstract state: emitted, and learned, cleared or kept, by the room left and the checkpoint |
| ZWriter.Writer.Byte | src.freebsd/compress/zopen.c:291-326 | one byte of the loop refines one step of the pure encoder |
| ZWriter.Writer.Write | src.freebsd/compress/zopen.c:243-328 | any number of bytes in any calls: the state represents everything written so far |
| ZWriter.Writer.Close | src.freebsd/compress/zopen.c:331-352 | the file is a function of the bytes written and maxbits alone, and is empty when nothing was written |
| ZReader.Reader.GetCode | src.freebsd/compress/zopen.c:583-639 | result and new registers are those of the pure getcode |
| ZReader.Reader.NewWidth | src.freebsd/compress/zopen.c:596-606 | the width and maxcode for the next block |
| ZReader.Reader.Fread | src.freebsd/compress/zopen.c:607-612 | one block read over the front of the buffer, the rest left as it was |
| ZReader.Reader.Extract | src.freebsd/compress/zopen.c:614-638 | the masking and shifting of one code out of the buffer |
| ZReader.Reader.Unwind | src.freebsd/compress/zopen.c:547-552 | the stack, popped, gives the text of the code; finchar is its first byte; the stack bound is kept |
| ZReader.Reader.Learn | src.freebsd/compress/zopen.c:561-569 | the reader table grows by the entry the specification gives |
| ZReader.Reader.Decode | src.freebsd/compress/zopen.c:528-552 | accepts exactly the codes the specification accepts and leaves their text on the stack |
| ZReader.Reader.Clear | src.freebsd/compress/zopen.c:520-527 | the tables as the specification has them after CLEAR |
| ZReader.Reader.Open | src.freebsd/compress/zopen.c:486-516 | refused exactly for a bad header, astray exactly for a first code that is no byte; otherwise the first code and what is then to come make up the decompression of the file, which is empty exactly when there is no code |
| ZReader.Reader.Drain | src.freebsd/compress/zopen.c:555-559 | moves out as much of the stack as there is room for, losing and duplicating nothing |
| ZReader.Reader.Read | src.freebsd/compress/zopen.c:464-573 | on any file each call delivers the next bytes of the decompression, as many as asked or left, and fails exactly where it ends in a bad code or header; a call goes astray exactly for a first code that is no byte, after a failure, and after a file with nothing behind its header |
| ZRoundTrip.WrittenIsReadable | src.freebsd/compress/zopen.c:331-349 | what a writer leaves begins with a literal code |
| ZRoundTrip.WriteAll | src.freebsd/compress/zopen.c:243-352 | the file does not depend on how the input is cut into calls |
| ZRoundTrip.ReadAll | src.freebsd/compress/zopen.c:464-573 | the bytes delivered do not depend on how the reads are cut |
| ZRoundTrip.WriteAndRead | src.freebsd/compress/zopen.c:243-573 | for every non-empty input, every maxbits 12 to 16, every cut into writes and every cut into reads, the reads return the input |
| RegexTree.NullableMatches | src.freebsd/awk/b.c:536-579 | the answer of first is 0 exactly for trees that match the empty string |
| RegexLaws.MemberMeans | src.freebsd/awk/b.c:612-620 | a rune is a member of a class exactly when it stands on the list with no zero up to it |
| RegexLaws.LeafWords | src.freebsd/awk/b.c:1534-1539 | the words each kind of leaf matches, spelled out |
| RegexLaws.ClassOrComplement | src.freebsd/awk/b.c:1538-1539 | every rune but the two for the ends is in a class or in its complement and never in both |
| RegexLaws.CatWords | src.freebsd/awk/b.c:536-579 | a concatenation matches exactly the words put together from a word of each side |
| RegexLaws.OrWords | src.freebsd/awk/b.c:536-579 | a choice matches what either side does, in whatever order; an option is a choice with the empty expression |
| RegexLaws.StarWords | src.freebsd/awk/b.c:536-579 | a star matches exactly what falls into pieces that match, any number of them |
| RegexLaws.PlusWords | src.freebsd/awk/b.c:536-579 | a plus the same with one piece at least |
| RegexTree.FirstTheorem | src.freebsd/awk/b.c:536-579 | a subtree in its surroundings reads a word exactly when the word starts at one of the leaves first collects |
| RegexAutomaton.FollowTheorem | src.freebsd/awk/b.c:581-610 | what may come after a subtree reads a word exactly when the leaves follow collects accept it |
| RegexAutomaton.StepAccepts | src.freebsd/awk/b.c:1530-1552 | one step of the position automaton takes the first rune off the words a set accepts |
| RegexAutomaton.RunAccepts | src.freebsd/awk/b.c:1517-1593 | FINAL is reached exactly on the words the set accepts |
| RegexAutomaton.BodyAccepts | src.freebsd/awk/b.c:260-287 | the start set without leaf 0 accepts exactly the language of the tree |
| RegexAutomaton.InitialAccepts | src.freebsd/awk/b.c:234-237 | with leaf 0 it accepts every word with a match at its end, whatever but an end of text before it |
| RegexAutomaton.InitialSet | src.freebsd/awk/b.c:264-273 | the first row of the follow table is leaf 0 and the start leaves of the tree |
| RegexAutomaton.HatStep | src.freebsd/awk/b.c:275-284 | reading HAT from the start set keeps leaf 0 and adds what follows a leading anchor |
| RegexAutomaton.HatBodyAccepts | src.freebsd/awk/b.c:275-284 | at the beginning of the text an anchored match reads the word or the word after a HAT |
| RegexBuild.Penter | src.freebsd/awk/b.c:289-314 | leaves are numbered left to right from the counter, and the counter advances by their number |
| RegexBuild.RenumberMatches | src.freebsd/awk/b.c:289-314 | numbering leaves the language alone |
| RegexBuild.Walker.First | src.freebsd/awk/b.c:536-579 | marks exactly the start leaves, counts the marks exactly, and returns nullability |
| RegexBuild.Walker.Follow | src.freebsd/awk/b.c:581-610 | marks exactly the follow set of the subtree |
| RegexBuild.Walker.Listed | src.freebsd/awk/b.c:517-519 | the marked leaves in descending order |
| RegexBuild.Walker.Cfoll | src.freebsd/awk/b.c:497-534 | every leaf of the subtree gets its kind and follow list; every other row is untouched |
| RegexBuild.Build | src.freebsd/awk/b.c:233-245 | the table built for a parse tree is the follow table of the tree with ALL* before and FINAL after it |
| RegexDfa.BSearch | src.freebsd/awk/b.c:644-646 | finds the entry or shows there is none |
| RegexDfa.GetGototab | src.freebsd/awk/b.c:637-652 | the state remembered for a rune, 0 if none |
| RegexDfa.SetGototab | src.freebsd/awk/b.c:664-711 | the table stays sorted and answers the new state for the rune and the old one for every other |
| RegexDfa.InsertLookup | src.freebsd/awk/b.c:700-708 | appending and sorting changes the answer for the new rune alone |
| RegexDfa.InsertKeeps | src.freebsd/awk/b.c:700-708 | sorting the grown table loses and duplicates no entry |
| RegexDfa.IsMember | src.freebsd/awk/b.c:612-620 | is the rune on the zero-terminated list |
| RegexDfa.Takes | src.freebsd/awk/b.c:1534-1539 | the six-way test of cgoto is whether the leaf reads the rune, and what that is for each kind: the rune itself, any but the ends, any but the last, one on the list before its first zero, or none of those |
| RegexDfa.Positions | src.freebsd/awk/b.c:1526-1552 | the vector marks exactly the leaves one automaton step reaches |
| RegexDfa.OneStatePerSet | src.freebsd/awk/b.c:1561-1574 | no two states stand for the same set of leaves |
| RegexDfa.Remember | src.freebsd/awk/b.c:1570-1571 | a correct transition added to the memo keeps the whole machine correct |
| RegexDfa.Fa.constructor | src.freebsd/awk/b.c:224-258 | mkdfa yields a valid machine whose start state is the set the anchoring asks for |
| RegexDfa.Fa.Cgoto | src.freebsd/awk/b.c:1517-1593 | returns the state for exactly the set the step reaches, adds at most one state, never changes an old one, and remembers the transition in the table unless the rune is HAT |
| RegexDfa.Fa.Memoise | src.freebsd/awk/b.c:1570-1571 | the transition is remembered and no other state is affected |
| RegexDfa.Fa.AddState | src.freebsd/awk/b.c:1576-1592 | the new state has the set, the final flag and an empty memo |
| RegexDfa.Fa.HatState | src.freebsd/awk/b.c:275 | the state after HAT, with nothing memoised for it |
| RegexDfa.Fa.MakeInit | src.freebsd/awk/b.c:260-287 | the machine is ready, and its start state is the set the language theorems speak of, anchored or not |
| Utf8Text.U8Rune | src.freebsd/awk/run.c:630-660 | the length is 1 to 4 and never passes the end of the text, and a byte below 128 is itself |
| Utf8Text.SpellingReads | src.freebsd/awk/run.c:630-660 | the UTF-8 spelling of a rune, of whatever length, is read as that rune, whatever stands around it |
| Utf8Text.RuneZero | src.freebsd/awk/run.c:630-660 | the rune 0 is read exactly at the end of the text and at an overlong spelling of zero |
| Utf8Text.OwnRune | src.freebsd/awk/run.c:603-660 | a byte that begins no sequence, or a sequence that is broken off, and any byte in a single-byte locale, is its own rune; else the length is the one its first byte tells |
| Utf8Text.SomeRunes | src.freebsd/awk/run.c:630-660 | U+00E9, U+20AC and U+1F600 from their bytes |
| Utf8Text.U8Nextlen | src.freebsd/awk/run.c:663-671 | steps as far as decoding a rune does |
| Utf8Text.BoundarySplit | src.freebsd/awk/run.c:630-671 | between two rune boundaries the runes of the two pieces are the runes of the whole |
| RegexMatch.Goto | src.freebsd/awk/b.c:770-773 | through the memo or by computing it, the next state is the set the step reaches |
| RegexMatch.Remembered | src.freebsd/awk/b.c:770-771 | a memoised state is the set a fresh computation would give |
| RegexMatch.Scan | src.freebsd/awk/b.c:764-795 | the longest match at this start in terms of the automaton, or -1 |
| RegexMatch.ScanMeans | src.freebsd/awk/b.c:764-795 | that is the longest match of the expression there, or there is none |
| RegexMatch.Pmatch | src.freebsd/awk/b.c:750-804 | 1 exactly when some substring at a rune boundary matches, and then the leftmost start and the longest end there, empty matches included, with the leading anchor only at the first position |
| RegexMatch.ForTheTree | src.freebsd/awk/b.c:750-804 | the answers are those of the tree as it was parsed |
| RegexMatch.Match | src.freebsd/awk/b.c:720-748 | true exactly when the unanchored automaton is final after some prefix of the text with its end |
| RegexMatch.MatchMeans | src.freebsd/awk/b.c:720-748 | which is to say that some stretch of HAT, text and end is in the language, no end before it |
| RegexMatch.MatchFinds | src.freebsd/awk/b.c:720-748 | on every text the answer is yes exactly when some match of the leftmost-longest search starts no later than the first rune 0 |
| RegexMatch.MatchersAgree | src.freebsd/awk/b.c:720-804 | on every text the two matchers agree exactly when there is no match or one starts no later than the first rune 0; so they agree on texts without an embedded one |
| RegexMatch.BehindZero | src.freebsd/awk/b.c:720-804 | a text where they differ: a letter behind an overlong zero, which the search finds and the plain matcher does not |
| RegexAnchors.WithoutMatches | src.freebsd/awk/b.c:1534-1539 | on words without a rune, an expression and the one that cannot read it match the same |
| RegexAnchors.AnchorsConfined | src.freebsd/awk/b.c:1534-1539 | no expression matches a text by way of a given rune (it matches just as the expression that cannot read the rune) if and only if the rune is not in the text |
| RegexAnchors.AnchorsInsideText | src.freebsd/awk/b.c:750-804 | two texts in the middle of which `^` and `$` do match: one with U+04ED, one with an overlong zero |
| RegexAnchors.HatMeans | src.freebsd/awk/b.c:750-804 | on words that do not spell the rune, an expression behind ^ matches exactly at the beginning of the text |
| RegexAnchors.DollarMeans | src.freebsd/awk/b.c:750-804 | and one before $ exactly up to its end |
| Substitute.Backsub | src.freebsd/awk/run.c:2801-2836 | the bytes put out and the place where reading goes on, for each of the cases the following bytes and POSIXLY_CORRECT distinguish; which is what the expansion of the replacement says |
| Substitute.Replacement | src.freebsd/awk/run.c:2600-2614 | the text put out is the replacement with its escapes taken off and each bare ampersand replaced by the match |
| Substitute.FindIs | src.freebsd/awk/b.c:750-804 | the leftmost longest match is unique |
| Substitute.Emit | src.freebsd/awk/run.c:2588-2626 | leading text, replacement and kept text in order, by the three match types |
| Substitute.Round | src.freebsd/awk/run.c:2565-2637 | each round makes progress or is the last, and what it puts out with the rest to come is the whole result |
| Substitute.Dosub | src.freebsd/awk/run.c:2564-2658 | sub and gsub end for every automaton and text; the result is the text with exactly the counted matches replaced and every other byte kept; the start state is restored |
| Substitute.AmpersandIdentity | src.freebsd/awk/run.c:2600-2626 | replacing every match by itself leaves the text unchanged, empty matches and all |
| Substitute.NothingToReplace | src.freebsd/awk/run.c:2565-2587 | the count is 0 exactly when nothing matches, and then the text is unchanged |
| Substitute.ExpandAmpersand | src.freebsd/awk/run.c:2605-2610 | a replacement that is one ampersand stands for the match |
| SubstituteLaws.Backslashes | src.freebsd/awk/run.c:2801-2836 | one, two and three backslashes before an ampersand, and two before anything else, in front of any further replacement text |
| SubstituteLaws.QuotedStands | src.freebsd/awk/run.c:2600-2614 | a text without backslashes, with a backslash put before every ampersand, is put out as it is for every match |
| SubstituteLaws.PlainFirst | src.freebsd/awk/run.c:2600-2614 | text without backslash and ampersand is put out as it is, and the rest after it |
| SubstituteLaws.LetterReplaced | src.freebsd/awk/run.c:2564-2658 | gsub of a letter replaces each one and counts them, sub the first one, byte by byte and without any notion of a match |
| SubstituteLaws.EmptyReplaced | src.freebsd/awk/run.c:2564-2658 | gsub of the empty expression puts the replacement before every byte and at the end |
| SubstituteLaws.StarsReplaced | src.freebsd/awk/run.c:2564-2658 | gsub of a starred letter replaces each whole run, and the empty text before each other byte and at the end, but not right behind a run |
| Ordering.MergeClass | src.freebsd/compat/merge.c:152-229 | equal elements of the left run come before those of the right, each in their order |
| Ordering.MergeStable | src.freebsd/compat/merge.c:152-229 | merging two sorted runs gives a sorted and stable rearrangement of both |
| Ordering.GallopLeft | src.freebsd/compat/merge.c:209-216 | a stretch of the left run that goes first, found by any search, may be copied whole |
| Ordering.GallopRight | src.freebsd/compat/merge.c:201-208 | the same for a stretch of the right run, which must be strictly smaller |
| Ordering.ReverseDescending | src.freebsd/compat/merge.c:253-262 | reversing a strictly falling run sorts it and is stable |
| Ordering.StableUnique | src.freebsd/compat/merge.c:114-243 | sorted and stable leaves no choice: there is one such rearrangement |
| MergeSetup.InsertionSort | src.freebsd/compat/merge.c:341-354 | the stretch is sorted stably and nothing outside it changes |
| MergeSetup.ReverseCells | src.freebsd/compat/merge.c:253-262 | the stretch is its reversal and nothing outside it changes |
| MergeSetup.MakeRun | src.freebsd/compat/merge.c:305-316 | a run of either sense becomes an ascending one, stably |
| MergeSetup.PairRuns | src.freebsd/compat/merge.c:303-308 | pair by pair: sorted runs of two and their links |
| MergeSetup.NaturalRuns | src.freebsd/compat/merge.c:309-326 | the natural runs, turned round where they fall, and their links; the last one joined to the sorted tail when it fits |
| MergeSetup.LastRun | src.freebsd/compat/merge.c:319-325 | the last natural run ends with its stretch or takes the tail in |
| MergeSetup.PairsEnd | src.freebsd/compat/merge.c:296-302 | where the pairs of one sense end |
| MergeSetup.Stretch | src.freebsd/compat/merge.c:295-327 | one stretch of equal sense becomes runs, by either branch |
| MergeSetup.SetupSmall | src.freebsd/compat/merge.c:277-281 | up to five elements are one sorted run |
| MergeSetup.Setup | src.freebsd/compat/merge.c:270-335 | the elements are a stable rearrangement in sorted runs whose ends the second array links |
| MergeSort.Binary | src.freebsd/compat/merge.c:184-190 | the binary search ends at the split point |
| MergeSort.Halving | src.freebsd/compat/merge.c:192-198 | so does the halving of a power-of-two distance |
| MergeSort.Gallop | src.freebsd/compat/merge.c:169-198 | doubling and then either search finds the split point |
| MergeSort.Search | src.freebsd/compat/merge.c:162-199 | linear, exponential or both: the split point a linear scan would find |
| MergeSort.FromLeft | src.freebsd/compat/merge.c:153-156 | a stretch of the left run and one right element move, and what is out followed by the merge of what remains is unchanged |
| MergeSort.FromRight | src.freebsd/compat/merge.c:157-161 | the same for a stretch of the right run |
| MergeSort.MergePair | src.freebsd/compat/merge.c:152-229 | two runs are merged into the other array and nothing outside them changes |
| MergeSort.PassStep | src.freebsd/compat/merge.c:145-231 | one merged pair keeps the state of a pass: merged part, untouched part and both chains of links |
| MergeSort.MergePass | src.freebsd/compat/merge.c:143-236 | a pass leaves fewer runs and the same stable rearrangement, the arrays exchanging roles |
| MergeSort.Mergesort | src.freebsd/compat/merge.c:114-243 | for any total preorder and any length the array is sorted and a stable permutation; too small an element is refused and changes nothing |
| HeapSort.SwapDown | src.freebsd/compat/heapsort.c:82-95 | exchanging a record with its larger child moves the one flaw of the heap down |
| HeapSort.Create | src.freebsd/compat/heapsort.c:82-95 | the heap property extends to the record, and no element is lost |
| HeapSort.CopyUp | src.freebsd/compat/heapsort.c:115-123 | copying the larger child over its parent keeps a heap |
| HeapSort.CopyDown | src.freebsd/compat/heapsort.c:124-134 | copying a parent over its child keeps a heap |
| HeapSort.Climb | src.freebsd/compat/heapsort.c:124-134 | while the displaced element climbs, it is not below what lies under its place |
| HeapSort.Placed | src.freebsd/compat/heapsort.c:129-132 | put where it no longer climbs, it completes the heap |
| HeapSort.Select | src.freebsd/compat/heapsort.c:114-135 | hole to a leaf and back: again a heap, of the same elements with the top replaced |
| HeapSort.TopIsLargest | src.freebsd/compat/heapsort.c:75-80 | no element of a heap is above its top |
| HeapSort.TakeLargest | src.freebsd/compat/heapsort.c:188-193 | the sorted tail grows by the largest of the heap |
| HeapSort.Heapsort | src.freebsd/compat/heapsort.c:155-196 | sorted and a permutation; size 0 is refused, unless there is nothing to sort, and changes nothing |
| OhashTable.AtReaches | src.freebsd/compat/ohash.c:233-261 | an odd stride over a power-of-two size comes by every slot |
| OhashTable.AtNext | src.freebsd/compat/ohash.c:258-260 | the step with its conditional subtraction |
| OhashTable.EmptyRecord | src.freebsd/compat/ohash.c:235-261 | while fewer records are full than there are, one is empty |
| OhashTable.PlaceEntry | src.freebsd/compat/ohash.c:145-161 | an entry put on a vacant record of its walk adds just its key to the map |
| OhashTable.BuryEntry | src.freebsd/compat/ohash.c:118-134 | a tombstone removes just that key and hides no other |
| OhashTable.MoveEntry | src.freebsd/compat/ohash.c:246-250 | moving an entry to an earlier tombstone leaves the map alone |
| OhashTable.AbsentKey | src.freebsd/compat/ohash.c:235-267 | a walk that meets an empty record first shows the key is absent |
| OhashTable.EntryCount | src.freebsd/compat/ohash.c:163-167 | as many live records as keys |
| Ohash.Table.constructor | src.freebsd/compat/ohash.c:185-204 | the empty map, at least MINSIZE records |
| Ohash.Table.LookupInterval | src.freebsd/compat/ohash.c:222-268 | the record holds the entry of the key, or is vacant for it; the map is unchanged even when an entry moves |
| Ohash.Table.MoveUp | src.freebsd/compat/ohash.c:246-250 | the relocation keeps every invariant |
| Ohash.Table.Find | src.freebsd/compat/ohash.c:136-143 | an entry of the map or nothing, never a tombstone, and an entry exactly when the record holds one |
| Ohash.Table.Entries | src.freebsd/compat/ohash.c:163-167 | the size of the map |
| Ohash.Table.Insert | src.freebsd/compat/ohash.c:145-161 | the map gains the entry; a tombstone is taken up, or the count goes up and past three quarters the table is made anew |
| Ohash.Table.Remove | src.freebsd/compat/ohash.c:118-134 | the map loses the key of the entry returned, a tombstone stays, and from four tombstones and a quarter on the table is made anew; nothing happens on a record without an entry |
| Ohash.Table.Resize | src.freebsd/compat/ohash.c:70-116 | growing, shrinking or the same size as the share of tombstones says: the same map, no tombstones, exact counts |
| Ohash.Table.Rehash | src.freebsd/compat/ohash.c:98-110 | one more entry carried to the first empty record of its walk |
| Ohash.NewSize | src.freebsd/compat/ohash.c:78-88 | twice the size with less than a quarter of tombstones, half with more than two thirds, else the same; always a power of two from 16 on that leaves a quarter of the records empty |
| Mpool.FilePage | src.freebsd/dbcompat/mpool.c:216-230 | a page of the file is a page long; past the end it is zeros |
| Mpool.WriteAt | src.freebsd/dbcompat/mpool.c:405-407 | writing a page changes that page and no other, even past the end |
| Mpool.Pool.constructor | src.freebsd/dbcompat/mpool.c:57-90 | an empty cache over the file: its pages counted, no buffer in core, the limit and the filters as given |
| Mpool.Pool.Look | src.freebsd/dbcompat/mpool.c:426-445 | the buffer of the page, or none is cached |
| Mpool.Pool.Write | src.freebsd/dbcompat/mpool.c:392-420 | the file gets the page, the copy in core comes through both filters unchanged, and the store does not change |
| Mpool.Pool.Detach | src.freebsd/dbcompat/mpool.c:362-365 | off the hash chain and the queue; only that page falls back to the file |
| Mpool.Pool.Attach | src.freebsd/dbcompat/mpool.c:253-255 | once on each queue; valid exactly when no other buffer has the number |
| Mpool.Pool.Evict | src.freebsd/dbcompat/mpool.c:353-375 | a buffer leaves the cache and no page of the store changes |
| Mpool.Pool.TakeBkt | src.freebsd/dbcompat/mpool.c:337-386 | the oldest buffer that is not pinned, or a fresh one when under the limit or all are pinned |
| Mpool.Pool.Pread | src.freebsd/dbcompat/mpool.c:216-238 | a whole page, none, or an error exactly on the partial last one |
| Mpool.Pool.Get | src.freebsd/dbcompat/mpool.c:174-262 | the page as the store shows it, pinned and most recent, every other page unchanged; refused exactly when, before the call, the page is neither cached nor wholly in the file and the buffer about to be taken over is no dirty one at or past it; all other buffers stay in their order of use |
| Mpool.Pool.Touch | src.freebsd/dbcompat/mpool.c:196-208 | a cached page becomes the most recent |
| Mpool.Pool.Fill | src.freebsd/dbcompat/mpool.c:211-261 | a page read in, through an eviction if need be; refused exactly when it was only partly in the file and no dirty buffer at or past it is evicted; the order of use of the others is kept |
| Mpool.Pool.New | src.freebsd/dbcompat/mpool.c:109-141 | a pinned buffer for the next or the wanted number, first in its chain and last in use; the cache stays consistent exactly when that number was not cached before, or the buffer taken over is the one that held it |
| Mpool.NewTwice | src.freebsd/dbcompat/mpool.c:109-141 | the call that breaks it: the same page number asked for twice in a fresh cache with room leaves two buffers for it |
| Mpool.Pool.Put | src.freebsd/dbcompat/mpool.c:269-291 | unpinned, and dirty if it was or is said to be; a page that was changed has to be put back dirty |
| Mpool.Pool.Delete | src.freebsd/dbcompat/mpool.c:143-167 | the buffer is gone and its page is what the file says |
| Mpool.Pool.Sync | src.freebsd/dbcompat/mpool.c:318-331 | no buffer is dirty, the store is unchanged, and the file equals it when every changed page was dirty |
| SetMode.CopyBits | src.freebsd/compat/setmode.c:95-123 | the copying of user, group and other bits |
| SetMode.GetMode | src.freebsd/compat/setmode.c:79-145 | the loop computes what the list means |
| SetMode.GatherRuns | src.freebsd/compat/setmode.c:445-458 | the three gathered sets do what the stretch of commands did, on every mode |
| SetMode.CompactMeans | src.freebsd/compat/setmode.c:431-478 | the compacted list makes of every mode what the original makes |
| SetMode.CompactAgain | src.freebsd/compat/setmode.c:431-478 | compacting again changes nothing |
| SetMode.CompactLength | src.freebsd/compat/setmode.c:431-478 | the compacted list is not longer |
| SetMode.GatherBits | src.freebsd/compat/setmode.c:445-458 | one stretch of the array gathered; at most as many kinds of bits as commands |
| SetMode.Rewrite | src.freebsd/compat/setmode.c:437-477 | the rewriting in place, the write cursor never ahead of the read cursor |
| SetMode.CompressMode | src.freebsd/compat/setmode.c:431-478 | the array begins with the compacted list and means the same for every mode |
| SetMode.Builder.AddCmd | src.freebsd/compat/setmode.c:367-408 | the commands added do what the operation, the classes and the mask say |
| SetMode.Builder.Add | src.freebsd/compat/setmode.c:147-159 | the same with room made first |
| SetMode.Builder.Grow | src.freebsd/compat/setmode.c:148-158 | more room, the commands kept |
| SetMode.Builder.Finish | src.freebsd/compat/setmode.c:321 | the terminator changes nothing of what the list does |
| SetMode.NewRuns | src.freebsd/compat/setmode.c:367-408 | what the added commands do, operation by operation |
| SetMode.SetAbsolute | src.freebsd/compat/setmode.c:209-212 | the list of an octal mode replaces all permission bits and keeps the others |
| SymbolicMode.TextParses | src.freebsd/coreutils/chmod/chmod.1:172-180 | every text of the grammar of chmod(1) is accepted and read as the clauses it was made of |
| SymbolicMode.ParseIsText | src.freebsd/compat/setmode.c:219-320 | and nothing else is: an accepted text is the text of its clauses |
| SymbolicMode.Who | src.freebsd/compat/setmode.c:221-239 | the classes named |
| SymbolicMode.Perms | src.freebsd/compat/setmode.c:248-313 | the commands for one action, letters that copy flushing what is pending |
| SymbolicMode.ReadActions | src.freebsd/compat/setmode.c:241-319 | the actions of a clause: accepted as the grammar says, and the list does them in order |
| SymbolicMode.ReadClauses | src.freebsd/compat/setmode.c:219-320 | the clauses of a mode: accepted as the grammar says, and the list does them in order |
| SymbolicMode.Octal | src.freebsd/compat/setmode.c:196-209 | octal digits and nothing else, no bits beyond the permissions; the value is the one to the base eight |
| SymbolicMode.Setmode | src.freebsd/compat/setmode.c:163-337 | a list exactly for an octal or symbolic mode, and the compacted list makes of every mode what the text means |
| SymbolicMode.OctalMeans | src.freebsd/compat/setmode.c:196-209 | an octal mode digit by digit: refused exactly for a digit above 7 or a digit other than 0 before the last four; bit j of the k-th digit from the right is bit 3k+j of the mode, and other bits of the file stay |
| ModeEffects.CopyIs | src.freebsd/compat/setmode.c:83-110 | a copy between classes in terms of sets of bits, for each operation and with or without a class named |
| ModeEffects.PlusForm | src.freebsd/compat/setmode.c:248-313 | + in any order of letters and copies sets all that they stand for, the copies read from the mode as it is before the action |
| ModeEffects.MinusForm | src.freebsd/compat/setmode.c:248-313 | - likewise clears it, but X sets |
| ModeEffects.EqualForm | src.freebsd/compat/setmode.c:248-313 | = in closed form: the letters after the last copy, then the chain of the copies behind them, then X |
| ModeEffects.StickyForm | src.freebsd/compat/setmode.c:259-264 | a t where nobody is named: apart from the sticky bit only the letters flushed by a copy before it count |
| ModeManual.AsDocumented | src.freebsd/coreutils/chmod/chmod.1:187-286 | an action does what the manual says, taken at its word, on every creation mask, file and mode (or, as the first action, on the own mode of every file) if and only if `Agrees`, for all letters and copies |
| ModeWhole.ModeAsDocumented | src.freebsd/coreutils/chmod/chmod.1:277-286 | a mode of actions that agree where they stand does what the manual says of them one after the other |
| ModeWhole.OneAction | src.freebsd/coreutils/chmod/chmod.1:187-286 | for a mode of one action that is exact |
| ModeWhole.Undone | src.freebsd/coreutils/chmod/chmod.1:187-286 | for more it is not needed: a-X,a=r holds an action that disagrees, and still does what the manual says on every file |
| ModeWhole.TrialsSuffice | src.freebsd/coreutils/chmod/chmod.1:187-286 | so for whole modes the exact condition is a finite one: the commands do what the manual says on all masks and files if and only if they do on eight masks and thirty-two files |
| ModeWhole.ClausesAlike | src.freebsd/compat/setmode.c:76-145 | read, write and execute permissions, and each other bit, never influence one another but through the file being executable |
| ModeWhole.MinusDiffers | src.freebsd/coreutils/chmod/chmod.1:242-256 | -w under the mask 022 takes from a file 0644 the permission of its owner, which the manual leaves |
| ModeWhole.CopyDiffers | src.freebsd/coreutils/chmod/chmod.1:213-218 | u+x,g=u makes 0770 of 0600, where the manual, copying from the original mode, makes 0760 |
| ModeWhole.EqualDiffers | src.freebsd/coreutils/chmod/chmod.1:257-276 | g=u keeps the set-group-ID bit, which the manual clears with the bits of its class |
| ModeWhole.ClassLetter | src.freebsd/compat/setmode.c:248-313 | one class and one of r, w and x, by number of the bit: + sets it, - clears it, = clears the class with its set-ID bit and sets it |
| ModeWhole.IdAndSticky | src.freebsd/compat/setmode.c:253-264 | s is bit 11 for u and 10 for g, t is bit 9, and neither counts for o alone |
| ModeWhole.NobodyLetter | src.freebsd/compat/setmode.c:248-313 | with nobody named the bits of all three classes that are clear in the creation mask |
| ModeWhole.Everybody | src.freebsd/compat/setmode.c:221-239 | a is u, g and o together |
| ModeWhole.InExecutable | src.freebsd/compat/setmode.c:131-134 | X counts on directories and on files somebody can execute |
| Bpf.Prog.Emit | src.compat/capsicum.c:238-245 | the instruction is appended |
| Bpf.GuardRuns | src.compat/capsicum.c:296-302 | a call of another architecture is killed, any other goes on with its number loaded |
| Bpf.EmitGuard | src.compat/capsicum.c:296-302 | the guard and the load of the number are appended |
| Bpf.EmitOpenflagsCheck | src.compat/capsicum.c:326-338 | the nine instructions are appended |
| Bpf.OpenBlockRuns | src.compat/capsicum.c:322-338 | of its own call the block allows exactly opens whose access mode is reading and whose flags have no bit in common with those for creating, truncating, appending and a temporary file; any other call goes on behind it |
| Bpf.RefusedReading | src.compat/capsicum.c:322-338 | a read-only open that asks for none of the four is refused exactly when it carries one of the two bits of O_TMPFILE, which are that of O_DIRECTORY and one of its own, and never both |
| Bpf.DirectoryRefused | src.compat/capsicum.c:322-338 | so an open of a directory for reading is refused |
| Bpf.EmitLookupCheck | src.compat/capsicum.c:343-354 | the block for the registered descriptors is appended |
| Bpf.LookupBlockRuns | src.compat/capsicum.c:340-354 | of its own call the block allows exactly those on a registered descriptor |
| Capsicum.EmitBlock | src.compat/capsicum.c:894-902 | the block of a descriptor, every command jump noted for patching |
| Capsicum.AddBlock | src.compat/capsicum.c:890-902 | the block before it falls through to the new one |
| Capsicum.Finish | src.compat/capsicum.c:904-913 | every jump patched: to the next block or to the shared allow, when that is within reach |
| Capsicum.FilterRuns | src.compat/capsicum.c:854-859 | the finished program gives the verdict on every call |
| Capsicum.DecideMeans | src.compat/capsicum.c:854-859 | which is EPERM exactly for a registered descriptor and an argument not on its list |
| Capsicum.LowInjective | src.compat/capsicum.c:896 | the 32 low bits tell descriptors apart |
| Capsicum.BlocksOnePerFd | src.compat/capsicum.c:880-903 | one block a descriptor |
| Capsicum.RegistryVerdict | src.compat/capsicum.c:854-922 | in terms of the registry: EPERM exactly when the number is the target and an entry with an allowlist refuses |
| Capsicum.InstallArg1Limits | src.compat/capsicum.c:860-922 | for any registry: no filter exactly when there is no list; the index array overrun exactly when the lists hold more than 96 commands; else refused exactly when the jumps do not fit; else loaded, and the program gives the verdict on every call |
| Capsicum.LimitFdArg1 | src.compat/capsicum.c:797-833 | the single-descriptor filter gives the same verdict |
| Capsicum.Intersect | src.compat/capsicum.c:156-164 | the entries kept in place, in order, are those on both lists |
| Capsicum.LimMerge | src.compat/capsicum.c:140-166 | the first list is adopted, cut at sixteen; later ones only narrow it |
| Capsicum.RegisteredMeans | src.compat/capsicum.c:140-166 | what is left of any registrations is their intersection |
| Capsicum.MergeRegisters | src.compat/capsicum.c:140-166 | one more merge is one more registration |
| Capsicum.Registry.LimFind | src.compat/capsicum.c:123-138 | the entry of the descriptor, made unrestricted if there is room, one a descriptor; -1 exactly when the registry is full without it |
| Capsicum.Registry.LimitIoctls | src.compat/capsicum.c:1041-1060 | registration narrows the ioctl list of that entry and nothing else, or fails exactly when the registry is full |
| Capsicum.Registry.LimitFcntls | src.compat/capsicum.c:1068-1092 | the same for the fcntl commands, two of which every list has |
| Capsicum.FcntlsAre | src.compat/capsicum.c:1076-1081 | F_GETFD and F_SETFD always, F_GETFL and F_SETFL exactly as asked, and no other |
| Capsicum.RefusesOutside | src.compat/capsicum.c:140-166 | some entry refuses exactly when the argument is outside the intersection of the lists registered for that descriptor |
| Capsicum.VerdictByHistory | src.compat/capsicum.c:854-922 | the verdict of the filter in terms of the history of registrations alone |
| Capsicum.Registry.Install | src.compat/capsicum.c:860-922 | after any history of registrations the installed filter, if it can be built, refuses exactly the target call on a registered descriptor with an argument outside the intersection of its lists |
| Capsicum.SevenDescriptors | src.compat/capsicum.c:860-922 | seven descriptors with sixteen commands each overrun the index array, though the jumps would be within reach: the test on the jumps does not stand in for one on the array |
| Unvis.Machine.Unvis | src.freebsd/compat/unvis.c:232-498 | one call is one step of the specified machine |
| Unvis.Machine.UnvisStart | src.freebsd/compat/unvis.c:255-331 | the character after a backslash |
| Unvis.Machine.UnvisHex | src.freebsd/compat/unvis.c:381-437 | hexadecimal and quoted-printable states |
| Unvis.Machine.UnvisEnd | src.freebsd/compat/unvis.c:218-230 | UNVIS_VALID and back to the ground state in the unfinished numeric states, UNVIS_NOCHAR in the ground state, UNVIS_SYNBAD with the state kept in all others |
| Unvis.PushedBackOnce | src.freebsd/compat/unvis.c:364-403 | a character pushed back is read in the ground state, so the driver never loops |
| Unvis.LetterEscape | src.freebsd/compat/unvis.c:255-331 | what a backslash and one more character decode to, letter by letter |
| Unvis.HexEscape | src.freebsd/compat/unvis.c:381-411 | a backslash, x and two hexadecimal digits in either case decode to their number |
| Unvis.PercentEscape | src.freebsd/compat/unvis.c:388-411 | a percent sign and two hexadecimal digits likewise |
| Unvis.EqualsEscape | src.freebsd/compat/unvis.c:412-437 | an equals sign and two hexadecimal digits likewise in capitals, and refused in small letters |
| Unvis.SoftBreak | src.freebsd/compat/unvis.c:412-437 | an equals sign at the end of a line joins it with the next |
| Unvis.Strnunvisx | src.freebsd/compat/unvis.c:508-555 | the buffer holds the decoding and its terminator, or there is no decoding or no room |
| Vis.MakeExtraList | src.freebsd/compat/vis.c:349-388 | exactly the extra characters the flags ask for |
| Vis.SpellsOctal | src.freebsd/compat/vis.c:265-269 | three octal digits decode to the byte whatever follows |
| Vis.SpellsNul | src.freebsd/compat/vis.c:235-241 | the short form of NUL decodes when no octal digit follows |
| Vis.SpellsControl | src.freebsd/compat/vis.c:279-284 | the caret form of a control character decodes to it |
| Vis.SpellsMeta | src.freebsd/compat/vis.c:274-288 | the meta form of a byte with its top bit set decodes to it |
| Vis.SpellsPair | src.freebsd/compat/vis.c:259-262 | a backslash and a letter decode to what the letter stands for |
| Vis.CStyle | src.freebsd/compat/vis.c:209-264 | whatever the C style puts out is graphic and decodes to the byte, and it is the form given for that byte |
| Vis.DoMbyte | src.freebsd/compat/vis.c:206-292 | one byte encoded in two to four graphic characters that decode to it whatever may follow: without the C style in octal for an extra, a blank or VIS_OCTAL, else in the caret or meta form |
| Vis.Forms | src.freebsd/compat/vis.c:206-292 | which form each byte gets with and without the C style, spelled out |
| Vis.DoSvis | src.freebsd/compat/vis.c:303-329 | one byte, put out as it is exactly when it is visible or kept white space or safe and no extra, else in graphic characters; either way it decodes to the byte |
| Vis.SpellsMore | src.freebsd/compat/vis.c:565-572 | the invariant of the loop: what is out decodes to what was read |
| Vis.Strsenvisx | src.freebsd/compat/vis.c:565-672 | for every byte string and all of the flags the encoding is that of the bytes one after the other, decodes to the string, holds nothing but visible characters, white space that is not to be encoded and, with VIS_SAFE, the safe control characters, has no NUL and is at most four times as long; it is refused exactly for lack of room |
| Vis.OneByte | src.freebsd/compat/vis.c:303-329 | a single byte: itself when it is visible, kept white space or safe and no extra, else its form |
| Vis.Extras | src.freebsd/compat/vis.c:349-388 | the extra characters flag by flag, by their characters |
| Vis.VisThenUnvis | src.freebsd/compat/vis.c:565-672 | encoding and then decoding gives back exactly the bytes |
| Base64.DecodeEncode | src.compat/b64.c:11-62 | decoding undoes encoding |
| Base64.EncodeDecode | src.compat/b64.c:65-180 | a text the strict decoder accepts is the encoding of what it returns |
| Base64.Canonical | src.compat/b64.c:161-168 | a text means `x` exactly when it is the canonical text of `x` |
| Base64.StrictIsCanonical | src.compat/b64.c:161-168 | the slop check shuts out exactly the non-canonical texts |
| Base64.SlopAccepted | src.compat/b64.c:167-168 | without a target, where there is no check, a non-canonical text is accepted |
| Base64.EncodeLength | src.compat/b64.c:11-62 | four digits for every three bytes begun |
| Base64.Ntop | src.compat/b64.c:11-62 | the encoding and a terminator, or -1 exactly when they do not fit |
| Base64.AddDigit | src.compat/b64.c:85-125 | one digit: the target bytes, the index and the state after it |
| Base64.Pads | src.compat/b64.c:133-169 | from the first pad on: accepted exactly when the group is complete and canonical |
| Base64.Pton | src.compat/b64.c:64-180 | accepted exactly when the text without white space decodes and the target has the room the code asks for; the target then begins with the bytes |
| Base64.RoundTrip | src.compat/b64.c:11-180 | pton of ntop is the identity |
| Base64Laws.DigitIs | src.compat/b64.c:6-8 | the digits are those of the alphabet written out |
| Base64Laws.ValueIs | src.compat/b64.c:85-97 | the value of a character is its place in the alphabet, and other characters have none |
| Base64Laws.EncodeBits | src.compat/b64.c:19-57 | a group of three bytes is the twenty-four bits of one number, six at a time from the top; one or two bytes the same with zeros, and = for what is missing |
| IsoWeek.LeapSum | src.freebsd/compat/strftime.c:43-44 | isleap_sum is isleap of the sum, with remainders as C takes them |
| IsoWeek.BotTop | src.freebsd/compat/strftime.c:346-360 | bot and top are the Mondays within three days of the two new years |
| IsoWeek.Classify | src.freebsd/compat/strftime.c:361-370 | on which side of them the day lies says in which year the Thursday of its week lies |
| IsoWeek.Turn | src.freebsd/compat/strftime.c:339-374 | one turn: this year, the next one, or try the one before |
| IsoWeek.WeekDate | src.freebsd/compat/strftime.c:334-375 | at most two turns; the year is the one of the Thursday of the week, and the week, 1 to 53, its number there |
| IsoWeek.Yconv | src.freebsd/compat/strftime.c:570-579 | hundreds and rest of a sum, neither of the sign of the other |
| EdBuffer.Reque | src.freebsd/ed/ed.h:156-157 | the two link fields, and no others |
| EdBuffer.Buffer.GetAddressedLineNode | src.freebsd/ed/buf.c:157-184 | by whichever walk, the n-th node, and the cursor is on it |
| EdBuffer.Buffer.Link | src.freebsd/ed/ed.h:159-164 | the links of the circle with the node put in |
| EdBuffer.Inserted | src.freebsd/ed/ed.h:159-164 | those links are again a circle, the node in its place |
| EdBuffer.Buffer.AddLineNode | src.freebsd/ed/buf.c:127-136 | the line follows the current one and becomes it; cursor and circle stay consistent |
| EdBuffer.Buffer.GetLineNodeAddr | src.freebsd/ed/buf.c:140-153 | the number of a node; for a foreign one ERR, or 0 when the buffer is empty |
| EdBuffer.Inverse | src.freebsd/ed/buf.c:140-184 | from number to node and back |

## Left out

- ZReader.Reader.Read: what a call that has gone astray returns, and what any call after it does, is not described.
- zopen.c: opening and buffering of files, I/O errors, and the 32-bit wrap-around of `in_count` and `bytes_out`; `tab_suffixof` and the stack are arrays of their own and not overlays of the hash table.
- b.c: parsing of expressions, character-class text and repetition counts; the model starts from parse trees.  `nematch`, `fnematch`, the cache of automata in `makedfa`, and growth and release of storage are not modelled.
- RegexDfa.SetGototab: the library sort is represented by its result on a table that is sorted but for the last entry.
- run.c: `gensub`, `matchop` and the growth of the output buffer; the environment variable is a parameter.
- MergeSort.Mergesort: a cell holds a whole element or a link; alignment of links inside elements and the choice between copying words and bytes are not modelled.
- ohash.c: allocation failure, sizes near UINT_MAX, `ohash_lookup_memory`, iteration and the value of `ohash_interval`; the hash is any function of the key.
- mpool.c: I/O errors, MPOOL_IGNOREPIN, `mpool_close`, the page-number limit, and the link fields of the queues, which are sequences of buffers.
- Mpool.Pool.New: the contents of the new page are arbitrary, as the code leaves them.
- setmode.c: reading the umask, which is a parameter.
- capsicum.c: rights masks and their filters, the rest of the namespace filter, seccomp and Landlock calls; argument words are compared by their low 32 bits, as the filter loads them.
- Unvis.Machine.Unvis: the states for HTML entities are not modelled.
- Vis.Strsenvisx: what is left in the buffer of the caller when the encoding does not fit is not described.
- vis.c and unvis.c: locales and wide characters, VIS_NOSLASH, extra characters of the caller, the HTTP and MIME encoders, and HTML entities; the decoder states for the percent and equals styles are modelled.
- strftime.c: everything but the ISO week date and `_yconv`, and the padding of numbers.
- buf.c: the scratch file, signals and deletion of lines.
