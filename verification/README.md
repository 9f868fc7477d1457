# A verified model of nosj's native extension

nosj is a JSON library for Ruby whose extension is written in Rust. It edits JSON text by
splicing bytes, parses through event sinks that refuse repeated keys, and generates text
through fast paths that must agree with a plain printer. This project models those parts in
Dafny, keeps the code's branches, constants and error cases, and proves what the code relies
on. Code that updates state in place is modelled by classes and loops; code made of
expressions by functions.

`dafny verify dfyconfig.toml` checks everything.

## How the project is laid out

Text and values

- `Bytes`, `Syntax`, `Grammar`: concrete JSON text with whitespace in every slot section 2 of
  RFC 8259 allows, its printer, and a parser proved to be the printer's inverse both ways. A
  document therefore has one reading, and spans and values are functions of its bytes.
- `Mended`: what a parser meets in any text before the text breaks off, as a tree with a hole.
- `Values`: JSON values and the tree operations of sections 4.1 to 4.6 of RFC 6902, which
  every byte edit is measured against.
- `Pointer`: JSON Pointers (RFC 6901), array indices and dig paths.
- `Tree`, `Entries`, `Edits`, `Paths`, `Sweep`, `Sorting`: what an edit of one node, one entry
  or many disjoint places does to the text, and why it is the tree edit.

Editing (patch.rs, pointer.rs)

- `Reader` (module `PullReader`): the pull reader as a stream of tokens with offsets.
- `Patch`: the six operations and `patch_native`. `Steps`: what each operation does, by name,
  as laws on lookups before and after. `Splice`: `splice_native`. `Lookup`:
  `dig`, `at_pointer` and the batch form.

Parsing (sink.rs, locate.rs, parse.rs)

- `SeenTable` (module `SeenTables`), `DupKeys` (module `DupKeyStack`): the fingerprint stack
  and its epoch table. `Sinks`, `ValueSink` (module `ValueSinks`): the two sinks over the
  events of any text. `Locate`: the exact re-walk with an explicit stack, on any text.
  `Drive`: the check, confirm and redrive protocol, and where failures are reported.

Generating (gen/)

- `KeyCache` (module `KeyCaches`), `Printer` (the plain printer), `Walker` (the emitter with
  its fast paths), `Generate` (the entries), `Layout` (what the plain printer's text looks like,
  spelled out), `RoundTrip` (what generated text parses to).

Lines and positions (lines.rs, errors.rs)

- `Lines`: `walk_lines`. `LineTrip`: generating and walking undo each other. `Formats`: for
  which formatting strings they do. `Errors` (module `Positions`): line, column and caret
  snippet.

## What is assumed

The parsing crate, the escape kernels and the number kernels are not part of this model. They
appear as parameters with contracts:

- the tokenizer, the pull reader and the resolver agree on one grammar (`Grammar`); which runs
  of bytes spell a number or a literal, and what a string token decodes to, is a `Codec`;
- events and tokens come in text order, each once its text has been read; in malformed text
  they are those of the tree read so far, and then the parser's error;
- the resolver reads a `~` that escapes nothing as itself, as the fuzz reference does
  (ext/nosj/fuzz/src/prelude.rb:301-306): `Patch.BadEscapeAdds` and `Patch.BadEscapeSlips`
  rest on it;
- a generated key is a string token that decodes to the key (`Codec.Faithful`), and a generated
  value's text reads as that value (`Patch.Generated`);
- escaped strings are string tokens that decode to the string (`RoundTrip.Escapes`), and number
  texts are bare tokens of bounded length (`RoundTrip.Spelled`, `Printer.Native`);
- for the exact condition on formatting strings only: the token `""`, and no other, spells the
  empty string (`Formats.OneEmptySpelling`);
- fingerprints come from an arbitrary function, so every hash and every collision is covered;
- where a malformed slice stopped the parser is an arbitrary offset inside the slice, and UTF-8
  decoding is an arbitrary function whose characters concatenate to the text.

Patching and splicing assume that no object in the document repeats a key, as the fuzz
reference does (ext/nosj/fuzz/src/prelude.rb:178-181). A lookup may meet repeated keys, and
takes the first.

## What the proofs found

- `move` compares its pointers as text. When they are equal the operation succeeds without
  looking, also where section 4.4 of RFC 6902 wants the value at `from` to exist
  (`Patch.MissingMoveSucceeds`).
- A pointer with a tilde that is not escaped is read leniently, so a move into the value's own
  child can get past the text comparison. It then goes through exactly when the value is an
  array element whose successor, once slid into its place, takes the value
  (`Patch.BadEscapeSlips`). Properly escaped pointers never do this (`Patch.EscapedNeverSlips`).
- `test` reads its target under the default nesting limit, so it refuses an equal value that
  nests deeper than 100 (`Patch.DeepTestRefused`).
- Section 3 of RFC 6901 makes a pointer with an unescaped tilde an error. Here the operation goes
  through: adding at `/~` to an empty object works (`Patch.BadEscapeAdds`).
- These four are all: `Patch.NativeIsRfc` says that an operation means what RFC 6902 says if and
  only if none of them applies. With properly escaped pointers only the first and the third are
  left (`Patch.ProperPointersLeaveTwo`).
- When text is malformed, the null sink's fingerprints can collide before the fault is reached.
  The re-walk then cannot decide, and the refusal stands as a duplicate key without a position
  although no object read so far repeats one (`Drive.CollisionBeforeFault`,
  `Drive.FaultPosition`). The text is refused either way.
- The generator's duplicate-key trigger is complete between String and Symbol keys. What it
  misses always involves a key that is neither, and depends on which key comes first: the same
  two pairs are refused in one order and written in the other (`RoundTrip.CheckMisses`,
  `RoundTrip.CheckDependsOnOrder`). The comment at ext/nosj/src/gen/walker.rs:65-67 says keys of
  one kind cannot render alike, which holds for Strings and Symbols only.
- The line-framing check refuses newlines, not everything that is not whitespace, so accepted
  formatting strings can still make lines that do not parse
  (`LineTrip.AcceptedFormatMayNotParse`). Walking inverts generating for every list of values if
  and only if the formatting strings are whitespace, or no container can be both written and
  read (`Formats.WalkInvertsExactly`). Framing itself is exact for all accepted options. The
  check refuses nothing that would keep lines whole, unless the limit rules out every container
  (`LineTrip.FramingCheckExact`).
- An error offset inside a character gets a column one too far, while the caret stands under
  that character (`Positions.ColumnNamesCaret`, and `Positions.ColumnInsideCharacter` for one).

## Model

| member | source | states |
|---|---|---|
| Grammar.DocReads | ext/nosj/src/patch.rs:48-61 | parsing inverts printing: a document's text has exactly one concrete tree, so the spans edits work on are well defined |
| Grammar.DocSound | ext/nosj/src/patch.rs:48-61 | whatever parses is well formed and prints back byte for byte |
| Mended.ReadText | ext/nosj/src/parse.rs:203-215 | in any text, what a reader has met whole stands in the text byte for byte where its path says, so paths and spans found there are the text's own |
| Mended.BrokenHasHole | ext/nosj/src/locate.rs:76-133 | text that is no value is read with a hole, so no reader takes it for whole |
| Mended.ReadsAhead | ext/nosj/src/locate.rs:76-133 | in a container that breaks off, every entry that is whole and followed by a comma is read just as it stands |
| Pointer.SplitMeansTokens | ext/nosj/src/patch.rs:126-141 | `split_pointer` is root, invalid, or the reference tokens without the last and the last one decoded |
| Pointer.UnescapeEscape | ext/nosj/src/pointer.rs:57-66 | decoding an escaped token gives the token back for every byte string |
| Pointer.SplitEncode | ext/nosj/src/patch.rs:126-141 | splitting an encoded path gives the encoded parent and the original last token |
| Pointer.TokensEncode | ext/nosj/src/pointer.rs:71-94 | reading an encoded path gives back its tokens |
| Pointer.EncodeInjective | ext/nosj/src/pointer.rs:71-94 | different token lists have different pointers |
| Pointer.EncodeTokens | ext/nosj/src/patch.rs:126-141 | on properly escaped pointers reading and encoding are inverse both ways |
| Pointer.ProperIffEncoded | ext/nosj/src/pointer.rs:57-66 | the properly escaped pointers are exactly the ones encoding makes |
| Pointer.EscapeCodes | ext/nosj/src/pointer.rs:57-66 | `~` is written `~0` and `/` is written `~1` |
| Pointer.IndexIsDecimal | ext/nosj/src/patch.rs:144-152 | `parse_index` accepts exactly the canonical decimals up to 18446744073709551615, and inverts decimal printing |
| Pointer.PushEscapedToken | ext/nosj/src/pointer.rs:57-66 | the loop appends a slash and the escaped token |
| Pointer.PathToPointer | ext/nosj/src/pointer.rs:71-94 | a path of keys and in-range indices becomes the pointer of its tokens; the first bad index decides nil or range error |
| Values.RemoveAddBack | ext/nosj/src/patch.rs:529-549 | removing a value and adding it back at the same place restores the document, for every path |
| Values.ReplaceThenResolve | ext/nosj/fuzz/src/prelude.rb:345-357 | a replaced location holds the new value, and replacing it back restores the document |
| Values.SlideInto | ext/nosj/src/patch.rs:529-549 | removing a value and adding it below its old place goes through iff the next array element slides in and takes it |
| Values.DepthMatches | ext/nosj/src/patch.rs:357-370 | how deep a value nests can be read off its text, whatever its layout |
| Steps.StepsDown | ext/nosj/src/patch.rs:48-61 | what a location holds, step by step: a member by its key, an element by its position in decimal, nothing below a scalar |
| Tree.ResolveMatches | ext/nosj/src/patch.rs:48-61 | resolving tokens in the text finds the node whose value the tree-level lookup finds, and misses when it misses |
| Tree.AlterMatches | ext/nosj/src/patch.rs:221-291 | an edit of the container a pointer's parent resolves to is the tree-level edit of the whole document |
| Edits.RemovedText | ext/nosj/src/patch.rs:335-344 | the container's text without the removed block is the text of the container without that entry, for all three span choices |
| Edits.RemovedBlockHolds | ext/nosj/src/patch.rs:335-344 | what is deleted is the entry's key, value and one comma, with the whitespace on the side it goes from |
| Patch.SpanHolds | ext/nosj/src/patch.rs:48-61 | the span of a resolved pointer holds the text of the value it resolves to; malformed pointers are argument errors |
| Patch.ContainerChildren | ext/nosj/src/patch.rs:76-119 | the walk collects every child's decoded key and exact value span, in order, and refuses scalars |
| Patch.SkipWs | ext/nosj/src/patch.rs:154-159 | stops after the longest whitespace run, also past the end |
| Patch.EntryStart | ext/nosj/src/patch.rs:165-173 | finds where entry i starts under any whitespace layout |
| Patch.ApplyEdit | ext/nosj/src/patch.rs:186-203 | the document with one span replaced, or the generator's refusal |
| Patch.RenderEntry | ext/nosj/src/patch.rs:206-217 | a new member is the quoted key, a colon and the value's text |
| Patch.OpAdd | ext/nosj/src/patch.rs:221-291 | succeeds iff the tree-level add does; the new text reads as its result; outside the root exactly one block is replaced, or inserted with its comma, key and colon and no whitespace; a failure raises the error of that place |
| Patch.OpRemove | ext/nosj/src/patch.rs:311-353 | succeeds iff the tree-level remove does; the block deleted is that entry's and one separator's in the parent, every byte outside it stays, and the text reads as the parent without that one entry |
| Patch.RemovalSpan | ext/nosj/src/patch.rs:335-344 | the three span choices delete exactly the block of that entry and one separator |
| Patch.RemoveKeepsOthers | ext/nosj/src/patch.rs:335-344 | in the text `op_remove` returns, every other entry keeps its key text and value text, in order |
| Patch.OpTest | ext/nosj/src/patch.rs:357-370 | holds iff the target exists, equals the value and nests at most 100 deep; a deeper target is a nesting error whatever it is compared with |
| Patch.ApplyReplace | ext/nosj/src/patch.rs:519-527 | succeeds iff the tree-level replace does, reads as its result, and puts the value's text over exactly the target's span; the target is looked up before the value |
| Patch.ApplyMove | ext/nosj/src/patch.rs:529-549 | equal pointers leave the text alone, text-nested ones fail, all others remove the entry and then insert the source's own bytes as one block; the values are the tree-level remove and add |
| Patch.ApplyCopy | ext/nosj/src/patch.rs:550-560 | succeeds iff the tree-level copy does; the source's own bytes are inserted as one block and the rest stays |
| Patch.ApplyOp | ext/nosj/src/patch.rs:486-571 | every operation keeps a well-formed document whose value is the value-level step, writes exactly the bytes its name stands for, and raises that operation's error when it fails |
| Patch.PatchNative | ext/nosj/src/patch.rs:486-571 | over every list of operations: success iff the value-level fold succeeds, failure at the same operation with that operation's error, the text reads as the fold's result, and each document on the way is the one before with that operation's bytes written |
| Steps.AddStep | ext/nosj/src/patch.rs:518 | goes through iff the location takes a value; in an object the member has it, in a list it is inserted before that element or last for a dash; everything elsewhere is as it was |
| Steps.ReplaceStep | ext/nosj/src/patch.rs:519-527 | goes through iff something is there; the location then has the value and everything elsewhere is as it was |
| Steps.RemoveStep | ext/nosj/src/patch.rs:528 | goes through iff something is there below the root; it is gone, later elements move up by one, everything elsewhere is as it was |
| Steps.CopyStep | ext/nosj/src/patch.rs:550-560 | goes through iff something is at `from` and `path` takes a value; what was at `from` is then added at `path`, and everything elsewhere is as it was |
| Steps.MoveStep | ext/nosj/src/patch.rs:529-549 | equal pointers change nothing; else what is at `from` is taken out first and then added at `path` to what is left, under exactly the guards of the code, or of the RFC |
| Steps.TestStep | ext/nosj/src/patch.rs:561-564 | goes through iff the value is there and nests at most 100 deep, and changes nothing |
| Steps.OtherStep | ext/nosj/src/patch.rs:499-516 | anything that is not one of the six with its fields fails |
| Patch.NativeIsRfc | ext/nosj/src/patch.rs:529-564 | an operation is the RFC 6902 operation, pointers read as RFC 6901 demands, iff none of four named deviations applies |
| Patch.FoldIsRfc | ext/nosj/fuzz/src/prelude.rb:265-299 | the whole run is the RFC 6902 run unless a deviation is met on the way |
| Patch.EscapedNeverSlips | ext/nosj/src/patch.rs:529-549 | with properly escaped pointers no move gets into its own child |
| Patch.ProperPointersLeaveTwo | ext/nosj/src/patch.rs:529-564 | with properly escaped pointers an operation is the RFC's iff it is no missing move and no deep test |
| Patch.BadEscapeAdds | ext/nosj/src/patch.rs:126-141 | a concrete pointer RFC 6901 refuses, at which an add succeeds |
| Patch.DeepTestRefused | ext/nosj/src/patch.rs:357-370 | a list nested k deep, tested against itself, passes for k up to 100 and is refused from 101 on |
| Patch.MissingMoveSucceeds | ext/nosj/src/patch.rs:529-549 | a concrete move of a missing value that succeeds |
| Patch.BadEscapeSlips | ext/nosj/src/patch.rs:529-549 | a concrete move into its own child that succeeds |
| Paths.DisjointIffApart | ext/nosj/src/patch.rs:433-441 | two nodes have disjoint spans iff neither is inside the other |
| Paths.ComparableTokens | ext/nosj/src/patch.rs:433-441 | resolved pointers lead to nested nodes iff one token list is a prefix of the other |
| Paths.PutsCommute | ext/nosj/src/patch.rs:443-451 | replacements at places apart commute |
| Paths.PutAllAnyOrder | ext/nosj/src/patch.rs:443-451 | disjoint replacements give the same document in any order |
| Sweep.SweepLength | ext/nosj/src/patch.rs:443-451 | the result is as long as the input minus the spans plus the new texts |
| Sweep.SweepLast | ext/nosj/src/patch.rs:443-451 | the sweep is the same as splicing the edits in one at a time |
| Sweep.SweepText | ext/nosj/src/patch.rs:443-451 | the sweep over targets in text order prints the tree with all of them replaced |
| Splice.Overlaps | ext/nosj/src/patch.rs:433-441 | the loop finds overlap between neighbouring spans, if there is any |
| Splice.ApartIffNoneInside | ext/nosj/src/patch.rs:433-441 | targets are pairwise apart iff no edit's token list is a prefix of another's |
| Splice.OverlapMeansInside | ext/nosj/src/patch.rs:433-441 | overlapping neighbours after sorting mean some pointer addresses a value inside another's |
| Splice.SweepMeansReplaced | ext/nosj/src/patch.rs:433-451 | without overlap between sorted neighbours no edit is inside another, and the sweep reads as all replacements |
| Splice.AnyOrder | ext/nosj/src/patch.rs:443-451 | replacing one edit after another in the text gives the same bytes for every order of the edits |
| Splice.SpliceNative | ext/nosj/src/patch.rs:381-453 | a batch is accepted iff every edit is usable and resolves and none is inside another, and a refused one raises the first error in the code's order; the result reads as the tree-level replacements, is the input with only the targets' spans replaced, and is byte for byte what replacing the edits one at a time, in any order, gives |
| Lookup.AtPointer | ext/nosj/src/pointer.rs:14-40 | nil for a miss, else the value at the node the pointer leads to; refused iff the pointer is malformed or that node nests too deep or holds a refused repeat, with the error of whichever comes first |
| Lookup.Dig | ext/nosj/src/pointer.rs:98-109 | the value at the node the path's steps lead to, nil for a miss or a negative index, range error past 64 bits; refused iff that node nests deeper than 100 or repeats a key |
| Lookup.DigDepth | ext/nosj/src/sink.rs:16 | arrays nested k deep are read for k up to 100 and refused from 101 on |
| Lookup.AtPointers | ext/nosj/src/pointer.rs:116-157 | hits come back without places for the nil pointers and are aligned again: answer i is pointer i's alone |
| Lookup.AnswerIsResolve | ext/nosj/src/pointer.rs:14-40 | where no object repeats a key, the answer is the tree-level lookup in the document's value, refused iff it nests too deep |
| Lookup.FirstMember | ext/nosj/fuzz/src/prelude.rb:178-181 | where keys repeat, a step takes the first member with its key |
| SeenTables.SeenTable.Claim | ext/nosj/src/sink.rs:104-133 | probing ends, and finds the fingerprint iff it was claimed in this epoch |
| SeenTables.SeenTable.AnyRepeat | ext/nosj/src/sink.rs:104-133 | from every valid table state, early exits and the epoch wrap included: true iff two fingerprints are equal |
| DupKeyStack.RepeatCounts | ext/nosj/src/sink.rs:155-178 | repeating does not depend on order, so sorting in place cannot change the answer |
| DupKeyStack.NeighboursDecide | ext/nosj/src/sink.rs:155-178 | sorted keys repeat iff two neighbours are equal |
| DupKeyStack.PairwiseRepeat | ext/nosj/src/sink.rs:155-178 | the small strategy decides the same predicate |
| DupKeyStack.DupKeys.Close | ext/nosj/src/sink.rs:155-178 | refused iff the object's own fingerprints repeat; everything below its mark is unchanged |
| Sinks.OutcomeNone | ext/nosj/src/sink.rs:452-514 | a drive is accepted iff nothing is missing, nesting fits and no object repeats |
| Sinks.StopIsReal | ext/nosj/src/sink.rs:452-514 | a drive stops for nesting only where the tree read nests past the limit, and for a fault only where the text breaks off |
| Sinks.TextOutcomeNone | ext/nosj/src/parse.rs:203-215 | any text is accepted iff it is a document whose nesting fits and where no object repeats |
| Sinks.NestingComesFirst | ext/nosj/src/sink.rs:452-514 | text opening more arrays than the limit is refused for nesting, whatever follows, well-formed or not |
| Sinks.DuplicateIsRepeat | ext/nosj/src/sink.rs:452-514 | a drive stops for a duplicate only where some object repeats, on any text |
| Sinks.DuplicateIsFirst | ext/nosj/src/sink.rs:135-179 | the refused object is the first, in close order, that repeats |
| Sinks.CleanHash | ext/nosj/src/sink.rs:135-179 | for every hash, a document without fingerprint repeats has no key repeats |
| Sinks.DriveNull | ext/nosj/src/sink.rs:452-514 | over every text's events the fingerprint sink stops where the reference does, and leaves the stack below as it was |
| ValueSinks.SizeTellsRepeat | ext/nosj/src/sink.rs:422-445 | the Hash is smaller than its pairs iff a key repeats |
| ValueSinks.HashOfEntries | ext/nosj/src/sink.rs:422-445 | an object's slots build its map, last key winning |
| ValueSinks.ListOfEntries | ext/nosj/src/sink.rs:404-419 | an array's slots build its list |
| ValueSinks.DriveValue | ext/nosj/src/sink.rs:298-446 | below the ceiling, on any stack, the sink leaves that stack plus exactly the value, or stops where the reference does |
| ValueSinks.DriveAccepts | ext/nosj/src/sink.rs:298-446 | any text is accepted iff it is a document, nesting fits and, unless allowed, no object repeats a key |
| ValueSinks.ShortTextFits | ext/nosj/src/sink.rs:298-305 | no stretch of a text shorter than 2^26 bytes reaches the stack ceiling, well-formed or not |
| ValueSinks.MaterializeAt | ext/nosj/src/parse.rs:244-283 | for any stretch of text: the first refusal or fault a drive meets, else the document's value |
| Locate.SearchFindsAll | ext/nosj/src/locate.rs:29-38 | the reference search finds nothing iff the text is read whole and no object repeats a key |
| Locate.SearchIsRepeat | ext/nosj/src/locate.rs:29-38 | what it finds is an object, read to its end, and its first repeated key |
| Locate.SearchIsFirst | ext/nosj/src/locate.rs:29-38 | no object that closes before it repeats |
| Locate.FaultIsFirst | ext/nosj/src/locate.rs:76-133 | when the walk meets the fault instead, no object read to its end repeats a key |
| Locate.RepeatBeforeBreak | ext/nosj/src/locate.rs:76-133 | a repeat in an object that is whole is found although the text around it breaks off later |
| Locate.Scan | ext/nosj/src/locate.rs:76-133 | on any text the loop over an explicit stack is the recursive search |
| Locate.Unwind | ext/nosj/src/locate.rs:106-132 | closing containers reaches the next value, a repeat, or the end, as the search does |
| Locate.ContainerOffset | ext/nosj/src/locate.rs:138-162 | on any text, replaying the index path of a container that is there lands on its start, whatever follows it |
| Locate.DuplicateKey | ext/nosj/src/locate.rs:29-38 | on any text: absent iff it is read whole and no object repeats a key, undecided iff it breaks off before one does, else the first in close order with its key and offset |
| Locate.FoundBrace | ext/nosj/src/locate.rs:138-162 | at the offset found stands that very object's text, opening brace first |
| Drive.DriveHashless | ext/nosj/src/parse.rs:203-215 | on any text, for every hash and scratch state: success iff it is a document that nests within the limit and, unless allowed, repeats no key; else the first drive's refusal, unless the re-walk reads the whole root and finds no repeat |
| Drive.CollisionBeforeFault | ext/nosj/src/locate.rs:29-38 | where the re-walk is undecided the text is no document, and no object read to its end repeats a key |
| Drive.RewalkFindsAbort | ext/nosj/src/parse.rs:152-194 | the object the error is placed at is the one whose close stopped the drive, and there is one such object only |
| Drive.FaultPosition | ext/nosj/src/parse.rs:152-194 | positions are absolute; a duplicate has one iff the re-walk finds a repeat, which it does for every refusal of the value sink, and it is the opening brace of that object, also in a slice malformed further on |
| KeyCaches.StepSound | ext/nosj/src/gen/keys.rs:22-58 | allocating, releasing, collecting and emitting keep the cache sound |
| KeyCaches.ReachableHitsExact | ext/nosj/src/gen/keys.rs:22-58 | over every run from a fresh cache, a hit is what escaping that key now would emit; map and shadow agree and hold at most 2048 keys |
| KeyCaches.StoredBalanced | ext/nosj/src/gen/keys.rs:43-57 | storing after a miss keeps map and shadow in step under the cap, the epoch eviction included |
| Walker.MixedKeys.NeedsCheck | ext/nosj/src/gen/walker.rs:71-107 | the check is due once, at the first String or Symbol key unlike the first key |
| Walker.CheckDuplicateKeys | ext/nosj/src/gen/walker.rs:399-437 | true iff two keys render alike |
| Walker.RunItems | ext/nosj/src/gen/walker.rs:492-619 | a numeric run's text is the reference text of its elements |
| Walker.Gen.NumericRun | ext/nosj/src/gen/walker.rs:492-619 | a run writes its elements joined by commas, stops cleanly at the first other element, and stays within its reservation |
| Walker.Gen.EmitKeyCached | ext/nosj/src/gen/walker.rs:223-241 | hit or miss, the key's quoted bytes are written, and the cache makes exactly the step of emitting that key |
| Walker.Gen.EmitPairPrefixCompact | ext/nosj/src/gen/walker.rs:275-302 | the fused write equals comma, key and colon |
| Walker.Gen.EmitPairIntCompact | ext/nosj/src/gen/walker.rs:309-342 | the fused write equals comma, key, colon and integer |
| Walker.Gen.EmitFloat | ext/nosj/src/gen/walker.rs:192-216 | finite, null, NaN, Infinity or refusal, as the options say |
| Walker.Gen.EmitArray | ext/nosj/src/gen/walker.rs:492-619 | for every array and both modes, the plain printer's bytes or its failure |
| Walker.Gen.EmitObject | ext/nosj/src/gen/walker.rs:625-734 | the same, with the comma decided from the last byte written |
| Walker.Gen.EmitValue | ext/nosj/src/gen/walker.rs:736-792 | the same for every native tree, so pretty mode with empty strings and compact mode agree |
| Printer.NeverEndsInBrace | ext/nosj/src/gen/walker.rs:625-734 | no emitted value is empty or ends in an opening brace |
| Layout.LiteralNames | ext/nosj/src/gen/walker.rs:736-792 | nil and the booleans are written `null`, `true` and `false` |
| Layout.FloatNames | ext/nosj/src/gen/walker.rs:192-216 | finite floats as spelled; the others as null, by their names and sign, or refused, as the options say |
| Layout.IntReads | ext/nosj/src/gen/walker.rs:736-792 | every integer is written as a JSON integer that reads back as it, so no two alike |
| Layout.IndentIsCopies | ext/nosj/src/gen/walker.rs:120-126 | the indent at depth d is exactly d copies of the string, nothing at depth 0 |
| Layout.ArrayText | ext/nosj/src/gen/walker.rs:492-619 | an array's text in full: every element behind its break and d copies of the indent, commas between, the closing break at the array's own depth |
| Layout.HashText | ext/nosj/src/gen/walker.rs:625-734 | a Hash's text in full: break, indent, quoted key, `space_before`, colon, `space` and value, commas between |
| Generate.EmitOne | ext/nosj/src/gen/mod.rs:234-262 | the options pick an emitter, and either gives the plain printer's result |
| Generate.GenerateScratched | ext/nosj/src/gen/mod.rs:191-211 | under every mode the cache handed out holds bytes of that mode, and both caches stay sound |
| Generate.EmitInto | ext/nosj/src/gen/mod.rs:267-274 | the first cache is right for every mode an options hash can ask for |
| Generate.GenerateLines | ext/nosj/src/gen/mod.rs:331-350 | every value's text and a newline, the first failure, or a refusal of the formatting strings |
| RoundTrip.GenerateAccepts | ext/nosj/src/gen/walker.rs:484-490 | generation succeeds iff nesting fits, every float may be written and no Hash is refused |
| RoundTrip.FailureIsReal | ext/nosj/src/gen/walker.rs:484-490 | a failure says what is so: a float of the tree that may not be written, nesting past the limit, or a Hash whose keys render alike |
| RoundTrip.GenerateParses | ext/nosj/src/gen/walker.rs:736-792 | generated text is a document whose value, nesting and repeated keys are the native tree's |
| RoundTrip.CheckMisses | ext/nosj/src/gen/walker.rs:71-107 | the exact condition, on the keys' constructors, under which the duplicate-key trigger lets a Hash through; every repeat it lets through has a key that is neither String nor Symbol |
| RoundTrip.CheckComplete | ext/nosj/src/gen/walker.rs:71-107 | between Strings and Symbols the trigger misses no repeat and refuses nothing else |
| RoundTrip.WrittenKeysApart | ext/nosj/src/gen/walker.rs:71-107 | a written Hash of String and Symbol keys has no two that render alike, and if its values can be written it is refused for its keys alone |
| RoundTrip.CheckDependsOnOrder | ext/nosj/src/gen/walker.rs:71-107 | two pairs refused in one order and written in the other |
| RoundTrip.GeneratedHasNoRepeats | ext/nosj/src/gen/walker.rs:399-437 | whole trees of String and Symbol keys that are generated have no repeats |
| Lines.LinesAre | ext/nosj/src/lines.rs:31-52 | every line is a maximal newline-free stretch of the source with its physical number |
| Lines.LinesJoin | ext/nosj/src/lines.rs:31-52 | the lines joined by newlines are the source, but for a last newline |
| Lines.BlankIsWhitespace | ext/nosj/src/lines.rs:18-22 | the lines that are skipped are exactly those of JSON whitespace |
| Lines.ParseLine | ext/nosj/src/lines.rs:31-52 | a line parses against the full source; its first refusal or fault is reported, and a position, if there is one, is on its own physical line |
| Lines.WalkLines | ext/nosj/src/lines.rs:31-52 | yields in order the parse of exactly the lines that are not blank, and stops at the first that fails, with that line's first refusal or fault |
| LineTrip.TextClean | ext/nosj/src/gen/mod.rs:278-288 | with accepted formatting no generated text holds a newline or a carriage return, or looks blank |
| LineTrip.FramingCheckExact | ext/nosj/src/gen/mod.rs:278-288 | some value's text has a line break iff the check refuses the formatting and containers can be written |
| LineTrip.SplitUnlines | ext/nosj/src/lines.rs:31-52 | newline-free texts, each ended by a newline, split back into themselves |
| LineTrip.FramingExact | ext/nosj/src/gen/mod.rs:331-350 | the walk sees one document per value, with that value's text and number, under all accepted options |
| LineTrip.WalkInvertsGenerate | ext/nosj/src/lines.rs:31-52 | with whitespace formatting every value is read back, unless it nests past the parse limit or holds refused repeats |
| LineTrip.StrictTrip | ext/nosj/src/gen/mod.rs:331-350 | with both limits on, trees of String and Symbol keys are always read back |
| LineTrip.AcceptedFormatMayNotParse | ext/nosj/src/gen/mod.rs:278-288 | a concrete accepted format whose line does not parse |
| Formats.WhitespaceDecides | ext/nosj/src/gen/mod.rs:278-288 | every value that generates and that the parse options allow is read back iff the formatting strings are whitespace or no container is both written and read |
| Formats.WalkInvertsExactly | ext/nosj/src/gen/mod.rs:278-288 | under accepted options walking inverts generating for all lists of values iff the same condition holds |
| Positions.PositionsOrdered | ext/nosj/src/errors.rs:95-121 | (line, column) is monotone in the offset, in lexicographic order |
| Positions.PositionSteps | ext/nosj/src/errors.rs:95-121 | positions byte by byte: line 1 column 1 first, a newline starts the next line at column 1, every other byte that takes a cell is one column |
| Positions.PositionsShared | ext/nosj/src/errors.rs:95-121 | two offsets share a position iff no byte between them takes a cell |
| Positions.ContentIsLine | ext/nosj/src/errors.rs:95-121 | a line's content is the line without a carriage return at its end, and the caret never goes past it |
| Positions.LocateOffset | ext/nosj/src/errors.rs:95-121 | line, column and the snippet of the line's content, with the caret under the character at the offset |
| Positions.CharAtBoundary | ext/nosj/src/errors.rs:139-142 | the caret's character starts at the last boundary at or before the byte |
| Positions.BuildSnippet | ext/nosj/src/errors.rs:135-173 | no snippet for an empty line, else the window around the character holding the byte |
| Positions.SnippetShows | ext/nosj/src/errors.rs:127-173 | the snippet cell by cell: up to 50 characters before the caret and 30 from it on, each as it is or one blank for a control character, an ellipsis where it is cut, the caret's line below |
| Positions.SnippetFrames | ext/nosj/src/errors.rs:127-173 | the caret's cell is the offending character's, or one past the end; a short line is shown whole |
| Positions.ColumnNamesCaret | ext/nosj/src/errors.rs:95-121 | column and caret name the same character iff the offset is on a character boundary |
| Positions.ColumnInsideCharacter | ext/nosj/src/errors.rs:95-121 | a concrete offset inside a two-byte character whose column is one too far |

## Left out

- Malformed documents in patching, splicing and lookups: what the resolver makes of text that does not parse as a whole is not part of this model.
- Lookup.AtPointer: asks for a document that parses as a whole; the resolver may stop before a fault further on.
- Lookup.Dig: asks for a document that parses as a whole, like `at_pointer`.
- Lookup.AtPointers: asks for a document that parses as a whole, like `at_pointer`.
- Documents that repeat a key in patching and splicing: raw resolution sees the first occurrence and the tree the last.
- `add` and `remove` below a scalar: the outcome comes from the reader, and is taken to be a parser error.
- Patch.OpTest: takes the parse of the target as its value when it nests within the limit; a target of 2^26 bytes or more, which may reach the stack ceiling, is not modelled there.
- ValueSinks.DriveValue: assumes that the text's pending values stay below the stack ceiling, as they do in every text shorter than 2^26 bytes (`ValueSinks.ShortTextFits`).
- ValueSinks.MaterializeAt: assumes the same of its slice, and so do `ParseLine`, `WalkLines` and the lookups of every slice of their source.
- Locate.Scan: always looks for repeats; the mode that only looks for the first walk error serves lone surrogates, which are not modelled.
- LineTrip.WalkInvertsGenerate: asks for whitespace formatting; `Formats.WalkInvertsExactly` says when other strings do.
- Where the reader reports an error: it may do so a call earlier than the model, with the same answer.
- Lines.WalkLines: the block that receives the values, and what it may do to the source, is not modelled; the values are collected in a sequence.
- Number and literal spelling, string decoding, lone surrogates, `allow_nan` and trailing commas: part of the tokenizer.
- Heap identity beyond the strings the key cache holds, encodings other than UTF-8, and hashes mutated while they are emitted.
- User callbacks (`to_json`, `to_s`, `as_json`), fragments, Ractors and Ruby exceptions raised inside them.
- The parse-side key and symbol caches: interning makes equal keys one object, which values cannot see.
- Error message texts and the decoding of option hashes.
- Files and memory maps, lazy nodes, statistics, the reformat pipe, and the adapters: plumbing around the parts modelled here.
