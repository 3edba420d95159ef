# EDSO in Dafny

EDSO (Elastic Degenerate Sequence Outputter) turns a reference sequence and a
stream of variant records into an Elastic Degenerate String (EDS). Stretches
of the reference are written as they are. The symbol at a group's site is
replaced by that group's allele set: a brace-delimited, comma-separated set
such as `{A,G,TT}`, a lone allele written bare, or nothing when no allele is
left.

This project models the converter's core in `main.cpp`:

- `segments.dfy` (module `Segments`): how one segment is written (`output`).
  It also proves that the written text reads back as the same segment.
- `variants.dfy` (module `Variants`): variant records and how consecutive
  records at one position are folded into a single group of alleles.
  - Symbolic alleles, those starting with `<`, are dropped.
  - The first group compares full positions. Every later group compares the
    position cast to a 32-bit unsigned index.
  - The reading loops are methods (`AppendKept`, `ReadGroup`), proved against
    the specification functions `GroupAt`, `After`, `Beyond`, `Following`
    and `Groups`.
  - `Consolidate` is an independent, record-by-record definition of the same
    grouping. `GroupsConsolidate` proves the two agree whenever positions
    fit in 32 bits.
- `merger.dfy` (module `Merger`): the single pass over the reference.
  - `Convert` is the imperative loop, with `rfIdx`, `vfIdx`, `i`, the literal
    buffer `tBuff`, the current allele set `vAlleles` and the buffered record
    `vBuffer`.
  - Its postcondition ties the text it writes to the specification function
    `Merge`. `Merge` copies every recognised symbol (`A`, `C`, `G`, `T`, `N`)
    and replaces the symbol whose index is the next group's site with that
    group's allele set.
  - Literal buffering never changes the text (`PushLiteral`, `FlushLiteral`).
  - Reading stops at the first NUL character, which the reader uses as its
    end-of-input mark.
  - `ConvertFile` first drops the header line.
- `outname.dfy` (module `OutputName`): the default output file name, used
  when no third argument is given: the reference file's base name with `.eds`
  appended.
- `basics.dfy` (module `Basics`): `Option` and an order-preserving filter,
  `Select`, with its lemmas.

The variant stream is a sequence of already decoded records
(`Record(position, ref, alt)`). The reference file is a string. The text
written to the output file is the string the methods return.

What the converter does, stated where it is easy to assume otherwise:

- The code has no reference-span skip. A group replaces exactly one reference
  symbol, whatever the length of its reference allele.
- The code does not splice nested variants. A record at a different site
  (its full position for the first group, its 32-bit index for later ones)
  always starts a new group; it is never spliced into the open one.
- The code drops only alleles starting with `<`. An allele `.` is kept.
- The code does not remove duplicate alleles, despite the comment at
  main.cpp:142. Records at one position simply append their alternates.
- Positions are not checked for order. A group whose site has already been
  passed is never written, and it holds back every later group
  (`Merger.MergeMiss`).
- An empty allele is kept. Its first character, as the code reads it, is the
  terminating NUL rather than `<`.
- A group whose alleles were all dropped writes nothing at its site.
- The literal counter `i` is not reset when the buffer is flushed before a
  group (main.cpp:195-200). The model keeps this. It changes where chunks
  are written, not the text.

## Model

| member | source | states |
|---|---|---|
| Segments.Output | main.cpp:53-73 | the text written for a segment is `Token(segment)`: the lone string itself for a one-string segment, otherwise `{`, the strings separated by single commas, and `}` (also `{}` for an empty segment) |
| Segments.TokenCommas | main.cpp:61-71 | a segment of n comma-free strings is written with exactly n - 1 commas |
| Segments.SplitJoin | main.cpp:61-71 | cutting the comma-joined strings at their commas gives back the segment |
| Segments.ParseToken | main.cpp:53-73 | round trip: a non-empty segment whose strings contain no `,` or `{` reads back unchanged from its written text |
| Basics.SelectCount | main.cpp:147-151 | filtering keeps every kept allele as often as it occurs and drops the others entirely: no deduplication |
| Basics.SelectAppend | main.cpp:147-151 | filtering distributes over concatenation, so alleles keep their input order |
| Basics.SelectKeeps | main.cpp:148 | only alleles that pass the test survive the filter |
| Variants.U32 | main.cpp:146 | the `(unsigned int)` cast yields an index below 2^32, equal to the position when the position fits |
| Variants.U32Wraps | main.cpp:211 | the cast keeps the position's residue modulo 2^32 |
| Variants.U32Folds | main.cpp:224 | positions 2^32 apart get the same index, so a later group folds them together |
| Variants.RunLength | main.cpp:152-171 | the records continuing a group end at the first record at a different site (or at the end of the stream) |
| Variants.InRun | main.cpp:156-161 | every record inside a group's run is at the group's site |
| Variants.AppendKept | main.cpp:147-151 | the loop appends exactly the non-symbolic alleles, in order |
| Variants.ReadGroup | main.cpp:143-172 | reading one group yields its kept alleles (the first record's alleles, then the continuing records' alternates), the record that ends it, and the unread rest of the stream, as `GroupAt`, `After` and `Beyond` define them |
| Variants.RunGrows | main.cpp:156-161 | a record at the same site lengthens the run and adds its kept alternates |
| Variants.RunStops | main.cpp:162-165 | a record at another site ends the group and is the one buffered |
| Variants.RunExhausted | main.cpp:167-170 | at the end of the stream the group is complete and nothing is buffered |
| Variants.SingleGroup | main.cpp:143-151 | a lone record forms one group at its 32-bit index, holding its kept alleles with the reference allele first |
| Variants.DuplicateMerge | main.cpp:152-161 | two records at one position form one group: the kept alleles of the first, then the kept alternates of the second |
| Variants.AltsKept | main.cpp:225-229 | alternates gathered from continuing records are never symbolic |
| Variants.GroupAtKept | main.cpp:147-161 | a group holds no symbolic allele |
| Variants.FollowingKept | main.cpp:209-240 | no group read after the first holds a symbolic allele |
| Variants.GroupsKept | main.cpp:143-240 | no group of the stream holds a symbolic allele, so none is ever written |
| Variants.RunAbsorbed | main.cpp:220-229 | absorbing the records that continue a group grows that group only |
| Variants.FollowingConsolidates | main.cpp:209-240 | the groups read from the buffered record on are the ones record-by-record consolidation appends |
| Variants.RunLengthExact | main.cpp:156 | for positions below 2^32 the first group's full-position comparison and the later groups' 32-bit comparison give the same run |
| Variants.GroupsConsolidate | main.cpp:143-240 | for positions below 2^32 the groups read are exactly the maximal runs of records at one position, each holding its first record's kept alleles and then the others' kept alternates |
| Merger.AfterHeader | main.cpp:134 | the reference is read from just after the first newline; a file without a newline has no sequence |
| Merger.HeaderSkipped | main.cpp:134 | whatever the header line holds, the text after its newline is read intact |
| Merger.UpToNul | main.cpp:175 | reading stops at the first NUL character: the text read is the longest NUL-free prefix |
| Merger.StreamStep | main.cpp:175-179 | each character read is either the next recognised symbol or skipped |
| Merger.PushLiteral | main.cpp:181-191 | buffering one symbol makes written-plus-buffered text grow by exactly that symbol; when the counter reaches the buffer size the buffer is written and the counter reset |
| Merger.FlushLiteral | main.cpp:244-250 | flushing writes exactly the buffered text |
| Merger.EmitGroup | main.cpp:203-206 | a group writes its allele set, or nothing when it has no alleles |
| Merger.LoadNext | main.cpp:209-240 | the next group is loaded exactly when a record is buffered; otherwise nothing is left to wait for |
| Merger.Convert | main.cpp:129-250 | the text written is `Merge` of the recognised symbols before the first NUL with the groups of the record stream, starting at index 1 |
| Merger.ConvertFile | main.cpp:134-250 | the same, for a whole reference file whose header line is dropped |
| Merger.MergeMiss | main.cpp:181-191 | with no group, or a next group whose site was passed or lies beyond the reference, the output is the recognised reference itself |
| Merger.MergeHit | main.cpp:181-206 | before the next group's site every symbol is copied, its symbol is replaced by the allele set, and merging carries on after it |
| Merger.OneGroup | main.cpp:175-250 | one group inside the reference: that one symbol is replaced and all others are copied |
| OutputName.BaseStart | main.cpp:117-118 | the base name starts just after the last `/` or `\`, or at 0 when there is none |
| OutputName.DefaultOutputName | main.cpp:117-119 | the default name is a separator-free suffix of the reference path followed by `.eds` |
| OutputName.BaseOfJoined | main.cpp:117-119 | for `dir/base` with a separator-free `base`, the default name is `base.eds` |
| OutputName.BareName | main.cpp:117-119 | a path without separators gets `.eds` appended to it whole |
| OutputName.StartAfterLast | main.cpp:117-118 | the base name starts exactly after the last separator |

## Left out

- Block reading of the reference (`getNextChar`, `BUFF`, `BUFFLIMIT`, `POS`) is left out. The reference file is given as a string, and the NUL sentinel `getNextChar` returns at end of input is modelled as the end of that string.
- Decoding VCF records (vcflib) is left out. Records arrive already decoded as `Record(position, ref, alt)`, with `alleles` taken to be `[ref] + alt`.
- Opening, writing and closing files, their error messages and exit codes, command-line parsing (including taking the output name from a third argument, main.cpp:111-114) and the help text, and console messages are left out. Output text is the returned string.
- The value of `BUFFERSIZE` is left out. The buffer size is a parameter that must be positive.
- Merger.Convert: does not model `rfIdx` wrapping around after 2^32 recognised symbols. Symbol indices are unbounded, so a group whose site was passed is never written.
- Merger.LoadNext: does not model `vfIdx` keeping its last value after the stream ends and then matching a wrapped `rfIdx`. Same reason as for `Convert`.
