# Procedural macros of proc-macro-workshop-solutions, modelled in Dafny

This project models the decision-making core of three procedural macros and
proves properties of the model.

- **`seq!`** (`seq/src/lib.rs`) repeats a block of tokens for each integer of
  a range.
  - A header `N in lo..hi` or `N in lo..=hi` names the loop variable.
  - In each copy the variable becomes the integer literal, and `a~N` pastes
    the integer onto an identifier.
  - A `#( ... )*` marker anywhere in the block restricts the repetition to
    that section. The rest of the block is then emitted once.
- **`#[sorted]`** (`sorted/src/lib.rs`) rejects an enum whose variants are out
  of order. Its checker `check_match_arms` rejects a match whose arms are out
  of order, a `_` wildcard that is not the last arm, and arm patterns it cannot
  name.
- **`#[bitfield]`** (`bitfield/impl/src/lib.rs`) packs a struct's fields into a
  byte buffer. Each field's width comes from its `B1` … `B64` type. Each field
  gets a getter and a setter that move one bit at a time.

Token streams are values of `TokenTree.Token`: identifiers, literals (as
their text), punctuation characters and delimited groups. Parsed items,
patterns and struct fields are reduced to the parts the macros look at
(`Sorted.Item`, `Sorted.Pat`, `Bitfield.StructFields`).

The source's loops become methods with loop invariants, each proved equal
to a specification function:
- `fill_token_stream` becomes `FillStream` and `Fill`;
- the `~` paste loop becomes `PasteLoop` and `Paste`;
- `parse_for_repeat_token` becomes `ScanStream` and `Scan`;
- the driver becomes `SplitInvocation`, `Expand` and `Expansion`;
- `parse_enum` and `check_match_arms` become `ParseEnum` and `CheckMatchArms`;
- the emitted getter and setter become `Storage.Get`, `Storage.Set`,
  `FieldValue` and `OrField`.

The source's `&mut bool` marker flag becomes an in/out parameter of
`ScanStream`. The setter mutates a byte array in place.

The scanner follows the code:
- the token after a `#` is copied without being scanned, so a marker inside a
  group that directly follows a `#` is not found;
- a punctuation token after `#( ... )` that is neither `*` nor `#` is emitted
  twice, because the code peeks at it, copies it, and then scans it again (a
  `#` there is scanned again too, and may start a marker of its own).

`SeqScanProperties.HashHidesNextToken` and
`SeqScanProperties.PunctAfterGroupTwice` state these two behaviours.

The header is parsed as syn reads it: syn steps into invisible groups, the
groups `macro_rules!` wraps around an `$n:expr` fragment, so `SeqMain.Flatten`
removes them before `SeqMain.ParseHeader` looks at the tokens.

The field layout is modelled twice. `Bitfield.LayOut` does what the macro
does: it sizes the buffer by rounding the total bit count down to whole
bytes. `Bitfield.CheckedLayOut` is the corrected layout described under
"## Findings".

The source's panics (`expect` on a missing body, a malformed header, an
out-of-range literal) become error results (`SeqMain.SeqError`). The
`stop + 1` of an inclusive range ending at `u64::MAX` is the error
`StopOverflow`.

## Model

| member | source | states |
|---|---|---|
| Decimal.Dec | seq/src/lib.rs:88 | the literal text for an index is a nonempty run of decimal digits with no leading zero |
| Decimal.ValueOfDec | seq/src/lib.rs:88 | reading back the digits printed for an index gives that index |
| Decimal.DecInjective | bitfield/impl/src/lib.rs:104 | distinct numbers print differently |
| SeqFill.Paste | seq/src/lib.rs:69-86 | the paste loop only moves forward and stays within the stream |
| SeqFill.PasteLoop | seq/src/lib.rs:66-86 | the paste loop's identifier is the head plus the parts of the `~` chain (the index for the loop variable), and it stops where `Paste` does |
| SeqFill.FillNext | seq/src/lib.rs:69-86 | each turn of the walk consumes at least the current token and never runs past the end |
| SeqFill.FillToken | seq/src/lib.rs:54-98 | one turn of the loop emits the token `FillHead` gives (a rebuilt group, the index literal, a pasted identifier, or the token itself) and leaves the iterator where `FillNext` says |
| SeqFill.FillStream | seq/src/lib.rs:48-103 | the stream walk yields `Fill`: groups rebuilt around their filled contents, the loop variable replaced by the index literal, `~` chains pasted, all else copied |
| SeqFill.RepeatStream | seq/src/lib.rs:229-232 | the loop over the range yields `Repeat`: one filled copy per index, in ascending order |
| SeqFillProperties.PasteShift | seq/src/lib.rs:69-86 | the paste loop depends only on the tokens still to come |
| SeqFillProperties.FillFromShift | seq/src/lib.rs:53-100 | the fill walk depends only on the tokens still to come |
| SeqFillProperties.FillFromSuffix | seq/src/lib.rs:51-53 | resuming the walk at a position is filling the remaining tokens afresh |
| SeqFillProperties.FillUntouched | seq/src/lib.rs:48-103 | a stream with no loop variable and no `~` at any depth is reproduced unchanged |
| SeqFillProperties.FillFromUntouched | seq/src/lib.rs:53-100 | the same from any position |
| SeqFillProperties.FillWithoutPasteIsSubst | seq/src/lib.rs:87-92 | without `~`, filling is the deep substitution of the loop variable by the index literal, an independent definition |
| SeqFillProperties.PasteEndIndependent | seq/src/lib.rs:69-86 | how many tokens the paste loop consumes does not depend on the index |
| SeqFillProperties.FillLengthIndependent | seq/src/lib.rs:48-103 | every index yields a copy with the same number of tokens |
| SeqFillProperties.PasteChain | seq/src/lib.rs:69-86 | a chain `~ a ~ b …` ending before a non-`~` token is consumed whole, appending each part and the index for the loop variable |
| SeqFillProperties.FillPasteChain | seq/src/lib.rs:65-95 | an identifier with a `~` chain becomes one token: the pasted identifier, or the bare index literal when the head is the loop variable |
| SeqFillProperties.FillDanglingTilde | seq/src/lib.rs:69-83 | a `~` not followed by an identifier is dropped |
| SeqFillProperties.RepeatFirst | seq/src/lib.rs:129-132 | the copy for the first index comes first, then the copies for the rest of the range |
| SeqFillProperties.RepeatLength | seq/src/lib.rs:229-232 | an empty range yields nothing, otherwise `hi - lo` copies of equal length |
| SeqScan.ScanHash | seq/src/lib.rs:119-155 | the `#` case emits what `ScanFrom` emits up to where it resumes, and reports a marker exactly when `#`, a parenthesis group and `*` follow one another there, in which case it consumes all three and emits the group's contents once per index |
| SeqScan.ScanStream | seq/src/lib.rs:106-182 | the scanner yields `Scan`, and the flag ends set when it was set before or a marker was expanded |
| SeqScanProperties.ScanFromWithoutHash | seq/src/lib.rs:116-179 | from any position, tokens without `#` at any depth are copied and no marker is reported |
| SeqScanProperties.ScanWithoutHash | seq/src/lib.rs:116-179 | a stream without `#` at any depth is copied unchanged and no marker is reported |
| SeqScanProperties.ScanFoundIndependent | seq/src/lib.rs:123-128 | whether a marker is found depends on the tokens alone, not on the variable or the range |
| SeqScanProperties.MarkerIsolationFrom | seq/src/lib.rs:119-133 | from any position in `pre`, the rest of `pre`, then the repeated section, then `post`, with the flag set |
| SeqScanProperties.MarkerIsolation | seq/src/lib.rs:119-133 | `pre #( body )* post` with no other `#` yields `pre`, the body repeated over the range, then `post`, with the flag set |
| SeqScanProperties.NestedMarker | seq/src/lib.rs:160-170 | a marker two groups deep is expanded in place and sets the flag |
| SeqScanProperties.PunctAfterGroupTwice | seq/src/lib.rs:134-140 | `#( body ) c` with `c` neither `*` nor `#` is copied and `c` is emitted a second time |
| SeqScanProperties.HashHidesNextToken | seq/src/lib.rs:145-152 | a group directly after `#` is copied unscanned, with no marker reported |
| SeqScanProperties.ScanFromShift | seq/src/lib.rs:116-179 | the scanner depends only on the tokens still to come |
| SeqMain.Flatten | seq/src/lib.rs:20-34 | the header as syn's parser reads it: no invisible group is left, their contents standing in their place |
| SeqMain.ParseHeader | seq/src/lib.rs:20-45 | a parsed header holds two digit literals, and an error position lies within the header as read through invisible groups |
| SeqMain.EffectiveStop | seq/src/lib.rs:216-220 | the exclusive end is `stop` or one past it, and lies past `stop` exactly when the range is inclusive |
| SeqMain.SplitInvocation | seq/src/lib.rs:186-202 | the first loop yields `Split`: the header tokens and the last brace group's contents |
| SeqMain.Expand | seq/src/lib.rs:185-239 | the macro yields `Expansion`: its errors in the source's order, then the scanner's output or the repeated body |
| SeqMainProperties.HeaderRoundTrip | seq/src/lib.rs:20-45 | every header parses back from its own tokens |
| SeqMainProperties.HeaderReadThrough | seq/src/lib.rs:20-45 | a header that reads as a rendered header once invisible groups are looked through parses to that header |
| SeqMainProperties.HeaderOnlyThatForm | seq/src/lib.rs:20-45 | the parser accepts only the exact token form of a header, read through invisible groups, nothing more |
| SeqMainProperties.FlattenAppend | seq/src/lib.rs:20-34 | reading through invisible groups distributes over concatenation |
| SeqMainProperties.FlattenVisible | seq/src/lib.rs:20-34 | a header with no invisible group is read as it is |
| SeqMainProperties.InvisibleLiteral | seq/src/lib.rs:34 | an invisible group around one literal reads as that literal |
| SeqMainProperties.InvisibleStopRead | seq/src/lib.rs:20-45 | a stop bound passed through `macro_rules!` as `$n:expr`, wrapped in an invisible group, is read as its literal |
| SeqMainProperties.SplitAppend | seq/src/lib.rs:191-202 | splitting distributes over concatenation: headers concatenate and a later brace group overrides an earlier one |
| SeqMainProperties.SplitBody | seq/src/lib.rs:191-202 | there is a body exactly when there is a brace group; it is the last one's contents, and header tokens are never brace groups |
| SeqMainProperties.SplitInvocationOf | seq/src/lib.rs:191-202 | a header followed by a brace group splits back into the two |
| SeqMainProperties.SplitNoBrace | seq/src/lib.rs:191-202 | without a brace group every token goes to the header |
| SeqMainProperties.ExpandWholeBody | seq/src/lib.rs:228-232 | with no marker the output is the body repeated over `[start, stop)`, or up to `stop + 1` for `..=`, with `hi - lo` copies of equal length and nothing for an empty range |
| SeqMainProperties.ExpandMarkerMode | seq/src/lib.rs:225-235 | with a marker the output is the scanner's single pass |
| SeqMainProperties.ExpandMarkerIsolation | seq/src/lib.rs:225-235 | `seq!(N in r { pre #( x )* post })` yields `pre`, `x` repeated, then `post` |
| SeqMainProperties.ExpandMissingBody | seq/src/lib.rs:204 | an invocation without a brace group fails before its header is read |
| SeqMainProperties.MissingInKeyword | seq/src/lib.rs:22 | a header lacking `in` fails at its second token |
| SeqMainProperties.PasteExample | seq/src/lib.rs:69-92 | `seq!(N in 3..5 { foo~N })` expands to `foo3 foo4` |
| Sorted.ParseEnum | sorted/src/lib.rs:9-32 | a non-enum is refused; an enum passes exactly when no variant sorts before an earlier one, and otherwise the error names the first inversion in scan order |
| Sorted.SortedAttribute | sorted/src/lib.rs:34-47 | the item alone on success, or the error message followed by the item |
| Sorted.JoinPairs | sorted/src/lib.rs:124-148 | the tuple-struct fold continues its accumulator with the path segments joined by `::`, whatever the segments |
| Sorted.JoinSegments | sorted/src/lib.rs:153-161 | the struct fold continues a nonempty accumulator with `::` and the joined segments, and from an empty one joins nonempty segments with `::` |
| Sorted.IdentFromPat | sorted/src/lib.rs:122-171 | exactly tuple-struct, struct and identifier patterns are named: an identifier by itself, a path pattern by its segments joined with `::` |
| Sorted.CheckMatchArms | sorted/src/lib.rs:72-119 | the arms pass exactly when no pair of the scan reports an error, and otherwise the error is that of the first such pair |
| SortedProperties.LessByFirstDifference | sorted/src/lib.rs:19 | one name sorts before another exactly when it is a proper prefix of it or, at the first position where they differ, has the smaller character |
| SortedProperties.LessIrreflexive | sorted/src/lib.rs:19 | no name sorts before itself |
| SortedProperties.LessAsymmetric | sorted/src/lib.rs:19 | two names never sort before each other |
| SortedProperties.LessTransitive | sorted/src/lib.rs:19 | the name order is transitive |
| SortedProperties.LessTotal | sorted/src/lib.rs:19 | of two different names, one sorts before the other |
| SortedProperties.NotLessTransitive | sorted/src/lib.rs:19 | "does not sort before" is transitive |
| SortedProperties.PrefixFirst | sorted/src/lib.rs:19 | a name sorts before any longer name it begins |
| SortedProperties.PrefixShared | sorted/src/lib.rs:19 | a common prefix does not change the order |
| SortedProperties.NoInversionIffAdjacent | sorted/src/lib.rs:14-28 | checking every later variant accepts exactly the lists whose neighbours are in order |
| SortedProperties.AdjacentReach | sorted/src/lib.rs:14-28 | neighbours in order put every later variant after every earlier one |
| SortedProperties.FirstInversionUnique | sorted/src/lib.rs:14-23 | the reported pair is determined by the list |
| SortedProperties.FirstInversionExists | sorted/src/lib.rs:14-23 | every unsorted list has a first inversion to report |
| SortedProperties.MatchArmsAccepted | sorted/src/lib.rs:72-119 | the arms pass exactly when each is named or is a final `_`, and no named arm sorts before an earlier named arm |
| SortedProperties.NamedArmsLikeVariants | sorted/src/lib.rs:76-84 | arms that are all named follow the same rule as enum variants |
| SortedProperties.ConferencesSorted | sorted/tests/08-underscore.rs:9-14 | the test's variants are in order, `_RustLatam` after `RustRush` |
| SortedProperties.ConferenceNeighbours | sorted/tests/08-underscore.rs:9-14 | each of the test's variants sorts before the next |
| SortedProperties.FirstConferenceMatchAccepted | sorted/tests/08-underscore.rs:23-27 | the first match of the test passes, with `_` last |
| SortedProperties.SecondConferenceMatchAccepted | sorted/tests/08-underscore.rs:30-35 | the second match passes, `_RustLatam` after `RustLatam` and `_` last |
| SortedProperties.EarlyWildcardRejected | sorted/src/lib.rs:102-108 | a `_` before the last arm is the first error |
| SortedProperties.InvertedArmsRejected | sorted/src/lib.rs:78-84 | `RustLatam` before `RustFest` is reported as `RustFest` should sort before `RustLatam` |
| SortedProperties.UnsupportedArmRejected | sorted/src/lib.rs:93-97 | an unnamed arm other than `_` is refused even in last place |
| Bitfield.SizeToPrimitive | bitfield/impl/src/lib.rs:121-159 | widths 1 to 64 get the smallest primitive that holds them; other widths get the error with the width divided by eight |
| Bitfield.GenerateBTypes | bitfield/impl/src/lib.rs:99-118 | exactly `B1` to `B64`, in order, with `BITS` equal to the number, each with a primitive |
| Bitfield.DataLen | bitfield/impl/src/lib.rs:68 | as written, the buffer is the largest whole number of bytes that the total bit count fills |
| Bitfield.CheckedDataLen | bitfield/impl/src/lib.rs:68 | the buffer length is accepted only when the bits fill whole bytes, and then it holds exactly the total |
| Bitfield.FieldAccessor | bitfield/impl/src/lib.rs:27-60 | each field's range is as wide as its type's `BITS` |
| Bitfield.LayAccessors | bitfield/impl/src/lib.rs:14-60 | one accessor pair per field named `get_` and `set_` plus the field, over the range from the sum of earlier widths to the sum up to and including the field, and the total width |
| Bitfield.LayOut | bitfield/impl/src/lib.rs:14-68 | as written: every field's accessor pair, and a buffer of `DataLen` of the total, whatever the total |
| Bitfield.CheckedLayOut | bitfield/impl/src/lib.rs:14-72 | corrected: the same accessors and a buffer holding exactly the total, and the refusal `NotByteAligned` with the excess bits when the total is not a multiple of eight |
| Bitfield.OrField | bitfield/impl/src/lib.rs:48-56 | the setter keeps the buffer's length |
| Bitfield.FieldValueSnoc | bitfield/impl/src/lib.rs:43-44 | each step of the getter adds the next buffer bit at the next position of the value |
| Bitfield.FieldValueBound | bitfield/impl/src/lib.rs:38-46 | a field's value is below two to the power of its width |
| Bitfield.Storage.constructor | bitfield/impl/src/lib.rs:83-87 | `new()` gives a zeroed buffer of the layout's length |
| Bitfield.Storage.Get | bitfield/impl/src/lib.rs:38-47 | the getter's loop yields `FieldValue`, below two to the power of the width |
| Bitfield.Storage.Set | bitfield/impl/src/lib.rs:48-58 | the setter's loop leaves the buffer at `OrField` of its old contents |
| Bitfield.Storage.SetBit | bitfield/impl/src/lib.rs:50-55 | one turn of the setter's loop ORs the bit of the value into its byte, advancing the buffer from `OrField` of `n` bits to `OrField` of `n + 1` |
| BitfieldProperties.BTypeNamesDistinct | bitfield/impl/src/lib.rs:103-106 | no two width types share a name |
| BitfieldProperties.WidthLimits | bitfield/impl/src/lib.rs:126-155 | 64 is the widest width accepted, 0 is refused, and 9 bits take a `u16` |
| BitfieldProperties.SumWidthsMonotone | bitfield/impl/src/lib.rs:24-25 | the running offset never decreases |
| BitfieldProperties.FieldsContiguous | bitfield/impl/src/lib.rs:14-60 | the first field starts at bit 0, each starts where the previous ends, and the last ends at the total |
| BitfieldProperties.FieldsDisjoint | bitfield/impl/src/lib.rs:14-60 | distinct fields own disjoint bit ranges, all within the total |
| BitfieldProperties.DataLenShort | bitfield/impl/src/lib.rs:68 | as written, a total that is not a multiple of eight leaves the buffer short of it |
| BitfieldProperties.DataLenTooShort | bitfield/impl/src/lib.rs:68 | as written, fields of 4 and 8 bits get one byte while the second field reaches byte 1 |
| BitfieldProperties.CheckedLayoutFits | bitfield/impl/src/lib.rs:68 | with the checked length, every field's bits lie inside the buffer |
| BitfieldProperties.FieldValueBits | bitfield/impl/src/lib.rs:40-45 | bit `k` of the getter's result is buffer bit `start + k`, counted from each byte's top bit |
| BitfieldProperties.ValueBitAbove | bitfield/impl/src/lib.rs:44 | a number below two to the power `n` has no bit at `n` or above |
| BitfieldProperties.FieldValueHighBits | bitfield/impl/src/lib.rs:38-46 | the getter's result has no bits beyond the field's width |
| BitfieldProperties.FieldValueLocal | bitfield/impl/src/lib.rs:40-45 | the getter reads no bits outside its field |
| BitfieldProperties.ByteBitOr | bitfield/impl/src/lib.rs:53-55 | ORing one bit into a byte sets that bit and changes no other |
| BitfieldProperties.OrBitBits | bitfield/impl/src/lib.rs:50-55 | one setter step sets at most its own buffer bit |
| BitfieldProperties.OrFieldBits | bitfield/impl/src/lib.rs:48-56 | after the setter a bit is set exactly when it was set before or it is in the field and the matching value bit is set: nothing is cleared and nothing outside the field changes |
| BitfieldProperties.OrFieldBytesOutside | bitfield/impl/src/lib.rs:48-56 | bytes holding no bit of the field are not written |
| BitfieldProperties.FieldValueOfBits | bitfield/impl/src/lib.rs:40-45 | a field holding the low bits of a value reads back as that value truncated to the width |
| BitfieldProperties.SetThenGet | bitfield/impl/src/lib.rs:38-56 | on a field whose bits are clear, the getter after the setter returns the value truncated to the field's width |
| BitfieldProperties.ZeroBufferClear | bitfield/impl/src/lib.rs:85 | a buffer from `new()` has every bit clear |
| BitfieldProperties.SetLeavesOthers | bitfield/impl/src/lib.rs:48-56 | setting a field leaves every non-overlapping field's value unchanged |
| BitfieldProperties.SetTwiceAccumulates | bitfield/impl/src/lib.rs:55 | a second set keeps the bits of the first value, so the getter sees their union |
| BitfieldProperties.RoundTripOnNew | bitfield/impl/src/lib.rs:37-58 | on a new struct, a field's getter returns what its setter was given, truncated to the field's width |

## Left out

- Spans and `set_span` carry position metadata only and are not modelled. The spacing of punctuation tokens (joint or alone) is dropped from the token model; its one effect on the modelled core is the `..` of the header, below.
- `quote!` emission, and the parsing by `syn` of items, patterns and struct fields, are abstracted to the datatypes above. A `#[sorted]` input that is not an item at all, and a `#[bitfield]` input that is not a struct (the `expect("Not a struct")` panic), are not modelled.
- SeqMain.ParseHeader: an integer literal is a nonempty run of decimal digits. Literal suffixes, `_` separators and radix prefixes are not modelled. syn's refusal of a keyword as the loop variable is not modelled either.
- SeqMain.ParseHeader: a negative literal such as `-5` is read by syn as an integer literal and then fails in `base10_parse` ("Failed to convert"). The model has no sign on literals and fails earlier, at the header, with `ExpectedIntLit`.
- SeqMain.ParseHeader: the source reads `..` as one token (`Token![..]`), which syn accepts only when the first `.` is joint with the second, so `N in 0 . . 5` fails there. The model has no spacing and accepts the two dots written apart as well.
- SeqMain.ParseHeader: an empty invisible group after the stop literal is dropped by `Flatten`, so the model accepts the header. syn 2's `parse2` steps over such trailing groups when it looks for leftover tokens and accepts it as well; the syn version the crate builds against is not part of this model, and an older syn that counts the group as a leftover token would refuse the header.
- SeqFill.Paste: raw identifiers are not modelled. `format_ident!` drops the `r#` prefix when it pastes (`r#foo ~ N` becomes `foo3`), and the model's identifiers carry no such prefix.
- SeqMain.Expansion: `stop + 1` for an inclusive range at `u64::MAX` is the error `StopOverflow`, the panic of a debug build. A release build would wrap to an empty range, which is not modelled.
- Indices and range ends are unbounded naturals kept within `u64` by the range checks. The literal text of an index is its decimal digits, as `Literal::u64_unsuffixed` prints it.
- The `MatchReplace` visitor, `parse_fn` and the `check` attribute walk a function body and strip attributes through `syn`'s visitor library. Only `check_match_arms`, the decision they call, is modelled.
- Name comparison is modelled on characters by code point. Rust compares the UTF-8 bytes of the names, which orders them the same way.
- `size_to_primitive` returns a type name as tokens. It is modelled as a choice of `Primitive`, and `generate_btypes` discards that result as the source does.
- The `println!` in the emitted setter is output only. The emitted `const mod8`, `#[cfg(mod8 = 0)]` and `#[repr(C)]` text is not computed behaviour and is not modelled.
- Bitfield.Storage.Get: the value is an unbounded natural built by addition. Each added bit lands above every bit already set, so this equals the source's `|` into a `u64`.
- Bitfield.Storage.Get: an index past the buffer would panic in the source. This is a precondition of `Get` here, and `BitfieldProperties.CheckedLayoutFits` shows that the checked layout meets it.
- Bitfield.Storage.Set: likewise, a write past the buffer would panic in the source; keeping within the buffer is a precondition of `Set` (and of `SetBit`), met by the checked layout as `BitfieldProperties.CheckedLayoutFits` shows.
- The `builder` and `debug` macros are not part of this model.

## Findings

| source | as written | input that shows it | evidently intended | confidence | as-written member | corrected member |
|---|---|---|---|---|---|---|
| bitfield/impl/src/lib.rs:68 | the buffer is `(total bits) / 8` bytes, rounded down, and any total is accepted | fields of types `B4` and `B8`: 12 bits, a 1-byte buffer, and the second field's getter and setter index byte 1 for bits 8 to 11 | a total that is not a multiple of eight is refused, as the unused `mod8` constant at lines 70-72 and the `#[cfg(mod8 = 0)]` at line 92 aim at | medium, not executed | BitfieldProperties.DataLenTooShort | Bitfield.CheckedLayOut |
