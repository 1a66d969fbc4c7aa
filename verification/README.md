# easy-tsv in Dafny

A model of `easy_tsv`, a small serialiser and parser for tab-separated
values. It has three layers:

- **Scalar layer** (`TsvValue`). A value has a total `serialize` and a
  `deserialize` that may fail. The blanket implementation delegates to the
  type's `to_string` and `from_str`. Modules `Value` and `Decimal`.
- **Record layer** (`TsvSerialize`). A record type has its header `keys`, a
  `to_line` and a `from_line`. There are two implementations:
  - the built-in one for a pair `(A, B)` (module `Pair`);
  - the one the `impl_tsv!` macro expands to for a struct (module `Derived`).
    It is modelled as a codec over a list of declared fields, each a name and a
    scalar codec. A struct value is the sequence of its field values.
- **Table layer** (module `Table`). `to_tsv_string` writes a header line
  built by a loop that puts a tab before each key once the line is
  non-empty. That is the keys joined by tabs whenever the first key is
  non-empty (see "## Findings" for an empty first key). Then it writes one
  line per record. Every line ends with a
  newline. `from_tsv_string` splits the first line on tabs to get the keys.
  It then decodes every later line with those keys.

`Record.Codec` is the trait as a value. It holds the keys, a line writer and
a line reader. `Table` works over any such codec. `Pair.Codec` and
`Derived.Codec` build the two implementations.

Every `unwrap()` and `assert_eq!` that panics in the decoder becomes an `Err`
here. The error names the check that failed: `NoHeader`, `HeaderMismatch`,
`MissingKey(i)`, `KeyMismatch(i)`, `MissingPart(i)` or `BadValue(i)`. A decode
stops at the first failure, in the order the Rust code evaluates its checks.

Module `Text` models the two standard-library string functions the code uses.
`str::split(char)` always yields at least one piece. `str::lines` drops an
empty piece after the final newline, and strips one `'\r'` before a `'\n'`.

The round-trip theorems (`Pair.RoundTrip`, `Derived.RoundTrip` and the
generic `Table.RoundTrip`) assume two things of every value:

- its text parses back to it;
- its text contains no tab and no newline, and does not end in a carriage
  return (`Value.Faithful`).

`PersonDemo` and `PersonVectors` instantiate the model with the
`Person { name, age, livret }` struct of the example program and with
`(u32, String)` pairs. They check concrete blocks.

Where the code is more lenient than a strict reading of the format, the model
follows the code:

- Parts of a data line after the last declared field are ignored.
- Header keys after the last declared field of a struct are ignored.
- Keys are only checked while a data line is decoded. A block with a header
  line and no data lines therefore decodes to no records, whatever its header
  says (`Table.HeaderOnlyDecodesEmpty`). Decoding a block whose header
  mismatches fails only when the block has at least one data line.

## Model

| member | source | states |
|---|---|---|
| Text.Split | src/lib.rs:97 | splitting on a separator yields at least one piece, and no piece contains the separator |
| Text.SplitJoin | src/lib.rs:61 | splitting the tab-join of one or more separator-free pieces gives the pieces back |
| Text.JoinSplit | src/lib.rs:46 | joining the pieces of any split gives the original text back, so a split loses nothing |
| Text.SplitConcat | src/lib.rs:61 | the pieces of `x ++ sep ++ y` are the pieces of `x` followed by the pieces of `y`; this is why extra parts cannot disturb earlier ones |
| Text.Terminated | src/lib.rs:37-40 | writing a terminator after every piece leaves the text ending in that terminator whenever there is a piece |
| Text.TerminatedIsJoin | src/lib.rs:37-40 | appending each line and then a newline is the same as newline-joining the lines with one empty line added at the end |
| Text.JoinLineSafe | src/lib.rs:85-95 | tab-joining pieces that hold no newline and do not end in a carriage return gives a line with the same two properties |
| Text.LinesOfTerminated | src/lib.rs:45 | a block of newline-terminated, line-safe lines reads back under `lines()` as exactly those lines, in order |
| Text.TwoLines | src/lib.rs:45 | a header line and one data line, each newline-terminated, read back as those two lines |
| Text.Lines | src/lib.rs:45-46 | `str::lines` gives no lines exactly for the empty text, so the header `unwrap` fails only on the empty block; no line it gives contains a newline |
| Value.Parse | src/lib.rs:64-65 | `deserialize(..).unwrap()`, here and at src/lib.rs:102: the parsed value when `deserialize` succeeds, otherwise `BadValue` naming the field position |
| Value.Strings | src/lib.rs:11-18 | for `String`, the text of a value parses back to that value, and `from_str` never fails |
| Value.StringsFaithful | src/lib.rs:11-18 | a `String` survives the scalar round trip and the table framing exactly when it has no tab, no newline and no trailing carriage return |
| Decimal.Show | src/lib.rs:12-14 | `to_string` of an unsigned integer is a non-empty run of decimal digits with no leading zero |
| Decimal.Parse | src/lib.rs:15-17 | `u32::from_str` accepts exactly the texts that are one or more digits, with or without one leading `+`, spelling a number below 2^32, leading zeros allowed; the result is the number spelled |
| Decimal.ParseSignAndZeros | src/lib.rs:15-17 | `u32::from_str` accepts a leading `+` and a leading zero in front of a decimal form, giving the same number |
| Decimal.LeadingZero | src/lib.rs:15-17 | a leading zero digit does not change the number a digit run spells |
| Decimal.ParseRejectsEmpty | src/lib.rs:15-17 | `u32::from_str` refuses the empty text and a lone `+` |
| Decimal.ParseRejectsMinus | src/lib.rs:15-17 | `u32::from_str` refuses every text that starts with a minus sign |
| Decimal.ParseRejectsLarge | src/lib.rs:15-17 | `u32::from_str` refuses the decimal form of any number from 2^32 on, with or without a `+` |
| Decimal.NumberOfShow | src/lib.rs:12-14 | the decimal form of a number spells that number |
| Decimal.ParseShow | src/lib.rs:11-18 | parsing the decimal form of any `u32` gives it back |
| Decimal.ShowFieldSafe | src/lib.rs:12-14 | a decimal form never contains a tab, a newline or a carriage return |
| Decimal.CodecFaithful | src/lib.rs:11-18 | every `u32` survives a table round trip |
| Table.HeaderRoundTrip | src/lib.rs:46 | the tab-joined header of one or more tab-free keys splits back into exactly those keys, empty keys included |
| Table.HeaderAsWritten | src/lib.rs:29-35 | the header loop: an empty first key leaves no trace, not even a tab after it; a non-empty first key starts the header |
| Table.HeaderAsWrittenAgrees | src/lib.rs:29-35 | when the first key is non-empty, the header loop builds the keys joined by single tabs, with no leading or trailing tab |
| Table.HeaderAsWrittenLosesEmptyFirstKey | src/lib.rs:29-34 | with keys `""`, `"value"` the loop builds `"value"`, which reads back as one key, not two |
| Table.ToTsvString | src/lib.rs:26-43 | the block starts with the header line the loop builds, and its newline, ends with a newline, is just the header line for no records, and is the header and the record lines in input order, newline-joined with a final newline |
| Table.ToTsvStringLines | src/lib.rs:26-43 | when every line is line-safe, the block's lines are the header the loop builds followed by exactly one line per record, in input order |
| Table.WritesOne | src/lib.rs:26-43 | a single record gives the header the loop builds, a newline, the record's line and a newline |
| Table.DecodeLines | src/lib.rs:48 | decoding succeeds exactly when every line decodes, and then gives one record per line in line order; otherwise it reports the error of the first line that fails |
| Table.DecodeOne | src/lib.rs:48 | one data line gives one record, or its failure |
| Table.FromTsvString | src/lib.rs:44-49 | the empty block fails with no header. Otherwise the first line split on tabs is the key list, and the result holds one record per later line, each that line decoded with those keys; it succeeds exactly when every later line decodes |
| Table.ReadsOne | src/lib.rs:44-49 | a header and one data line decode to the record that line reads as under the header's keys, or to its failure |
| Table.HeaderOnlyDecodesEmpty | src/lib.rs:44-49 | a header with no data lines decodes to no records, whatever the header says |
| Table.RoundTrip | src/lib.rs:26-49 | for any record codec, decoding the written block gives the records back when every line is line-safe and each record reads back from its own line under the keys the written header splits into |
| Table.EmptyFirstKeyBreaksRoundTrip | src/lib.rs:29-34 | a codec with keys `""`, `"v"` that reads its record back under its own keys still fails the table round trip: the block is `v\na\n`, and decoding it fails with a header mismatch |
| Pair.FromLine | src/lib.rs:59-67 | fails with a header mismatch unless the keys are exactly key, value. Then it fails if the first part does not parse, then if there is no second part, then if the second part does not parse; otherwise the pair is the two parsed parts |
| Pair.Keys | src/lib.rs:53-55 | the pair keys are two field-safe keys, the first non-empty |
| Pair.ToLine | src/lib.rs:56-58 | `format!("{}\t{}")` is the two serialized scalars joined by a tab |
| Pair.LineParts | src/lib.rs:56-58 | a pair's line splits into exactly the two serialized scalars, in order |
| Pair.HeaderKeys | src/lib.rs:29-35 | the header loop writes the pair header as `key\tvalue`, which splits back into exactly `key`, `value` |
| Pair.LineRoundTrip | src/lib.rs:56-67 | a pair of faithful scalars is written as a line-safe line and reads back from it under the pair keys |
| Pair.IgnoresExtraParts | src/lib.rs:61-66 | once a line has two parts, text appended after another tab does not change the decode |
| Pair.RefusesOtherHeader | src/lib.rs:60 | reordered keys, or keys with one added, are refused |
| Pair.RoundTrip | src/lib.rs:51-68 | a table of pairs of faithful scalars decodes back to the same pairs |
| Derived.Names | src/lib.rs:80-84 | the keys are the field names, one per field, in declared order |
| Derived.ToLine | src/lib.rs:85-95 | pushing a tab after each field and popping one character gives the serialized fields in declared order joined by single tabs: no trailing tab, and the empty line for a struct with no fields |
| Derived.DecodeFields | src/lib.rs:100-103 | reading from a field position on succeeds exactly when every remaining field passes its checks: key present, key equal to the field name, part present, part parses. It then gives one value per remaining field, each parsed from the line part at that field's position |
| Derived.DecodeFieldsRejects | src/lib.rs:100-103 | a failing read reports the first field that fails a check, with the error of the first check it fails, in the order key present, key equal to the field name, part present, part parses |
| Derived.FromLine | src/lib.rs:96-108 | the line is split on tabs and every declared field checked in order. It succeeds exactly when all pass, giving one value per field parsed from the part at its position; otherwise the first failing field gives the error |
| Derived.DecodeFieldsReadsPrefix | src/lib.rs:97-103 | the reader depends only on as many keys and line parts as there are fields |
| Derived.IgnoresSurplusKeys | src/lib.rs:98-101 | header keys beyond the declared field count never change the decode |
| Derived.IgnoresExtraParts | src/lib.rs:97-102 | line parts beyond the declared field count never change the decode |
| Derived.LineRoundTrip | src/lib.rs:85-108 | a struct of faithful values reads back from its own line under any header that names the fields in order at its first positions |
| Derived.RoundTrip | src/lib.rs:79-109 | a table of structs whose field names are field-safe, the first non-empty, and whose values are faithful decodes back to the same structs, for any number of fields including none |
| PersonDemo.Fields | examples/person.rs:10-16 | the three declared fields have identifier names: non-empty and field-safe |
| PersonVectors.WritesHenning | examples/person.rs:19-37 | the Henning record is written as `name\tage\tlivret\nHenning\t44\tÅl\n` |
| PersonVectors.WritesNobody | examples/person.rs:10-16 | no Person records are written as the header line `name\tage\tlivret\n` alone |
| PersonVectors.PeopleRoundTrip | examples/person.rs:19-40 | the three example records survive writing and reading back |
| PersonVectors.ShortHeaderFails | src/lib.rs:101 | a header with only `name` and `age` fails on the missing third key |
| PersonVectors.SwappedHeaderFails | src/lib.rs:101 | a header starting with `age` fails on the key at position 0 |
| PersonVectors.WritesPairs | src/lib.rs:51-58 | the pairs (1, "a") and (2, "b") are written as `key\tvalue\n1\ta\n2\tb\n` |
| PersonVectors.ReadsPairs | src/lib.rs:59-67 | that block reads back as the same two pairs |

## Left out

- The `macro_rules!` machinery of `impl_tsv!` (src/lib.rs:70-78 and the trailing-comma arm at 111-126) is not modelled. Only what the expansion does is modelled, as `Derived.Codec` over a field list.
- The standard-library `to_string` and `from_str` are foreign calls. They are the two parameters of `Value.Codec`. `Value.Strings` and `Decimal.Codec` model them for `String` and `u32`. Other scalar types are not modelled.
- The text of panic messages is not modelled. A panic is an `Err` value naming the failed check.
- Lifetimes, `IntoIterator` and `String` ownership are not modelled. Records and lines are plain sequences.
- The `main` of examples/person.rs only prints, and relies on the `Debug` derive. Printing is not modelled. Its three records are the test vector of `PersonVectors.PeopleRoundTrip`.
- `Text.Lines` follows the current `str::lines`: a lone carriage return at the end of an unterminated last line is kept. Older releases also dropped it.
- Pair.RoundTrip: assumes that no scalar's text ends in a carriage return. Only the second scalar of a line actually needs this. The stronger assumption keeps one condition, `Value.Faithful`, for every value.
- Derived.RoundTrip: assumes that no field's text ends in a carriage return. Only the last field of a line actually needs this. Field names must be field-safe and the first one non-empty, which every Rust identifier is.

## Findings

| source | as written | input that shows it | evidently intended | confidence | as-written member | corrected member |
|---|---|---|---|---|---|---|
| src/lib.rs:29-34 | The header loop pushes a tab before a key only when the text built so far is non-empty. | Keys `""`, `"value"` give the header `value`, which `from_tsv_string` splits into the single key `value`. | A tab between every two neighbouring keys: `\tvalue`, which splits back into `""`, `"value"`. | not executed; only a hand-written `TsvSerialize` whose first key is empty reaches it, since both built-in implementations have non-empty keys | Table.HeaderAsWritten, used by Table.ToTsvString; shown by Table.HeaderAsWrittenLosesEmptyFirstKey and Table.EmptyFirstKeyBreaksRoundTrip | Table.Header, proved by Table.HeaderRoundTrip; Table.HeaderAsWrittenAgrees shows the two agree whenever the first key is non-empty, which is how the pair and struct round trips reach it |
