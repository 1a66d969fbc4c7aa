/** The table layer: `to_tsv_string` writes a header line of keys and one
    line per record, every line ended by a newline; `from_tsv_string` reads
    the first line as the key list and every later line as one record. */
module Table {
  import opened Results
  import opened Text
  import Record

  /** The header line: the keys with a single tab between neighbours. This
      is what the header loop evidently intends; `HeaderAsWritten` is what it
      builds. The two agree whenever the first key is non-empty. */
  function Header(keys: seq<string>): string {
    Join(keys, Tab)
  }

  /** The header loop as written: a tab is pushed before a key only when the
      text built so far is non-empty. So an empty first key leaves no trace,
      not even the tab that should follow it. */
  function HeaderAsWritten(keys: seq<string>): (header: string)
    ensures |keys| >= 1 && keys[0] == [] ==> header == PushKeys([], keys[1..])
    ensures |keys| >= 1 && |keys[0]| > 0 ==> |header| >= |keys[0]| && header[..|keys[0]|] == keys[0]
  {
    if |keys| == 0 then []
    else
      assert [] + keys[0] == keys[0];
      if |keys[0]| > 0 then PushKeysAfterText(keys[0], keys[1..]); PushKeys([], keys)
      else PushKeys([], keys)
  }

  function PushKeys(built: string, keys: seq<string>): string
    decreases |keys|
  {
    if |keys| == 0 then built
    else PushKeys((if |built| > 0 then built + [Tab] else built) + keys[0], keys[1..])
  }

  /** Reading the header back on tabs gives the keys, for any non-empty list
      of tab-free keys (empty keys included). */
  lemma HeaderRoundTrip(keys: seq<string>)
    requires |keys| >= 1
    requires forall i | 0 <= i < |keys| :: Tab !in keys[i]
    ensures Split(Header(keys), Tab) == keys
  {
    SplitJoin(keys, Tab);
  }

  lemma {:induction false} PushKeysAfterText(built: string, keys: seq<string>)
    requires |built| > 0
    ensures PushKeys(built, keys) == if |keys| == 0 then built else built + [Tab] + Join(keys, Tab)
    decreases |keys|
  {
    if |keys| > 0 {
      PushKeysAfterText(built + [Tab] + keys[0], keys[1..]);
    }
  }

  /** With a non-empty first key the loop builds the tab-joined header. */
  lemma HeaderAsWrittenAgrees(keys: seq<string>)
    requires |keys| == 0 || |keys[0]| > 0
    ensures HeaderAsWritten(keys) == Header(keys)
  {
    if |keys| > 0 {
      assert [] + keys[0] == keys[0];
      assert HeaderAsWritten(keys) == PushKeys(keys[0], keys[1..]);
      PushKeysAfterText(keys[0], keys[1..]);
    }
  }

  /** With an empty first key the loop drops the tab after it, so the header
      no longer reads back as its keys. */
  lemma HeaderAsWrittenLosesEmptyFirstKey()
    ensures HeaderAsWritten(["", "value"]) == "value"
    ensures Split(HeaderAsWritten(["", "value"]), Tab) == ["value"]
    ensures Split(Header(["", "value"]), Tab) == ["", "value"]
  {
    HeaderRoundTrip(["", "value"]);
    SplitWithoutSep("value", Tab);
  }

  /** The record lines, in input order. */
  function RecordLines<R>(codec: Record.Codec<R>, records: seq<R>): (lines: seq<string>)
    requires Record.Writable(codec, records)
  {
    seq(|records|, i requires 0 <= i < |records| && codec.toLine.requires(records[i]) => codec.toLine(records[i]))
  }

  /** `to_tsv_string`: the header the loop builds, then one line per
      record, each followed by a newline. */
  function ToTsvString<R>(codec: Record.Codec<R>, records: seq<R>): (block: string)
    requires Record.Writable(codec, records)
    ensures var h := HeaderAsWritten(codec.keys);
      |block| > |h| && block[..|h| + 1] == h + [Newline]
    ensures block[|block| - 1] == Newline
    ensures records == [] ==> block == HeaderAsWritten(codec.keys) + [Newline]
    ensures block == Join([HeaderAsWritten(codec.keys)] + RecordLines(codec, records) + [[]], Newline)
  {
    var lines := [HeaderAsWritten(codec.keys)] + RecordLines(codec, records);
    TerminatedIsJoin(lines, Newline);
    Terminated(lines, Newline)
  }

  /** Every line, when each is line-safe, comes back as one line of the block. */
  lemma ToTsvStringLines<R>(codec: Record.Codec<R>, records: seq<R>)
    requires Record.Writable(codec, records)
    requires LineSafe(HeaderAsWritten(codec.keys))
    requires forall i | 0 <= i < |records| :: LineSafe(codec.toLine(records[i]))
    ensures Lines(ToTsvString(codec, records)) == [HeaderAsWritten(codec.keys)] + RecordLines(codec, records)
  {
    var lines := [HeaderAsWritten(codec.keys)] + RecordLines(codec, records);
    assert forall i | 0 <= i < |lines| :: LineSafe(lines[i]) by {
      forall i | 0 <= i < |lines|
        ensures LineSafe(lines[i])
      {
        if i > 0 {
          assert lines[i] == codec.toLine(records[i - 1]);
        }
      }
    }
    LinesOfTerminated(lines);
  }

  /** The `map(..).collect()` over the data lines: each line is decoded in
      order, and the first failure ends the whole decode. */
  function DecodeLines<R>(codec: Record.Codec<R>, lines: seq<string>, keys: seq<string>): (r: Result<seq<R>>)
    ensures r.Ok? <==> forall i | 0 <= i < |lines| :: codec.fromLine(lines[i], keys).Ok?
    ensures r.Ok? ==> |r.value| == |lines|
    ensures r.Ok? ==> forall i | 0 <= i < |lines| :: codec.fromLine(lines[i], keys) == Ok(r.value[i])
    ensures r.Err? ==> exists i | 0 <= i < |lines| ::
      (forall j | 0 <= j < i :: codec.fromLine(lines[j], keys).Ok?) && codec.fromLine(lines[i], keys) == Err(r.error)
    decreases |lines|
  {
    if |lines| == 0 then Ok([])
    else
      var first :- codec.fromLine(lines[0], keys);
      var rest :- DecodeLines(codec, lines[1..], keys);
      Ok([first] + rest)
  }

  /** `from_tsv_string`: fails when the block has no lines; otherwise splits
      the first line on tabs into keys and decodes every later line with
      them. */
  function FromTsvString<R>(codec: Record.Codec<R>, block: string): (r: Result<seq<R>>)
    ensures block == [] ==> r == Err(NoHeader)
    ensures block != [] ==>
      var keys := Split(Lines(block)[0], Tab);
      (r.Ok? <==> forall i | 1 <= i < |Lines(block)| :: codec.fromLine(Lines(block)[i], keys).Ok?)
    ensures r.Ok? ==>
      var keys := Split(Lines(block)[0], Tab);
      |r.value| == |Lines(block)| - 1 &&
      forall i | 0 <= i < |r.value| :: codec.fromLine(Lines(block)[i + 1], keys) == Ok(r.value[i])
  {
    var lines := Lines(block);
    if |lines| == 0 then Err(NoHeader)
    else DecodeLines(codec, lines[1..], Split(lines[0], Tab))
  }

  /** A block with a header and no data lines decodes to no records,
      whatever its header says: keys are only checked while reading a line. */
  lemma HeaderOnlyDecodesEmpty<R>(codec: Record.Codec<R>, header: string)
    requires LineSafe(header)
    ensures FromTsvString(codec, header + [Newline]) == Ok([])
  {
    LinesOfTerminated([header]);
    assert Terminated([header], Newline) == header + [Newline];
  }

  /** One record: the header line, then the record's line. */
  lemma WritesOne<R>(codec: Record.Codec<R>, record: R)
    requires codec.toLine.requires(record)
    ensures ToTsvString(codec, [record]) == HeaderAsWritten(codec.keys) + [Newline] + codec.toLine(record) + [Newline]
  {
    var h := HeaderAsWritten(codec.keys);
    var l := codec.toLine(record);
    assert [h] + RecordLines(codec, [record]) == [h, l];
    assert [h, l][1..] == [l];
    assert [l][1..] == [];
    assert Terminated([l], Newline) == l + [Newline];
    assert Terminated([h, l], Newline) == h + [Newline] + (l + [Newline]);
  }

  lemma DecodeOne<R>(codec: Record.Codec<R>, line: string, keys: seq<string>)
    ensures DecodeLines(codec, [line], keys)
         == match codec.fromLine(line, keys) case Ok(r) => Ok([r]) case Err(e) => Err(e)
  {
    assert [line][1..] == [];
    assert DecodeLines(codec, [], keys) == Ok([]);
    match codec.fromLine(line, keys)
    case Ok(r) => assert [r] + [] == [r];
    case Err(e) =>
  }

  /** A block of a header line and one data line decodes to the one record
      the data line reads as under the header's keys, or fails as it does. */
  lemma ReadsOne<R>(codec: Record.Codec<R>, header: string, line: string)
    requires LineSafe(header) && LineSafe(line)
    ensures FromTsvString(codec, header + [Newline] + line + [Newline])
         == match codec.fromLine(line, Split(header, Tab)) case Ok(r) => Ok([r]) case Err(e) => Err(e)
  {
    var block := header + [Newline] + line + [Newline];
    TwoLines(header, line);
    assert Lines(block)[1..] == [line];
    DecodeOne(codec, line, Split(header, Tab));
  }

  /** Round trip: decoding the block written from some records gives them
      back, when every line is line-safe and every record reads back from
      its own line under the keys the written header splits into. For a
      codec whose first key is empty those keys are not the codec's own
      (see `EmptyFirstKeyBreaksRoundTrip`). */
  lemma RoundTrip<R>(codec: Record.Codec<R>, records: seq<R>)
    requires Record.Writable(codec, records)
    requires LineSafe(HeaderAsWritten(codec.keys))
    requires forall i | 0 <= i < |records| :: LineSafe(codec.toLine(records[i]))
    requires forall i | 0 <= i < |records| ::
      codec.fromLine(codec.toLine(records[i]), Split(HeaderAsWritten(codec.keys), Tab)) == Ok(records[i])
    ensures FromTsvString(codec, ToTsvString(codec, records)) == Ok(records)
  {
    var block := ToTsvString(codec, records);
    ToTsvStringLines(codec, records);
    var lines := Lines(block);
    assert lines[1..] == RecordLines(codec, records);
    var r := FromTsvString(codec, block);
    assert r.Ok?;
    assert r.value == records;
  }

  /** A codec that checks its keys `""`, `"v"` strictly and reads its one
      record back from its line under those keys. Its records still do not
      survive the table: the written header is `v`, which reads back as the
      single key `v`. */
  function StrictEmptyFirstKey(): Record.Codec<int> {
    Record.Codec(["", "v"], r => "a", (line, keys) => if keys == ["", "v"] then Ok(0) else Err(HeaderMismatch))
  }

  lemma EmptyFirstKeyBreaksRoundTrip()
    ensures StrictEmptyFirstKey().fromLine(StrictEmptyFirstKey().toLine(0), Split(Header(["", "v"]), Tab)) == Ok(0)
    ensures ToTsvString(StrictEmptyFirstKey(), [0]) == "v" + [Newline] + "a" + [Newline]
    ensures FromTsvString(StrictEmptyFirstKey(), ToTsvString(StrictEmptyFirstKey(), [0])) == Err(HeaderMismatch)
  {
    var codec := StrictEmptyFirstKey();
    HeaderRoundTrip(["", "v"]);
    assert HeaderAsWritten(codec.keys) == "v" by {
      assert PushKeys([], ["v"]) == PushKeys("v", []);
    }
    WritesOne(codec, 0);
    SplitWithoutSep("v", Tab);
    ReadsOne(codec, "v", "a");
  }
}
