/** The blocks the demonstration records and a two-pair table are written
    to, and what reading some blocks gives, including two headers that
    are refused. */
module PersonVectors {
  import opened Results
  import opened Text
  import Value
  import Decimal
  import Table
  import Derived
  import Record
  import Pair
  import opened PersonDemo

  lemma PersonHeader()
    ensures Table.HeaderAsWritten(Derived.Codec(Fields()).keys) == "name\tage\tlivret"
  {
    assert Derived.Names(Fields()) == ["name", "age", "livret"];
    Table.HeaderAsWrittenAgrees(["name", "age", "livret"]);
    assert Join(["name", "age", "livret"], Tab) == "name\tage\tlivret";
  }

  lemma HenningLine()
    ensures Derived.Codec(Fields()).toLine(Person("Henning", 44, "Ål")) == "Henning\t44\tÅl"
  {
    assert Decimal.Show(44) == "44";
    assert Derived.Serialized(Fields(), Person("Henning", 44, "Ål")) == ["Henning", "44", "Ål"];
    assert Join(["Henning", "44", "Ål"], Tab) == "Henning\t44\tÅl";
  }

  /** `Table.WritesOne` with the header and the line given as literals.
      Stating it over an abstract codec keeps the verifier from unfolding
      the concrete codec while it compares the literal block. */
  lemma WritesHenningLines<R>(codec: Record.Codec<R>, record: R)
    requires codec.toLine.requires(record)
    requires Table.HeaderAsWritten(codec.keys) == "name\tage\tlivret"
    requires codec.toLine(record) == "Henning\t44\tÅl"
    ensures Table.ToTsvString(codec, [record]) == "name\tage\tlivret\nHenning\t44\tÅl\n"
  {
    Table.WritesOne(codec, record);
  }

  /** One record is written as the header line and one data line. */
  lemma WritesHenning()
    ensures Table.ToTsvString(Derived.Codec(Fields()), [Person("Henning", 44, "Ål")])
         == "name\tage\tlivret\nHenning\t44\tÅl\n"
  {
    PersonHeader();
    HenningLine();
    WritesHenningLines(Derived.Codec(Fields()), Person("Henning", 44, "Ål"));
  }

  /** No records: the header line alone. */
  lemma WritesNobody()
    ensures Table.ToTsvString(Derived.Codec(Fields()), []) == "name\tage\tlivret\n"
  {
    PersonHeader();
  }

  /** The three demonstration records survive a round trip. */
  lemma PeopleRoundTrip()
    ensures Table.FromTsvString(Derived.Codec(Fields()), Table.ToTsvString(Derived.Codec(Fields()), People()))
         == Ok(People())
  {
    var fields := Fields();
    var people := People();
    forall r, i | 0 <= r < |people| && 0 <= i < |fields|
      ensures Value.Faithful(fields[i].codec, people[r][i])
    {
      if i == 1 {
        Decimal.ParseShow(people[r][i].number);
        Decimal.ShowFieldSafe(people[r][i].number);
      }
    }
    Derived.RoundTrip(fields, people);
  }

  lemma Parse44()
    ensures Decimal.Parse("44") == Some(44)
  {
    assert Decimal.Show(44) == "44";
    Decimal.ParseShow(44);
  }

  lemma ShortHeaderLine()
    ensures Derived.FromLine(Fields(), "Henning\t44", ["name", "age"]) == Err(MissingKey(2))
  {
    assert Join(["Henning", "44"], Tab) == "Henning\t44";
    SplitJoin(["Henning", "44"], Tab);
    Parse44();
  }

  /** `Table.ReadsOne` with the blocks written as literals and the keys
      named. Stating it over an abstract codec and named keys keeps the
      verifier from unfolding `Split` and `Lines` on the literal block. */
  lemma ReadsTwoLines<R>(codec: Record.Codec<R>, header: string, line: string, keys: seq<string>)
    requires LineSafe(header) && LineSafe(line)
    requires Split(header, Tab) == keys
    ensures Table.FromTsvString(codec, header + "\n" + line + "\n")
         == match codec.fromLine(line, keys) case Ok(r) => Ok([r]) case Err(e) => Err(e)
  {
    Table.ReadsOne(codec, header, line);
  }

  /** The short header block's lines are line-safe. */
  lemma ShortLinesSafe()
    ensures LineSafe("name\tage") && LineSafe("Henning\t44")
  {
  }

  /** The short header reads as the keys `name`, `age`. */
  lemma ShortHeaderKeys()
    ensures Split("name\tage", Tab) == ["name", "age"]
  {
    assert Join(["name", "age"], Tab) == "name\tage";
    SplitJoin(["name", "age"], Tab);
  }

  /** A header that stops before the third field fails on its missing key. */
  lemma ShortHeaderFails()
    ensures Table.FromTsvString(Derived.Codec(Fields()), "name\tage" + "\n" + "Henning\t44" + "\n") == Err(MissingKey(2))
  {
    ShortLinesSafe();
    ShortHeaderKeys();
    ShortHeaderLine();
    ReadsTwoLines(Derived.Codec(Fields()), "name\tage", "Henning\t44", ["name", "age"]);
  }

  lemma SwappedHeaderLine()
    ensures Derived.FromLine(Fields(), "44\tHenning\tÅl", ["age", "name", "livret"]) == Err(KeyMismatch(0))
  {
  }

  /** The swapped header block's lines are line-safe. */
  lemma SwappedLinesSafe()
    ensures LineSafe("age\tname\tlivret") && LineSafe("44\tHenning\tÅl")
  {
  }

  /** The swapped header reads as the keys `age`, `name`, `livret`. */
  lemma SwappedHeaderKeys()
    ensures Split("age\tname\tlivret", Tab) == ["age", "name", "livret"]
  {
    assert Join(["age", "name", "livret"], Tab) == "age\tname\tlivret";
    SplitJoin(["age", "name", "livret"], Tab);
  }

  /** A header with the first two fields swapped fails at position 0. */
  lemma SwappedHeaderFails()
    ensures Table.FromTsvString(Derived.Codec(Fields()), "age\tname\tlivret" + "\n" + "44\tHenning\tÅl" + "\n") == Err(KeyMismatch(0))
  {
    SwappedLinesSafe();
    SwappedHeaderKeys();
    SwappedHeaderLine();
    ReadsTwoLines(Derived.Codec(Fields()), "age\tname\tlivret", "44\tHenning\tÅl", ["age", "name", "livret"]);
  }

  lemma PairLines()
    ensures PairCodec().toLine((1, "a")) == "1\ta"
    ensures PairCodec().toLine((2, "b")) == "2\tb"
  {
    assert Decimal.Show(1) == "1" && Decimal.Show(2) == "2";
  }

  /** The block for two records, for any codec with this header and lines;
      stated over an abstract codec for the same reason as
      `WritesHenningLines`. */
  lemma WritesPairLines<R>(codec: Record.Codec<R>, first: R, second: R)
    requires codec.toLine.requires(first) && codec.toLine.requires(second)
    requires Table.HeaderAsWritten(codec.keys) == "key\tvalue"
    requires codec.toLine(first) == "1\ta" && codec.toLine(second) == "2\tb"
    ensures Table.ToTsvString(codec, [first, second]) == "key\tvalue\n1\ta\n2\tb\n"
  {
    var lines := [Table.HeaderAsWritten(codec.keys)] + Table.RecordLines(codec, [first, second]);
    assert lines == ["key\tvalue", "1\ta", "2\tb"];
    assert lines[1..][1..][1..] == [];
    assert Terminated(lines[1..][1..], Newline) == "2\tb\n";
    assert Terminated(lines[1..], Newline) == "1\ta\n2\tb\n";
  }

  /** Pairs of a `u32` and a `String` under the keys `key` and `value`. */
  lemma WritesPairs()
    ensures Table.ToTsvString(PairCodec(), [(1, "a"), (2, "b")]) == "key\tvalue\n1\ta\n2\tb\n"
  {
    PairLines();
    Pair.HeaderKeys();
    WritesPairLines(PairCodec(), (1, "a"), (2, "b"));
  }

  /** Reading that block back gives the same two pairs. */
  lemma ReadsPairs()
    ensures Table.FromTsvString(PairCodec(), "key\tvalue\n1\ta\n2\tb\n") == Ok([(1, "a"), (2, "b")])
  {
    var pairs: seq<(Decimal.U32, string)> := [(1, "a"), (2, "b")];
    WritesPairs();
    forall i | 0 <= i < |pairs|
      ensures Value.Faithful(Decimal.Codec(), pairs[i].0) && Value.Faithful(Value.Strings(), pairs[i].1)
    {
      Decimal.CodecFaithful(pairs[i].0);
    }
    Pair.RoundTrip(Decimal.Codec(), Value.Strings(), pairs);
  }
}
