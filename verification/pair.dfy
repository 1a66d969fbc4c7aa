/** The built-in record implementation for a pair `(A, B)`: keys `key` and
    `value`, the two scalars on one line separated by a tab. */
module Pair {
  import opened Results
  import opened Text
  import Value
  import Record
  import Table

  /** The pair's keys: two field-safe keys, the first one non-empty, so
      that the header loop writes them tab-joined (`HeaderKeys`). */
  function Keys(): (keys: seq<string>)
    ensures |keys| == 2 && |keys[0]| > 0
    ensures forall i | 0 <= i < |keys| :: FieldSafe(keys[i])
  {
    ["key", "value"]
  }

  /** `format!("{}\t{}")`: the two serialized scalars joined by a tab. */
  function ToLine<A, B>(a: Value.Codec<A>, b: Value.Codec<B>, p: (A, B)): (line: string)
    ensures line == Join([a.serialize(p.0), b.serialize(p.1)], Tab)
  {
    var texts := [a.serialize(p.0), b.serialize(p.1)];
    assert texts[1..] == [b.serialize(p.1)];
    a.serialize(p.0) + [Tab] + b.serialize(p.1)
  }

  /** Reading a pair: the whole key list must equal `Keys()`; then the first
      part is parsed, then the second part must exist and parse. Parts after
      the second are never looked at. */
  function FromLine<A, B>(a: Value.Codec<A>, b: Value.Codec<B>, line: string, keys: seq<string>): (r: Result<(A, B)>)
    ensures keys != Keys() ==> r == Err(HeaderMismatch)
    ensures
      var parts := Split(line, Tab);
      r.Ok? <==> keys == Keys() && |parts| >= 2 && a.deserialize(parts[0]).Some? && b.deserialize(parts[1]).Some?
    ensures
      var parts := Split(line, Tab);
      r.Ok? ==> a.deserialize(parts[0]) == Some(r.value.0) && b.deserialize(parts[1]) == Some(r.value.1)
    ensures
      var parts := Split(line, Tab);
      keys == Keys() && a.deserialize(parts[0]).None? ==> r == Err(BadValue(0))
    ensures
      var parts := Split(line, Tab);
      keys == Keys() && a.deserialize(parts[0]).Some? && |parts| < 2 ==> r == Err(MissingPart(1))
    ensures
      var parts := Split(line, Tab);
      keys == Keys() && a.deserialize(parts[0]).Some? && |parts| >= 2 && b.deserialize(parts[1]).None? ==> r == Err(BadValue(1))
  {
    if keys != Keys() then Err(HeaderMismatch)
    else
      var parts := Split(line, Tab);
      var first :- Value.Parse(a, parts[0], 0);
      if |parts| < 2 then Err(MissingPart(1))
      else
        var second :- Value.Parse(b, parts[1], 1);
        Ok((first, second))
  }

  function Codec<A, B>(a: Value.Codec<A>, b: Value.Codec<B>): Record.Codec<(A, B)> {
    Record.Codec(Keys(), p => ToLine(a, b, p), (line, keys) => FromLine(a, b, line, keys))
  }

  /** The written line splits into exactly the two serialized scalars. */
  lemma LineParts<A, B>(a: Value.Codec<A>, b: Value.Codec<B>, p: (A, B))
    requires Tab !in a.serialize(p.0) && Tab !in b.serialize(p.1)
    ensures Split(ToLine(a, b, p), Tab) == [a.serialize(p.0), b.serialize(p.1)]
  {
    SplitConcat(a.serialize(p.0), b.serialize(p.1), Tab);
    SplitWithoutSep(a.serialize(p.0), Tab);
    SplitWithoutSep(b.serialize(p.1), Tab);
  }

  /** The header line the pair writes, and the keys it reads back as. */
  lemma HeaderKeys()
    ensures Table.HeaderAsWritten(Keys()) == "key\tvalue"
    ensures Split(Table.HeaderAsWritten(Keys()), Tab) == Keys()
  {
    Table.HeaderAsWrittenAgrees(Keys());
    Table.HeaderRoundTrip(Keys());
    assert Join(["key", "value"], Tab) == "key" + [Tab] + Join(["value"], Tab);
  }

  /** A pair of faithful scalars is written as a line-safe line and reads
      back from it. */
  lemma LineRoundTrip<A, B>(a: Value.Codec<A>, b: Value.Codec<B>, p: (A, B))
    requires Value.Faithful(a, p.0) && Value.Faithful(b, p.1)
    ensures LineSafe(ToLine(a, b, p))
    ensures FromLine(a, b, ToLine(a, b, p), Keys()) == Ok(p)
  {
    LineParts(a, b, p);
    JoinLineSafe([a.serialize(p.0), b.serialize(p.1)]);
  }

  /** Text after a second tab-separated part changes nothing. */
  lemma IgnoresExtraParts<A, B>(a: Value.Codec<A>, b: Value.Codec<B>, line: string, extra: string, keys: seq<string>)
    requires |Split(line, Tab)| >= 2
    ensures FromLine(a, b, line + [Tab] + extra, keys) == FromLine(a, b, line, keys)
  {
    SplitConcat(line, extra, Tab);
  }

  /** Any other header is refused, even one with the same keys reordered or
      with keys added. */
  lemma RefusesOtherHeader<A, B>(a: Value.Codec<A>, b: Value.Codec<B>, line: string)
    ensures FromLine(a, b, line, ["value", "key"]) == Err(HeaderMismatch)
    ensures FromLine(a, b, line, ["key", "value", "note"]) == Err(HeaderMismatch)
  {
  }

  /** Round trip of a whole table of pairs of faithful scalars. */
  lemma RoundTrip<A, B>(a: Value.Codec<A>, b: Value.Codec<B>, pairs: seq<(A, B)>)
    requires forall i | 0 <= i < |pairs| :: Value.Faithful(a, pairs[i].0) && Value.Faithful(b, pairs[i].1)
    ensures Table.FromTsvString(Codec(a, b), Table.ToTsvString(Codec(a, b), pairs)) == Ok(pairs)
  {
    var codec := Codec(a, b);
    HeaderKeys();
    Table.HeaderAsWrittenAgrees(Keys());
    JoinLineSafe(Keys());
    forall i | 0 <= i < |pairs|
      ensures LineSafe(codec.toLine(pairs[i]))
      ensures codec.fromLine(codec.toLine(pairs[i]), Keys()) == Ok(pairs[i])
    {
      LineRoundTrip(a, b, pairs[i]);
    }
    Table.RoundTrip(codec, pairs);
  }
}
