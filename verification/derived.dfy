/** The record implementation that `impl_tsv!` expands to for a struct,
    given its fields in declared order: the keys are the field names, the
    line writer serializes every field, and the line reader checks the
    header key and parses the value field by field. A struct value is the
    sequence of its field values, one per declared field. */
module Derived {
  import opened Results
  import opened Text
  import Value
  import Record
  import Table

  datatype Field<!V> = Field(name: string, codec: Value.Codec<V>)

  function Names<V>(fields: seq<Field<V>>): (names: seq<string>)
    ensures |names| == |fields|
    ensures forall i | 0 <= i < |fields| :: names[i] == fields[i].name
  {
    seq(|fields|, i requires 0 <= i < |fields| => fields[i].name)
  }

  function Serialized<V>(fields: seq<Field<V>>, values: seq<V>): (texts: seq<string>)
    requires |values| == |fields|
    ensures |texts| == |fields|
    ensures forall i | 0 <= i < |fields| :: texts[i] == fields[i].codec.serialize(values[i])
  {
    seq(|fields|, i requires 0 <= i < |fields| => fields[i].codec.serialize(values[i]))
  }

  /** The writer as expanded: every field's text followed by a tab, then
      one character popped. The result is the texts joined by single tabs:
      no trailing tab, and the empty line for a struct without fields. */
  function ToLine<V>(fields: seq<Field<V>>, values: seq<V>): (line: string)
    requires |values| == |fields|
    ensures line == Join(Serialized(fields, values), Tab)
  {
    var texts := Serialized(fields, values);
    var pushed := Terminated(texts, Tab);
    TerminatedIsJoin(texts, Tab);
    if |texts| > 0 then JoinSnoc(texts, [], Tab); pushed[..|pushed| - 1]
    else pushed
  }

  /** Field `i` passes every check of the reader. */
  predicate Accepts<V>(fields: seq<Field<V>>, i: nat, keys: seq<string>, parts: seq<string>)
    requires i < |fields|
  {
    i < |keys| && keys[i] == fields[i].name && i < |parts| && fields[i].codec.deserialize(parts[i]).Some?
  }

  /** The failure field `i` reports, checks taken in the order the reader
      makes them: the header key exists, it is the field name, the line part
      exists, the part parses. */
  function Rejection<V>(fields: seq<Field<V>>, i: nat, keys: seq<string>, parts: seq<string>): Error
    requires i < |fields|
  {
    if i >= |keys| then MissingKey(i)
    else if keys[i] != fields[i].name then KeyMismatch(i)
    else if i >= |parts| then MissingPart(i)
    else BadValue(i)
  }

  /** Each of `values` is what the field's codec parses from the line part
      at the same position, counting from field `i`. */
  ghost predicate ParsedFrom<V>(fields: seq<Field<V>>, parts: seq<string>, i: nat, values: seq<V>) {
    forall k | 0 <= k < |values| ::
      i + k < |fields| && i + k < |parts| && fields[i + k].codec.deserialize(parts[i + k]) == Some(values[k])
  }

  lemma ParsedFromCons<V>(fields: seq<Field<V>>, parts: seq<string>, i: nat, v: V, rest: seq<V>)
    requires i < |fields| && i < |parts| && fields[i].codec.deserialize(parts[i]) == Some(v)
    requires ParsedFrom(fields, parts, i + 1, rest)
    ensures ParsedFrom(fields, parts, i, [v] + rest)
  {
    var values := [v] + rest;
    forall k | 0 <= k < |values|
      ensures i + k < |fields| && i + k < |parts| && fields[i + k].codec.deserialize(parts[i + k]) == Some(values[k])
    {
      if k == 0 {
        assert values[k] == v && i + k == i;
      } else {
        var m := k - 1;
        assert values[k] == rest[m];
        assert (i + 1) + m < |parts| && fields[(i + 1) + m].codec.deserialize(parts[(i + 1) + m]) == Some(rest[m]);
      }
    }
  }

  /** Field `j` is the first one from field `i` on that fails a check. */
  ghost predicate FirstRejected<V>(fields: seq<Field<V>>, keys: seq<string>, parts: seq<string>, i: nat, j: nat)
    requires i <= j < |fields|
  {
    (forall k | i <= k < j :: Accepts(fields, k, keys, parts)) && !Accepts(fields, j, keys, parts)
  }

  /** The reader from field `i` on: succeeds exactly when every remaining
      field passes, giving one parsed value per remaining field. How it
      fails is stated by `DecodeFieldsRejects`. */
  function DecodeFields<V>(fields: seq<Field<V>>, keys: seq<string>, parts: seq<string>, i: nat): (r: Result<seq<V>>)
    requires i <= |fields|
    ensures r.Ok? <==> forall j | i <= j < |fields| :: Accepts(fields, j, keys, parts)
    ensures r.Ok? ==> |r.value| == |fields| - i
    ensures r.Ok? ==> ParsedFrom(fields, parts, i, r.value)
    decreases |fields| - i
  {
    if i == |fields| then Ok([])
    else if i >= |keys| then
      assert !Accepts(fields, i, keys, parts);
      Err(MissingKey(i))
    else if keys[i] != fields[i].name then
      assert !Accepts(fields, i, keys, parts);
      Err(KeyMismatch(i))
    else if i >= |parts| then
      assert !Accepts(fields, i, keys, parts);
      Err(MissingPart(i))
    else
      var first := Value.Parse(fields[i].codec, parts[i], i);
      if first.Err? then
        assert !Accepts(fields, i, keys, parts);
        Err(first.error)
      else
        assert Accepts(fields, i, keys, parts);
        var next := DecodeFields(fields, keys, parts, i + 1);
        if next.Err? then Err(next.error)
        else
          ParsedFromCons(fields, parts, i, first.value, next.value);
          Ok([first.value] + next.value)
  }

  /** A failing read reports the first field that fails a check, with the
      error of the first check it fails. */
  lemma {:induction false} DecodeFieldsRejects<V>(fields: seq<Field<V>>, keys: seq<string>, parts: seq<string>, i: nat)
    requires i <= |fields|
    ensures var r := DecodeFields(fields, keys, parts, i);
      r.Err? ==> exists j | i <= j < |fields| ::
        FirstRejected(fields, keys, parts, i, j) && r.error == Rejection(fields, j, keys, parts)
    decreases |fields| - i
  {
    var r := DecodeFields(fields, keys, parts, i);
    if r.Err? {
      if !Accepts(fields, i, keys, parts) {
        assert FirstRejected(fields, keys, parts, i, i);
      } else {
        DecodeFieldsRejects(fields, keys, parts, i + 1);
        var j :| i + 1 <= j < |fields| && FirstRejected(fields, keys, parts, i + 1, j)
          && r.error == Rejection(fields, j, keys, parts);
        assert FirstRejected(fields, keys, parts, i, j);
      }
    }
  }

  /** The tab-separated parts of a line. */
  function Parts(line: string): seq<string> {
    Split(line, Tab)
  }

  /** The reader as expanded: the line is split on tabs and the fields are
      read in declared order. */
  function FromLine<V>(fields: seq<Field<V>>, line: string, keys: seq<string>): (r: Result<seq<V>>)
    ensures
      var parts := Parts(line);
      r.Ok? <==> forall j | 0 <= j < |fields| :: Accepts(fields, j, keys, parts)
    ensures
      var parts := Parts(line);
      r.Ok? ==> |r.value| == |fields| && forall j | 0 <= j < |fields| ::
        j < |parts| && fields[j].codec.deserialize(parts[j]) == Some(r.value[j])
    ensures
      var parts := Parts(line);
      r.Err? ==> exists j | 0 <= j < |fields| ::
        FirstRejected(fields, keys, parts, 0, j) && r.error == Rejection(fields, j, keys, parts)
  {
    var parts := Parts(line);
    DecodeFieldsRejects(fields, keys, parts, 0);
    var r := DecodeFields(fields, keys, parts, 0);
    assert r.Ok? ==> forall j | 0 <= j < |fields| :: r.value[j] == r.value[0 + j];
    r
  }

  function Codec<V>(fields: seq<Field<V>>): Record.Codec<seq<V>> {
    Record.Codec(
      Names(fields),
      values requires |values| == |fields| => ToLine(fields, values),
      (line, keys) => FromLine(fields, line, keys))
  }

  function Prefix<T>(s: seq<T>, n: nat): seq<T> {
    if |s| <= n then s else s[..n]
  }

  /** The reader looks at no more header keys and no more line parts than
      there are fields. */
  lemma {:induction false} DecodeFieldsReadsPrefix<V>(fields: seq<Field<V>>, keys: seq<string>, parts: seq<string>, i: nat)
    requires i <= |fields|
    ensures DecodeFields(fields, keys, parts, i)
         == DecodeFields(fields, Prefix(keys, |fields|), Prefix(parts, |fields|), i)
    decreases |fields| - i
  {
    if i < |fields| {
      DecodeFieldsReadsPrefix(fields, keys, parts, i + 1);
      var shortKeys, shortParts := Prefix(keys, |fields|), Prefix(parts, |fields|);
      if i < |keys| && keys[i] == fields[i].name && i < |parts| {
        assert shortKeys[i] == keys[i] && shortParts[i] == parts[i];
      }
    }
  }

  /** Header keys beyond the field count are never examined. */
  lemma IgnoresSurplusKeys<V>(fields: seq<Field<V>>, line: string, keys: seq<string>, surplus: seq<string>)
    ensures FromLine(fields, line, keys + surplus) == FromLine(fields, line, keys)
    requires |keys| >= |fields|
  {
    var parts := Split(line, Tab);
    DecodeFieldsReadsPrefix(fields, keys + surplus, parts, 0);
    DecodeFieldsReadsPrefix(fields, keys, parts, 0);
    assert Prefix(keys + surplus, |fields|) == Prefix(keys, |fields|);
  }

  /** Line parts beyond the field count are never examined. */
  lemma IgnoresExtraParts<V>(fields: seq<Field<V>>, line: string, extra: string, keys: seq<string>)
    requires |Parts(line)| >= |fields|
    ensures FromLine(fields, line + [Tab] + extra, keys) == FromLine(fields, line, keys)
  {
    var parts := Split(line, Tab);
    var longer := Split(line + [Tab] + extra, Tab);
    SplitConcat(line, extra, Tab);
    DecodeFieldsReadsPrefix(fields, keys, longer, 0);
    DecodeFieldsReadsPrefix(fields, keys, parts, 0);
    assert Prefix(longer, |fields|) == Prefix(parts, |fields|);
  }

  /** A record of faithful values reads back from its own line under any
      header that names the fields in declared order at its first
      positions. */
  lemma LineRoundTrip<V>(fields: seq<Field<V>>, values: seq<V>, keys: seq<string>)
    requires |values| == |fields|
    requires forall i | 0 <= i < |fields| :: Value.Faithful(fields[i].codec, values[i])
    requires |keys| >= |fields|
    requires forall i | 0 <= i < |fields| :: keys[i] == fields[i].name
    ensures FromLine(fields, ToLine(fields, values), keys) == Ok(values)
  {
    var texts := Serialized(fields, values);
    if |fields| > 0 {
      SplitJoin(texts, Tab);
    }
    var r := FromLine(fields, ToLine(fields, values), keys);
    assert r.Ok?;
    assert r.value == values;
  }

  /** Round trip of a whole table of structs whose field names are
      field-safe and whose values are all faithful. The first field name
      must be non-empty, as every Rust identifier is; otherwise the header
      loop drops the tab after it. */
  lemma RoundTrip<V>(fields: seq<Field<V>>, records: seq<seq<V>>)
    requires |fields| == 0 || |fields[0].name| > 0
    requires forall i | 0 <= i < |fields| :: FieldSafe(fields[i].name)
    requires forall r | 0 <= r < |records| :: |records[r]| == |fields|
    requires forall r, i | 0 <= r < |records| && 0 <= i < |fields| ::
      Value.Faithful(fields[i].codec, records[r][i])
    ensures Table.FromTsvString(Codec(fields), Table.ToTsvString(Codec(fields), records)) == Ok(records)
  {
    var codec := Codec(fields);
    var names := Names(fields);
    var keys := Split(Table.HeaderAsWritten(names), Tab);
    Table.HeaderAsWrittenAgrees(names);
    JoinLineSafe(names);
    if |fields| > 0 {
      Table.HeaderRoundTrip(names);
    }
    forall r | 0 <= r < |records|
      ensures LineSafe(codec.toLine(records[r]))
      ensures codec.fromLine(codec.toLine(records[r]), keys) == Ok(records[r])
    {
      JoinLineSafe(Serialized(fields, records[r]));
      if |fields| > 0 {
        LineRoundTrip(fields, records[r], keys);
      }
    }
    Table.RoundTrip(codec, records);
  }
}
