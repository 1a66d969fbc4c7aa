/** The demonstration struct `Person { name: String, age: u32, livret:
    String }` and its three records, with the blocks they are written to
    and read from. A field value is a `Cell`: text for a `String` field, a
    number for a `u32` field. */
module PersonDemo {
  import opened Results
  import opened Text
  import Value
  import Decimal
  import Derived
  import Pair
  import Record

  datatype Cell = Text(text: string) | Number(number: Decimal.U32)

  /** The cell's own `to_string`. */
  function Render(c: Cell): string {
    match c
    case Text(t) => t
    case Number(n) => Decimal.Show(n)
  }

  function StringCell(): Value.Codec<Cell> {
    Value.Codec(Render, s => Some(Text(s)))
  }

  function U32Cell(): Value.Codec<Cell> {
    Value.Codec(Render, s => match Decimal.Parse(s) case Some(n) => Some(Number(n)) case None => None)
  }

  /** The struct's fields in declared order. Their names are identifiers:
      non-empty and free of tabs and line breaks. */
  function Fields(): (fields: seq<Derived.Field<Cell>>)
    ensures |fields| == 3
    ensures forall i | 0 <= i < |fields| :: |fields[i].name| > 0 && FieldSafe(fields[i].name)
  {
    [Derived.Field("name", StringCell()), Derived.Field("age", U32Cell()), Derived.Field("livret", StringCell())]
  }

  function Person(name: string, age: Decimal.U32, livret: string): seq<Cell> {
    [Text(name), Number(age), Text(livret)]
  }

  function People(): seq<seq<Cell>> {
    [Person("Henning", 44, "Ål"), Person("Søren", 23, "Ristet løg"), Person("Bjarki", 11, "Lasagne")]
  }

  function PairCodec(): Record.Codec<(Decimal.U32, string)> {
    Pair.Codec(Decimal.Codec(), Value.Strings())
  }
}
