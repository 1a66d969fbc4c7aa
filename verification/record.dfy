/** The record layer (`TsvSerialize`): a record type's header keys, its
    line writer and its line reader. The writer may demand a well-formed
    record (a derived struct always has all its fields); the reader is
    total, reporting failure as an `Err`. */
module Record {
  import opened Results

  datatype Codec<!R> = Codec(
    keys: seq<string>,
    toLine: R --> string,
    fromLine: (string, seq<string>) -> Result<R>)

  /** Every record of the sequence can be written. */
  ghost predicate Writable<R>(codec: Codec<R>, records: seq<R>) {
    forall i | 0 <= i < |records| :: codec.toLine.requires(records[i])
  }
}
