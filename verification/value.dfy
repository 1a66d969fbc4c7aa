/** The scalar layer (`TsvValue`): a total serializer and a parser that may
    fail. The blanket implementation delegates to the type's `to_string` and
    to its `from_str` with the error discarded; those two standard-library
    functions are the parameters of a codec. */
module Value {
  import opened Results
  import opened Text

  datatype Codec<!T> = Codec(serialize: T -> string, deserialize: string -> Option<T>)

  /** The two conditions under which a value survives a table round trip:
      its text parses back to it, and its text can sit in one tab-separated
      part of one line. */
  ghost predicate Faithful<T>(codec: Codec<T>, v: T) {
    codec.deserialize(codec.serialize(v)) == Some(v) && FieldSafe(codec.serialize(v))
  }

  /** `deserialize(..).unwrap()` at field position `index`. */
  function Parse<T>(codec: Codec<T>, text: string, index: nat): (r: Result<T>)
    ensures r.Ok? <==> codec.deserialize(text).Some?
    ensures r.Ok? ==> codec.deserialize(text) == Some(r.value)
    ensures r.Err? ==> r.error == BadValue(index)
  {
    match codec.deserialize(text)
    case Some(v) => Ok(v)
    case None => Err(BadValue(index))
  }

  /** `String`: `to_string` is the identity and `from_str` never fails. */
  function Strings(): (codec: Codec<string>)
    ensures forall s :: codec.deserialize(codec.serialize(s)) == Some(s)
    ensures forall t :: codec.deserialize(t).Some?
  {
    Codec(s => s, s => Some(s))
  }

  /** A string survives a round trip exactly when it is field-safe. */
  lemma StringsFaithful(s: string)
    ensures Faithful(Strings(), s) <==> FieldSafe(s)
  {
  }
}
