// The form entries that all parsers produce.
module Forms {
  import opened Bytes

  /** One attribute-value pair. An upload keeps its contents apart, with an empty
      value; `valueLength` is the length of either. */
  datatype Entry = Entry(attr: seq<byte>, value: seq<byte>, valueLength: int,
                         fileName: seq<byte>, contentType: seq<byte>, upload: Option<seq<byte>>)
}
