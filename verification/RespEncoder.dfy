/** The encoder loops of `protocol/encoder.py`. */
module RespEncoder {
  import opened ByteStrings
  import opened Resp

  lemma {:induction false} EncodeItemsSnoc(items: seq<Value>, x: Value)
    ensures EncodeItems(items + [x]) == EncodeItems(items) + Encode(x)
    decreases |items|
  {
    hide Encode;
    if items == [] {
      assert [x][1..] == [];
      assert EncodeItems([x]) == Encode(x) + [];
    } else {
      assert (items + [x])[1..] == items[1..] + [x];
      EncodeItemsSnoc(items[1..], x);
    }
  }

  /** encode_value; nested arrays go through EncodeArray. */
  method EncodeValue(v: Value) returns (r: Bytes)
    ensures r == Encode(v)
    decreases v, 1
  {
    match v
    case Array(items) => r := EncodeArray(v, items);
    case _ => r := Encode(v);
  }

  /** encode_array: the header, then every element in order. */
  method EncodeArray(ghost owner: Value, items: seq<Value>) returns (r: Bytes)
    requires owner == Array(items)
    ensures r == Encode(Array(items))
    decreases owner, 0
  {
    hide Header;
    var parts := Header(STAR, |items|);
    for i := 0 to |items|
      invariant parts == Header(STAR, |items|) + EncodeItems(items[..i])
    {
      var e := EncodeValue(items[i]);
      assert items[..i + 1] == items[..i] + [items[i]];
      EncodeItemsSnoc(items[..i], items[i]);
      parts := parts + e;
    }
    assert items[..|items|] == items;
    r := parts;
  }

  /** encode_command: the header, then every argument as a bulk string. */
  method EncodeArgv(argv: Argv) returns (r: Bytes)
    ensures r == EncodeCommand(argv)
  {
    hide Header, EncodeBulk;
    var items := BulkItems(argv);
    var parts := Header(STAR, |argv|);
    for i := 0 to |argv|
      invariant parts == Header(STAR, |argv|) + EncodeItems(items[..i])
    {
      assert items[..i + 1] == items[..i] + [Bulk(argv[i])];
      EncodeItemsSnoc(items[..i], Bulk(argv[i]));
      parts := parts + EncodeBulk(argv[i]);
    }
    assert items[..|argv|] == items;
    r := parts;
  }
}
