/** The byte-string key space of rows and index entries (sql/keys.go). */
module Keys {
  import opened Common
  import opened Bytes

  /** A table or index id; its length is written as a 32-bit header. */
  type ID = b: bytes | |b| < 0x1_0000_0000

  const ROW: byte := 114 // 'r'
  const INDEX: byte := 105 // 'i'

  function IDHeader(prefix: byte, id: ID): (r: bytes)
    ensures |r| == 5 + |id|
  {
    Pow256Eight();
    [prefix] + BigEndian(|id|, 4) + id
  }

  /** The id written in a key's header, empty when the header is malformed. */
  function KeyID(key: bytes): (id: bytes)
  {
    if |key| >= 5 && 5 + FromBigEndian(key[1..5]) <= |key| then key[5..5 + FromBigEndian(key[1..5])] else []
  }

  /** What follows the header. */
  function KeyRest(key: bytes): (rest: bytes)
  {
    if |key| >= 5 && 5 + FromBigEndian(key[1..5]) <= |key| then key[5 + FromBigEndian(key[1..5])..] else []
  }

  lemma HeaderParses(prefix: byte, id: ID, rest: bytes)
    ensures var key := IDHeader(prefix, id) + rest; key[0] == prefix && KeyID(key) == id && KeyRest(key) == rest
  {
    var key := IDHeader(prefix, id) + rest;
    Pow256Eight();
    BigEndianRoundTrip(|id|, 4);
    assert key[1..5] == BigEndian(|id|, 4);
    assert key[5..5 + |id|] == id;
    assert key[5 + |id|..] == rest;
  }

  function RowKey(tid: ID, pk: bytes): (key: bytes)
    ensures key != [] && key[0] == ROW && KeyID(key) == tid && KeyRest(key) == pk
  {
    HeaderParses(ROW, tid, pk);
    IDHeader(ROW, tid) + pk
  }

  function IndexKey(iid: ID, encoded: bytes): (key: bytes)
    ensures key != [] && key[0] == INDEX && KeyID(key) == iid && KeyRest(key) == encoded
  {
    HeaderParses(INDEX, iid, encoded);
    IDHeader(INDEX, iid) + encoded
  }

  /** `parseRowKey`: the primary key, when `key` starts with the table's row prefix. */
  function ParseRowKey(key: bytes, tid: ID): (r: Option<bytes>)
    ensures forall pk :: r == Some(pk) <==> key == RowKey(tid, pk)
  {
    var header := IDHeader(ROW, tid);
    if |key| < |header| then
      None
    else if key[..|header|] != header then
      None
    else
      assert key == header + key[|header|..];
      Some(key[|header|..])
  }

  /** A key under an index prefix is an entry key of that index, and the rest of it is the value part. */
  lemma IndexPrefixExact(key: bytes, iid: ID, lead: bytes)
    ensures IDHeader(INDEX, iid) + lead <= key
       <==> exists tail :: key == IndexKey(iid, lead + tail)
    ensures IDHeader(INDEX, iid) + lead <= key
        ==> key == IndexKey(iid, lead + key[|IDHeader(INDEX, iid) + lead|..])
  {
    var h := IDHeader(INDEX, iid);
    var tail := if h + lead <= key then key[|h + lead|..] else [];
    assert IndexKey(iid, lead + tail) == h + (lead + tail);
    assert h + lead <= key ==> key == (h + lead) + tail;
    assert (h + lead) + tail == h + (lead + tail);
    forall t | key == IndexKey(iid, lead + t)
      ensures h + lead <= key
    {
      assert IndexKey(iid, lead + t) == h + (lead + t) == (h + lead) + t;
    }
    hide IDHeader, IndexKey;
  }

  /** Keys of one index order as their value parts. */
  lemma IndexKeyOrder(iid: ID, a: bytes, b: bytes)
    ensures Compare(IndexKey(iid, a), IndexKey(iid, b)) == Compare(a, b)
  {
    CompareCommonPrefix(IDHeader(INDEX, iid), a, b);
  }
}
