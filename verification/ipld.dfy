/** Content identifiers and IPLD values. */
module IpldModel {

  import opened CborHeader

  type Codec = n: nat | n < U64

  /** The digest of a multihash. */
  type Hash = h: seq<Byte> | |h| == 32 witness ZeroHash()

  function ZeroHash(): (h: seq<Byte>)
    ensures |h| == 32
  {
    seq(32, _ => 0)
  }

  datatype Cid = Cid(codec: Codec, hash: Hash)

  const DAG_CBOR: Codec := 0x71

  datatype Ipld =
    | Null
    | Boolean(b: bool)
    | Integer(n: int)
    | Text(utf8: seq<Byte>)
    | Bytes(bytes: seq<Byte>)
    | List(items: seq<Ipld>)
    | Map(entries: seq<Entry>)
    | Link(cid: Cid)

  datatype Entry = Entry(key: seq<Byte>, value: Ipld)

  /** Every link of a value, in the order it is written. */
  function Links(v: Ipld): seq<Cid> {
    match v
    case Link(c) => [c]
    case List(items) => LinksInList(items)
    case Map(entries) => LinksInMap(entries)
    case _ => []
  }

  function LinksInList(vs: seq<Ipld>): seq<Cid> {
    if vs == [] then [] else Links(vs[0]) + LinksInList(vs[1..])
  }

  function LinksInMap(es: seq<Entry>): seq<Cid> {
    if es == [] then [] else Links(es[0].value) + LinksInMap(es[1..])
  }
}
