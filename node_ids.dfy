/** The earlier identifier of kademlia/node.py, which rejects 0 and renders
    with Python's own hex() and bin(), and its Node record. */
module NodeIds {
  import opened Wrappers
  import opened Ids

  /** The value of a kademlia/node.py ID: 0 < value < 2^160. */
  type PositiveId = v: int | 0 < v < 1461501637330902918203684832716283019655932542976 witness 1

  /** ID(value): raises ValueError unless 0 < value < 2^160. */
  function NewPositiveId(value: int): (r: Result<PositiveId>)
    ensures r.Ok? <==> 0 < value < Pow2(160)
    ensures r.Ok? ==> r.value == value
    ensures r.Err? ==> r.error == ValueError
  {
    TwoTo160();
    if 0 < value < TWO_160 then Ok(value) else Err(ValueError)
  }

  /** denary(): the value itself. */
  function Denary(id: PositiveId): int
  {
    id
  }

  /** hex(): Python's hex(value), "0x" and lower-case digits. */
  function Hex(id: PositiveId): string
  {
    "0x" + Numeral(id, 16)
  }

  /** bin(): Python's bin(value), "0b" and the digits with no padding. */
  function PyBin(id: PositiveId): string
  {
    "0b" + Numeral(id, 2)
  }

  /** Both renderings carry their Python prefix, start with a non-zero digit
      (so bin() is not padded), and read back as the value. */
  lemma RenderingsRoundTrip(id: PositiveId)
    ensures Denary(id) == id
    ensures Hex(id)[..2] == "0x" && PyBin(id)[..2] == "0b"
    ensures ParseNumeral(Hex(id)[2..], 16) == id
    ensures ParseNumeral(PyBin(id)[2..], 2) == id
    ensures Hex(id)[2] != '0' && PyBin(id)[2] == '1'
    ensures |PyBin(id)| <= 162
  {
    assert Hex(id)[2..] == Numeral(id, 16);
    assert PyBin(id)[2..] == Numeral(id, 2);
    NumeralRoundTrip(id, 16);
    NumeralRoundTrip(id, 2);
    NumeralCanonical(id, 16);
    NumeralCanonical(id, 2);
    assert PyBin(id)[2] in DIGITS[..2];
    TwoTo160();
    PaddedNumeral(id, 160);
  }

  /** Node(id, IP, port) keeps the three fields as given. */
  datatype Node = Node(id: PositiveId, ip: string, port: int)

  /** distance(x): the node's id XOR x. */
  function Distance(node: Node, x: int): int
  {
    IntXor(node.id, x)
  }

  /** The distance of a node to its own id is 0, the distance between two
      nodes is symmetric, non-negative and below 2^160, and zero only
      between equal ids. */
  lemma DistanceProperties(a: Node, b: Node)
    ensures Distance(a, a.id) == 0
    ensures Distance(a, b.id) == Distance(b, a.id)
    ensures 0 <= Distance(a, b.id) < Pow2(160)
    ensures Distance(a, b.id) == 0 <==> a.id == b.id
  {
    IntXorProperties(a.id, a.id);
    IntXorProperties(a.id, b.id);
    TwoTo160();
    XorBound(a.id, b.id, 160);
  }
}
