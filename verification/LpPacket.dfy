/** `lp::Packet` of NDNLPv2: the fields the link service reads and writes, every
    other header kept as an uninterpreted element, and the sizes of the encoding. */
module LpPackets {
  import opened Basics

  /** A TLV element with its type number and value. */
  datatype Element = Element(typ: nat, value: seq<byte>)

  datatype LpPacket = LpPacket(
    sequence: Option<Sequence>,
    fragIndex: Option<uint64>,
    fragCount: Option<uint64>,
    txSequence: Option<Sequence>,
    acks: seq<Sequence>,
    congestionMark: Option<uint64>,
    headers: seq<Element>,
    fragment: Option<seq<byte>>)

  const EmptyPacket := LpPacket(None, None, None, None, [], None, [], None)

  // ---- sizes of the encoding ----

  /** `tlv::sizeOfVarNumber`: octets of a TLV-TYPE or TLV-LENGTH. */
  function SizeOfVarNumber(n: nat): (r: nat)
    ensures 1 <= r <= 9
  {
    if n < 253 then 1 else if n <= 0xFFFF then 3 else if n <= 0xFFFF_FFFF then 5 else 9
  }

  /** `tlv::sizeOfNonNegativeInteger`. */
  function SizeOfNonNegativeInteger(n: nat): (r: nat)
    ensures 1 <= r <= 8
  {
    if n <= 0xFF then 1 else if n <= 0xFFFF then 2 else if n <= 0xFFFF_FFFF then 4 else 8
  }

  const LP_PACKET := 100
  const FRAGMENT := 80
  const SEQUENCE := 81
  const FRAG_INDEX := 82
  const FRAG_COUNT := 83
  const CONGESTION_MARK := 832
  const TX_SEQUENCE := 840

  /** Octets of an element of type `typ` with a value of `len` octets. */
  function ElementSize(typ: nat, len: nat): nat {
    SizeOfVarNumber(typ) + SizeOfVarNumber(len) + len
  }

  /** A Sequence-valued field always holds 8 octets. */
  function SequenceFieldSize(typ: nat, field: Option<Sequence>): nat {
    if field.Some? then ElementSize(typ, 8) else 0
  }

  /** An integer-valued field holds the shortest nonNegativeInteger. */
  function IntegerFieldSize(typ: nat, field: Option<uint64>): nat {
    if field.Some? then ElementSize(typ, SizeOfNonNegativeInteger(field.value)) else 0
  }

  function HeadersSize(headers: seq<Element>): nat {
    if headers == [] then 0
    else ElementSize(headers[0].typ, |headers[0].value|) + HeadersSize(headers[1..])
  }

  const ACK_SIZE := 12  // TLV-TYPE (3 octets) + TLV-LENGTH (1 octet) + Sequence (8 octets)

  /** All elements other than Fragment. */
  function HeaderSize(p: LpPacket): nat {
    SequenceFieldSize(SEQUENCE, p.sequence) + IntegerFieldSize(FRAG_INDEX, p.fragIndex)
    + IntegerFieldSize(FRAG_COUNT, p.fragCount) + SequenceFieldSize(TX_SEQUENCE, p.txSequence)
    + ACK_SIZE * |p.acks| + IntegerFieldSize(CONGESTION_MARK, p.congestionMark) + HeadersSize(p.headers)
  }

  function FragmentSize(p: LpPacket): nat {
    if p.fragment.Some? then ElementSize(FRAGMENT, |p.fragment.value|) else 0
  }

  /** With no other field than Fragment, the bare network packet is sent. */
  predicate IsBare(p: LpPacket) {
    p.fragment.Some? && p.(fragment := None) == EmptyPacket
  }

  /** `wireEncode().size()`. */
  function WireSize(p: LpPacket): nat {
    if IsBare(p) then |p.fragment.value|
    else ElementSize(LP_PACKET, HeaderSize(p) + FragmentSize(p))
  }

  /** A packet has no field but Fragment exactly when its headers take no space. */
  lemma BareHasNoHeaders(p: LpPacket)
    requires p.fragment.Some?
    ensures IsBare(p) <==> HeaderSize(p) == 0
  {
  }
}
