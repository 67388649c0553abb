/** Attaching queued Acks to an outgoing packet: how many, and what size results. */
module AckPiggyback {
  import opened Basics
  import opened LpPackets

  const MTU_UNLIMITED := -1
  const MIN_MTU := 64
  const MAX_NDN_PACKET_SIZE := 8800

  function Limit(mtu: int): int {
    if mtu == MTU_UNLIMITED then MAX_NDN_PACKET_SIZE else mtu
  }

  /** Octets kept free for growth of the TLV-LENGTH, computed from the packet size. */
  function ReservedSpace(pktSize: nat): int {
    SizeOfVarNumber(MAX_NDN_PACKET_SIZE) - SizeOfVarNumber(pktSize)
  }

  function RemainingSpace(p: LpPacket, mtu: int): int {
    Limit(mtu) - ReservedSpace(WireSize(p)) - WireSize(p)
  }

  /** How many of `queued` Acks fit in `space` octets. */
  function NumAcks(queued: nat, space: int): (k: nat)
    ensures k <= queued
    ensures k > 0 ==> ACK_SIZE * k <= space
    ensures k < queued ==> space < ACK_SIZE * (k + 1)
  {
    if queued == 0 || ACK_SIZE > space then 0 else 1 + NumAcks(queued - 1, space - ACK_SIZE)
  }

  function WithAcks(p: LpPacket, acks: seq<Sequence>): LpPacket {
    p.(acks := p.acks + acks)
  }

  /** Acks attached to a packet that is not bare add exactly their own size, plus
      whatever the TLV-LENGTH grows. */
  lemma SizeWithAcks(p: LpPacket, acks: seq<Sequence>)
    requires !IsBare(p)
    ensures var len := HeaderSize(p) + FragmentSize(p);
      && WireSize(p) == 1 + SizeOfVarNumber(len) + len
      && WireSize(WithAcks(p, acks)) == 1 + SizeOfVarNumber(len + ACK_SIZE * |acks|) + len + ACK_SIZE * |acks|
  {
    assert |WithAcks(p, acks).acks| == |p.acks| + |acks|;
    if acks == [] { assert WithAcks(p, acks) == p; }
  }

  // ---- sizes from sizes ----

  /** The TLV-LENGTH of an LpPacket of a given size. */
  function LengthOf(size: nat): int {
    if size <= 254 then size - 2 else if size <= 65539 then size - 4
    else if size <= 0x1_0000_0005 then size - 6 else size - 10
  }

  function LpSize(length: int): int {
    1 + SizeOfVarNumber(if length < 0 then 0 else length) + length
  }

  lemma LengthOfSize(length: nat)
    ensures LengthOf(LpSize(length)) == length
  {
  }

  /** An LpPacket of a given size after `more` octets are added. */
  function Grown(size: nat, more: int): int {
    LpSize(LengthOf(size) + more)
  }

  /** Without a limit on the MTU an IDLE packet takes up to 733 Acks, 8800 octets in all. */
  lemma UnlimitedAcks(queued: nat)
    ensures RemainingSpace(EmptyPacket, MTU_UNLIMITED) == 8796 == ACK_SIZE * 733
    ensures NumAcks(queued, RemainingSpace(EmptyPacket, MTU_UNLIMITED)) == if queued < 733 then queued else 733
  {
    hide NumAcks;
    assert WireSize(EmptyPacket) == 2;
  }

  /** The size with Acks follows from the size without, for every MTU. For MTUs up to 65535 a
      packet that fits is pushed over the MTU exactly when its size is 253 or 254, some Ack is
      attached, and fewer than two octets stay free: `ReservedSpace` looks at the packet size
      where the TLV-LENGTH that grows is smaller. Even then the excess is at most two octets.
      Beyond 65535 the reserved space turns negative, and the excess is at most ten. */
  lemma OverMtuExactly(p: LpPacket, mtu: int, acks: seq<Sequence>)
    requires !IsBare(p) && WireSize(p) <= Limit(mtu)
    requires |acks| > 0 ==> ACK_SIZE * |acks| <= RemainingSpace(p, mtu)
    ensures var size, size', more := WireSize(p), WireSize(WithAcks(p, acks)), ACK_SIZE * |acks|;
      && size' == Grown(size, more)
      && (Limit(mtu) <= 65535 ==>
            && (size' > Limit(mtu) <==> (size == 253 || size == 254) && |acks| > 0 && size + more + 2 > Limit(mtu))
            && size' <= Limit(mtu) + 2)
      && size' <= Limit(mtu) + 10
  {
    hide HeaderSize, FragmentSize, IsBare, WireSize;
    SizeWithAcks(p, acks);
    var len, more := HeaderSize(p) + FragmentSize(p), ACK_SIZE * |acks|;
    LengthOfSize(len);
    GrowthCase(len, more, Limit(mtu));
  }

  lemma GrowthCase(len: nat, more: nat, limit: int)
    requires var size := LpSize(len);
      size <= limit && (more > 0 ==> more <= limit - ReservedSpace(size) - size)
    requires more > 0 ==> more >= 12
    ensures var size, size' := LpSize(len), LpSize(len + more);
      && (limit <= 65535 ==>
            && (size' > limit <==> (size == 253 || size == 254) && more > 0 && size + more + 2 > limit)
            && size' <= limit + 2)
      && size' <= limit + 10
  {
  }

  /** The excess is real: one Ack takes a packet of 253 octets from within an MTU of
      265 to 267 octets. */
  lemma OverMtuExample(payload: seq<byte>, ack: Sequence)
    requires |payload| == 239
    ensures var p := EmptyPacket.(sequence := Some(0), fragment := Some(payload));
      && WireSize(p) == 253 && NumAcks(1, RemainingSpace(p, 265)) == 1
      && WireSize(WithAcks(p, [ack])) == 267
  {
    var p := EmptyPacket.(sequence := Some(0), fragment := Some(payload));
    SizeWithAcks(p, [ack]);
    assert HeaderSize(p) + FragmentSize(p) == 251;
  }

  /** An IDLE packet takes an Ack exactly when the MTU is at least 16: below that the
      idle loop would never end. */
  lemma IdleProgress(queued: nat, mtu: int)
    requires queued > 0
    ensures NumAcks(queued, RemainingSpace(EmptyPacket, mtu)) > 0 <==> mtu == MTU_UNLIMITED || mtu >= 16
  {
    assert WireSize(EmptyPacket) == 2;
  }
}
