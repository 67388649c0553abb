/** `LpReassembler`: putting fragments back together, keyed by remote endpoint and
    message identifier. */
module LpReassemblers {
  import opened Basics
  import opened LpPackets
  import opened LpFragmenters

  datatype Key = Key(endpoint: nat, messageIdentifier: Sequence)

  /** A slot is filled once its packet has a Sequence. */
  datatype PartialPacket = PartialPacket(fragments: seq<LpPacket>, fragCount: nat, nReceivedFragments: nat)

  type PartialPackets = map<Key, PartialPacket>

  /** A completed packet: the payload and the first fragment with its other headers. */
  datatype Reassembled = Reassembled(netPkt: seq<byte>, firstFrag: LpPacket)

  function FragIndexOf(p: LpPacket): uint64 {
    if p.fragIndex.Some? then p.fragIndex.value else 0
  }

  function FragCountOf(p: LpPacket): uint64 {
    if p.fragCount.Some? then p.fragCount.value else 1
  }

  /** The Sequence of the first fragment of the message this one belongs to. */
  function MessageIdentifier(s: Sequence, fragIndex: uint64): Sequence {
    Wrap(s + TWO64 - fragIndex)
  }

  function NewPartialPacket(fragCount: nat): PartialPacket {
    PartialPacket(seq(fragCount, _ => EmptyPacket), fragCount, 0)
  }

  ghost predicate SlotsOk(pps: PartialPackets) {
    forall k :: k in pps ==> |pps[k].fragments| == pps[k].fragCount
  }

  // ---- specification ----

  /** What `receiveFragment` does to the partial packets and what it returns. */
  ghost function Receive(pps: PartialPackets, nMaxFragments: nat, endpoint: nat, p: LpPacket)
    : (r: (PartialPackets, Option<Reassembled>))
    requires SlotsOk(pps)
    ensures SlotsOk(r.0)
  {
    var i, n := FragIndexOf(p), FragCountOf(p);
    if i >= n || n > nMaxFragments then (pps, None)
    else if i == 0 && n == 1 then (pps, Some(Reassembled(Payload(p), p)))
    else if p.sequence.None? then (pps, None)
    else
      var key := Key(endpoint, MessageIdentifier(p.sequence.value, i));
      var pps1 := if key in pps then pps else pps[key := NewPartialPacket(n)];
      var pp := pps1[key];
      if n != pp.fragCount || pp.fragments[i].sequence.Some? then (pps1, None)
      else
        var pp' := PartialPacket(pp.fragments[i := p], n, pp.nReceivedFragments + 1);
        if pp'.nReceivedFragments == pp'.fragCount
        then (pps1 - {key}, Some(Reassembled(JoinPayloads(pp'.fragments), pp'.fragments[0])))
        else (pps1[key := pp'], None)
  }

  /** A fragment out of range, or of several and without a Sequence, changes nothing and gives
      nothing; a packet in one piece is given out at once. */
  lemma ReceiveRefuses(pps: PartialPackets, nMaxFragments: nat, endpoint: nat, p: LpPacket)
    requires SlotsOk(pps)
    ensures var i, n := if p.fragIndex.Some? then p.fragIndex.value else 0, if p.fragCount.Some? then p.fragCount.value else 1;
      && (i >= n || n > nMaxFragments || (n > 1 && p.sequence.None?) ==>
            Receive(pps, nMaxFragments, endpoint, p) == (pps, None))
      && (i == 0 && n == 1 <= nMaxFragments ==>
            Receive(pps, nMaxFragments, endpoint, p) == (pps, Some(Reassembled(Payload(p), p))))
  {
  }

  /** Any other fragment touches the message of its own endpoint and first Sequence only, and
      not even that if the message has another FragCount or the slot is filled. */
  lemma ReceiveTouchesOne(pps: PartialPackets, nMaxFragments: nat, endpoint: nat, p: LpPacket, k: Key)
    requires SlotsOk(pps) && p.sequence.Some? && p.fragIndex.Some? && p.fragCount.Some?
    requires p.fragIndex.value < p.fragCount.value <= nMaxFragments && p.fragCount.value > 1
    ensures var (pps', r), i, n := Receive(pps, nMaxFragments, endpoint, p), p.fragIndex.value, p.fragCount.value;
      if k != Key(endpoint, (p.sequence.value + TWO64 - i) % TWO64) then
        (k in pps' <==> k in pps) && (k in pps ==> pps'[k] == pps[k])
      else
        && (k in pps && (pps[k].fragCount != n || pps[k].fragments[i].sequence.Some?) ==> pps' == pps && r == None)
        && (k in pps' ==> pps'[k].fragCount == if k in pps then pps[k].fragCount else n)
  {
    hide NewPartialPacket, JoinPayloads;
    NewSlots(p.fragCount.value);
  }

  lemma NewSlots(n: nat)
    ensures NewPartialPacket(n).fragCount == n == |NewPartialPacket(n).fragments|
    ensures NewPartialPacket(n).nReceivedFragments == 0
    ensures forall i :: 0 <= i < n ==> NewPartialPacket(n).fragments[i].sequence == None
  {
  }

  // ---- the class ----

  class LpReassembler {
    const nMaxFragments: nat
    var partialPackets: PartialPackets

    ghost predicate Valid()
      reads this
    {
      SlotsOk(partialPackets)
    }

    constructor (nMaxFragments: nat)
      ensures Valid() && this.nMaxFragments == nMaxFragments && partialPackets == map[]
    {
      this.nMaxFragments := nMaxFragments;
      partialPackets := map[];
    }

    method ReceiveFragment(remoteEndpoint: nat, packet: LpPacket) returns (result: Option<Reassembled>)
      requires Valid() && packet.fragment.Some?
      modifies this
      ensures Valid()
      ensures (partialPackets, result) == Receive(old(partialPackets), nMaxFragments, remoteEndpoint, packet)
    {
      var fragIndex, fragCount: uint64 := 0, 1;
      if packet.fragIndex.Some? {
        fragIndex := packet.fragIndex.value;
      }
      if packet.fragCount.Some? {
        fragCount := packet.fragCount.value;
      }
      if fragIndex >= fragCount || fragCount > nMaxFragments {
        return None;
      }
      if fragIndex == 0 && fragCount == 1 {
        return Some(Reassembled(packet.fragment.value, packet));
      }
      if packet.sequence.None? {
        return None;
      }
      var key := Key(remoteEndpoint, MessageIdentifier(packet.sequence.value, fragIndex));
      if key !in partialPackets {
        partialPackets := partialPackets[key := NewPartialPacket(fragCount)];
      }
      ghost var pps1 := partialPackets;
      var pp := partialPackets[key];
      if fragCount != pp.fragCount {
        return None;
      }
      if pp.fragments[fragIndex].sequence.Some? {
        return None;
      }
      pp := PartialPacket(pp.fragments[fragIndex := packet], pp.fragCount, pp.nReceivedFragments + 1);
      partialPackets := partialPackets[key := pp];
      if pp.nReceivedFragments == pp.fragCount {
        var reassembled := DoReassembly(pp.fragments);
        partialPackets := partialPackets - {key};
        assert partialPackets == pps1 - {key};
        return Some(Reassembled(reassembled, pp.fragments[0]));
      }
      return None;
    }

    /** A partial packet is dropped when no fragment arrived in time. */
    method TimeoutPartialPacket(key: Key)
      requires Valid()
      modifies this
      ensures Valid() && partialPackets == old(partialPackets) - {key}
    {
      if key in partialPackets {
        partialPackets := partialPackets - {key};
      }
    }
  }

  /** Copies the payloads one after another into a buffer of their total size. */
  method DoReassembly(fragments: seq<LpPacket>) returns (netPkt: seq<byte>)
    ensures netPkt == JoinPayloads(fragments)
  {
    hide JoinPayloads;
    var payloadSize := TotalPayload(fragments);
    var fragBuffer := new byte[payloadSize];
    var it := 0;
    JoinNone(fragments);
    for i := 0 to |fragments|
      invariant it == |JoinPayloads(fragments[..i])| <= fragBuffer.Length
      invariant fragBuffer[..it] == JoinPayloads(fragments[..i])
    {
      JoinPrefix(fragments, i);
      JoinBounded(fragments, i + 1);
      it := CopyTo(fragBuffer, it, Payload(fragments[i]));
    }
    assert fragments[..|fragments|] == fragments;
    netPkt := fragBuffer[..];
  }

  method TotalPayload(fragments: seq<LpPacket>) returns (payloadSize: nat)
    ensures payloadSize == |JoinPayloads(fragments)|
  {
    hide JoinPayloads;
    payloadSize := 0;
    JoinNone(fragments);
    for i := 0 to |fragments|
      invariant payloadSize == |JoinPayloads(fragments[..i])|
    {
      JoinPrefix(fragments, i);
      payloadSize := payloadSize + |Payload(fragments[i])|;
    }
    assert fragments[..|fragments|] == fragments;
  }

  /** `std::copy` into the buffer at position `it`. */
  method CopyTo(buffer: array<byte>, it: nat, payload: seq<byte>) returns (end: nat)
    requires it + |payload| <= buffer.Length
    modifies buffer
    ensures end == it + |payload|
    ensures buffer[..end] == old(buffer[..it]) + payload
  {
    end := it + |payload|;
    forall j | 0 <= j < |payload| {
      buffer[it + j] := payload[j];
    }
  }

  lemma JoinNone(fragments: seq<LpPacket>)
    ensures JoinPayloads(fragments[..0]) == []
  {
  }

  lemma JoinPrefix(fragments: seq<LpPacket>, i: nat)
    requires i < |fragments|
    ensures JoinPayloads(fragments[..i + 1]) == JoinPayloads(fragments[..i]) + Payload(fragments[i])
  {
    assert fragments[..i + 1] == fragments[..i] + [fragments[i]];
    JoinAppend(fragments[..i], fragments[i]);
  }

  lemma {:induction false} JoinBounded(fragments: seq<LpPacket>, i: nat)
    requires i <= |fragments|
    ensures |JoinPayloads(fragments[..i])| <= |JoinPayloads(fragments)|
    decreases |fragments| - i
  {
    if i == |fragments| {
      assert fragments[..i] == fragments;
    } else {
      JoinPrefix(fragments, i);
      JoinBounded(fragments, i + 1);
    }
  }
}
