/** Congestion marking of outgoing packets by the CoDel control law (section 5 of
    RFC 8289), and the last steps of `sendLpPacket` that come after it. */
module CongestionMarking {
  import opened Basics
  import opened LpPackets
  import opened AckPiggyback
  import opened LpReliabilityService
  import opened LpFragmenters
  import opened LinkSender

  /** The base interval divided by the square root of `n`, truncated to nanoseconds. */
  function Interval(base: nat, n: nat): (d: nat)
    requires n >= 1
    ensures d * d * n <= base * base
    ensures d < base ==> base * base < (d + 1) * (d + 1) * n
  {
    Search(base, n, base)
  }

  function Search(base: nat, n: nat, d: nat): (r: nat)
    requires n >= 1 && (d < base ==> base * base < (d + 1) * (d + 1) * n)
    ensures r * r * n <= base * base
    ensures r < base ==> base * base < (r + 1) * (r + 1) * n
  {
    if d == 0 || d * d * n <= base * base then d else Search(base, n, d - 1)
  }

  lemma FirstInterval(base: nat)
    ensures Interval(base, 1) == base
  {
    var d := Interval(base, 1);
    if d < base {
      assert (d + 1) * (d + 1) <= base * base by {
        MulBoth(d + 1, base);
      }
    }
  }

  lemma MulBoth(a: nat, b: nat)
    requires a <= b
    ensures a * a <= b * b
  {
  }

  /** The intervals as a face computes them: after the base interval, `later(n)` is what the
      division by the square root of `n` comes to in floating point. */
  datatype Intervals = Intervals(base: nat, later: nat -> nat)

  /** The sum of the first `k` intervals. */
  ghost function Elapsed(i: Intervals, k: nat): nat {
    if k == 0 then 0 else if k == 1 then i.base else Elapsed(i, k - 1) + i.later(k)
  }

  ghost function ExactElapsed(base: nat, k: nat): nat {
    if k == 0 then 0 else ExactElapsed(base, k - 1) + Interval(base, k)
  }

  /** Divisions that lose nothing give the sum of the exact quotients, truncated. */
  lemma {:induction false} ElapsedWithoutRounding(i: Intervals, k: nat)
    requires forall n :: n >= 2 ==> i.later(n) == Interval(i.base, n)
    ensures Elapsed(i, k) == ExactElapsed(i.base, k)
  {
    hide Interval;
    if k == 1 {
      FirstInterval(i.base);
      assert ExactElapsed(i.base, 0) == 0;
    } else if k > 1 {
      ElapsedWithoutRounding(i, k - 1);
    }
  }

  /** An incident of congestion: when it began, and when its packets were marked. */
  datatype Incident = Incident(begin: int, marks: seq<int>)

  /** The k-th mark of an incident comes no earlier than the sum of the first k
      intervals after its beginning. */
  ghost predicate NeverEarly(intervals: Intervals, i: Incident) {
    forall k :: 0 <= k < |i.marks| ==> i.marks[k] >= i.begin + Elapsed(intervals, k + 1)
  }

  class CongestionMarker {
    const intervals: Intervals
    const threshold: nat
    var nextMarkTime: Option<int>  // None is TimePoint::max()
    var nMarkedSinceInMarkingState: nat
    var nCongestionMarked: nat

    ghost var incident: Option<Incident>
    ghost var allMarks: nat

    /** Outside an incident there is no next mark time; inside, it is fixed by the
        beginning and the number of marks, and the counter counts the marks. */
    ghost predicate Valid()
      reads this
    {
      && nCongestionMarked == allMarks
      && match incident
         case None => nextMarkTime == None && nMarkedSinceInMarkingState == 0
         case Some(i) =>
           && nMarkedSinceInMarkingState == |i.marks|
           && nextMarkTime == Some(i.begin + Elapsed(intervals, |i.marks| + 1))
           && NeverEarly(intervals, i)
    }

    constructor (intervals: Intervals, threshold: nat)
      ensures Valid() && incident == None && this.intervals == intervals && this.threshold == threshold
    {
      this.intervals, this.threshold := intervals, threshold;
      nextMarkTime, nMarkedSinceInMarkingState, nCongestionMarked := None, 0, 0;
      incident, allMarks := None, 0;
    }

    /** What an incident becomes when a packet is sent. */
    ghost function Next(sendQueueLength: int, now: int): (r: (Option<Incident>, bool))
      reads this
    {
      if sendQueueLength < 0 then (incident, false)
      else if sendQueueLength <= threshold then (None, false)
      else
        match incident
        case None => (Some(Incident(now, [])), false)
        case Some(i) =>
          if now >= i.begin + Elapsed(intervals, |i.marks| + 1)
          then (Some(Incident(i.begin, i.marks + [now])), true)
          else (incident, false)
    }

    method CheckCongestionLevel(sendQueueLength: int, now: int) returns (mark: bool)
      requires Valid()
      modifies this
      ensures Valid() && (incident, mark) == old(Next(sendQueueLength, now))
      ensures allMarks == old(allMarks) + if mark then 1 else 0
      ensures mark <==> sendQueueLength > threshold && old(nextMarkTime).Some? && now >= old(nextMarkTime).value
      ensures sendQueueLength > threshold && old(nextMarkTime) == None ==> nextMarkTime == Some(now + intervals.base)
      ensures 0 <= sendQueueLength <= threshold ==> nextMarkTime == None
      ensures sendQueueLength < 0 ==> nextMarkTime == old(nextMarkTime)
      ensures mark ==>
        nextMarkTime == Some(old(nextMarkTime).value + intervals.later(old(nMarkedSinceInMarkingState) + 2))
    {
      mark := false;
      if sendQueueLength < 0 { return; }
      if sendQueueLength > threshold {
        if nextMarkTime == None {
          nextMarkTime := Some(now + intervals.base);
          incident := Some(Incident(now, []));
        } else if now >= nextMarkTime.value {
          mark := true;
          nCongestionMarked := nCongestionMarked + 1;
          nMarkedSinceInMarkingState := nMarkedSinceInMarkingState + 1;
          nextMarkTime := Some(nextMarkTime.value + intervals.later(nMarkedSinceInMarkingState + 1));
          incident := Some(Incident(incident.value.begin, incident.value.marks + [now]));
          allMarks := allMarks + 1;
        }
      } else if nextMarkTime != None {
        nextMarkTime, nMarkedSinceInMarkingState := None, 0;
        incident := None;
      }
    }
  }

  // ---- sendLpPacket ----

  function Marked(p: LpPacket, mark: bool): LpPacket {
    if mark then p.(congestionMark := Some(1)) else p
  }

  /** Attaches Acks, then marks, then checks the size: a packet is dropped together with the
      Acks it was given exactly when its size before, the number of Acks and the mark make it
      too large. */
  method SendLpPacket(reliability: LpReliability, marker: CongestionMarker, reliabilityEnabled: bool,
                      allowCongestionMarking: bool, pkt: LpPacket, mtu: int, sendQueueLength: int, now: int)
    returns (sent: Option<LpPacket>)
    requires reliability.ReceiveValid() && marker.Valid()
    requires reliabilityEnabled ==> !IsBare(pkt)
    modifies reliability`ackQueue, reliability`attached, marker
    ensures reliability.ReceiveValid() && marker.Valid()
    ensures var queued, mark := old(reliability.ackQueue), allowCongestionMarking && old(marker.Next(sendQueueLength, now)).1;
      var acks := if reliabilityEnabled then queued[..NumAcks(|queued|, RemainingSpace(pkt, mtu))] else [];
      && queued == acks + reliability.ackQueue
      && sent == (if mtu != MTU_UNLIMITED && SizeToSend(pkt, |acks|, mark) > mtu then None
                  else Some(Marked(WithAcks(pkt, acks), mark)))
  {
    hide WireSize, RemainingSpace, NumAcks, SizeToSend;
    var out := pkt;
    ghost var queued := reliability.ackQueue;
    ghost var acks := if reliabilityEnabled then queued[..NumAcks(|queued|, RemainingSpace(pkt, mtu))] else [];
    SentSize(pkt, acks, allowCongestionMarking && marker.Next(sendQueueLength, now).1);
    assert WithAcks(pkt, []) == pkt;
    if reliabilityEnabled {
      out := reliability.Piggyback(out, mtu);
    }
    if allowCongestionMarking {
      var mark := marker.CheckCongestionLevel(sendQueueLength, now);
      if mark {
        out := out.(congestionMark := Some(1));
      }
    }
    if mtu != MTU_UNLIMITED && WireSize(out) > mtu {
      return None;
    }
    return Some(out);
  }

  /** The octets a mark adds: five, less those of a mark that it replaces. */
  function MarkOctets(p: LpPacket, mark: bool): int {
    if mark then 5 - IntegerFieldSize(CONGESTION_MARK, p.congestionMark) else 0
  }

  /** The size of a packet after Acks and mark, from its size before. A bare network packet
      becomes an LpPacket with the first field added. */
  function SizeToSend(p: LpPacket, nAcks: nat, mark: bool): int {
    var more := ACK_SIZE * nAcks + MarkOctets(p, mark);
    if !IsBare(p) then Grown(WireSize(p), more)
    else if nAcks == 0 && !mark then WireSize(p)
    else LpSize(ElementSize(FRAGMENT, WireSize(p)) + more)
  }

  lemma MarkedHeader(p: LpPacket, mark: bool)
    ensures HeaderSize(Marked(p, mark)) == HeaderSize(p) + MarkOctets(p, mark)
    ensures FragmentSize(Marked(p, mark)) == FragmentSize(p)
    ensures IsBare(Marked(p, mark)) <==> IsBare(p) && !mark
  {
    hide HeadersSize;
  }

  lemma AckedHeader(p: LpPacket, acks: seq<Sequence>)
    ensures HeaderSize(WithAcks(p, acks)) == HeaderSize(p) + ACK_SIZE * |acks|
    ensures FragmentSize(WithAcks(p, acks)) == FragmentSize(p)
    ensures IsBare(WithAcks(p, acks)) <==> IsBare(p) && acks == []
  {
    hide HeadersSize;
    assert |WithAcks(p, acks).acks| == |p.acks| + |acks|;
    if acks == [] {
      assert WithAcks(p, acks) == p;
    }
  }

  lemma SizeParts(p: LpPacket)
    ensures !IsBare(p) ==> WireSize(p) == LpSize(HeaderSize(p) + FragmentSize(p))
    ensures IsBare(p) ==> HeaderSize(p) == 0 && FragmentSize(p) == ElementSize(FRAGMENT, WireSize(p))
  {
    if IsBare(p) {
      BareHasNoHeaders(p);
    }
  }

  /** Exactly what leaves in octets, for every packet, number of Acks and mark. */
  lemma SentSize(p: LpPacket, acks: seq<Sequence>, mark: bool)
    ensures WireSize(Marked(WithAcks(p, acks), mark)) == SizeToSend(p, |acks|, mark)
  {
    hide HeaderSize, FragmentSize, IsBare, WireSize, Marked, WithAcks, IntegerFieldSize;
    var q := WithAcks(p, acks);
    var out := Marked(q, mark);
    AckedHeader(p, acks);
    MarkedHeader(q, mark);
    SameMark(p, acks, mark);
    SizeParts(p);
    SizeParts(out);
    LengthOfSize(HeaderSize(p) + FragmentSize(p));
    if IsBare(out) {
      NothingAdded(p, acks, mark);
    }
  }

  lemma SameMark(p: LpPacket, acks: seq<Sequence>, mark: bool)
    ensures MarkOctets(WithAcks(p, acks), mark) == MarkOctets(p, mark)
  {
  }

  lemma NothingAdded(p: LpPacket, acks: seq<Sequence>, mark: bool)
    requires acks == [] && !mark
    ensures Marked(WithAcks(p, acks), mark) == p
  {
    assert p.acks + [] == p.acks;
  }

  /** For MTUs up to 65535, exactly when a packet of `size` octets without a mark is dropped
      once it has Acks and perhaps a mark. */
  lemma DroppedExactly(p: LpPacket, acks: seq<Sequence>, mark: bool, mtu: int)
    requires !IsBare(p) && p.congestionMark == None && 0 <= mtu <= 65535
    ensures var more := ACK_SIZE * |acks| + if mark then 5 else 0;
      WireSize(Marked(WithAcks(p, acks), mark)) > mtu <==>
      WireSize(p) + more + (if WireSize(p) <= 254 < WireSize(p) + more then 2 else 0) > mtu
  {
    hide WireSize, IsBare, HeaderSize, FragmentSize, Marked, WithAcks;
    SentSize(p, acks, mark);
    SizeParts(p);
    SizeIsGrown(HeaderSize(p) + FragmentSize(p), ACK_SIZE * |acks| + if mark then 5 else 0, mtu);
  }

  lemma SizeIsGrown(len: nat, more: nat, mtu: int)
    requires 0 <= mtu <= 65535
    ensures var size := LpSize(len);
      Grown(size, more) > mtu <==> size + more + (if size <= 254 < size + more then 2 else 0) > mtu
  {
  }

  /** Five Acks fill an IDLE packet for the minimum MTU; a mark then loses all of them. */
  lemma MarkLosesAcks(acks: seq<Sequence>)
    requires |acks| == 5
    ensures NumAcks(5, RemainingSpace(EmptyPacket, MIN_MTU)) == 5
    ensures WireSize(WithAcks(EmptyPacket, acks)) == 62 <= MIN_MTU
    ensures WireSize(Marked(WithAcks(EmptyPacket, acks), true)) == 67 > MIN_MTU
  {
    hide Marked;
    assert WireSize(EmptyPacket) == 2;
    FiveAcks();
    SentSize(EmptyPacket, acks, false);
    SentSize(EmptyPacket, acks, true);
    NotMarked(WithAcks(EmptyPacket, acks));
  }

  lemma NotMarked(p: LpPacket)
    ensures Marked(p, false) == p
  {
  }

  lemma FiveAcks()
    ensures NumAcks(5, 60) == 5
  {
    assert NumAcks(1, 12) == 1;
    assert NumAcks(2, 24) == 2;
    assert NumAcks(3, 36) == 3;
    assert NumAcks(4, 48) == 4;
  }

  /** Without reliability there are no Acks, and the space reserved for the mark is enough:
      no packet that the fragmenter let through is dropped for its size. */
  lemma UnreliableNeverOverMtu(o: LinkOptions, pkt: LpPacket, mtu: int, plain: seq<LpPacket>, i: nat,
                               s: Option<Sequence>, mark: bool)
    requires IsNetPacket(pkt) && pkt.txSequence.None? && mtu >= Reserve(o) && (mark ==> o.allowCongestionMarking)
    requires Fragmented(pkt, ReducedMtu(o, mtu), plain) && i < |plain| && (s == None ==> |plain| == 1)
    ensures WireSize(Marked(if s == None then plain[i] else plain[i].(sequence := s), mark)) <= mtu
  {
    hide WireSize, HeaderSize, JoinPayloads;
    ReducedMtuExactly(o, mtu);
    var reduced, f := ReducedMtu(o, mtu), plain[i];
    var seqNo := if s.Some? then s.value else if f.sequence.Some? then f.sequence.value else 0;
    if FastPath(pkt, reduced) {
      UnfragmentedFits(pkt, reduced, seqNo, None, mark);
    } else {
      FragmentFits(f, pkt, i, |plain|, reduced, seqNo, None, mark);
    }
    assert Finished(f, seqNo, None, mark) == Marked(f, mark).(sequence := Some(seqNo));
    if s == None && f.sequence == None {
      SequenceAddsSize(Marked(f, mark), seqNo);
    } else {
      assert Marked(f, mark).(sequence := Some(seqNo)) == Marked(if s == None then f else f.(sequence := s), mark);
    }
  }

  lemma SequenceAddsSize(p: LpPacket, s: Sequence)
    requires p.sequence == None
    ensures WireSize(p) <= WireSize(p.(sequence := Some(s)))
  {
    hide HeadersSize;
  }
}
