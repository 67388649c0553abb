/** The send path of `GenericLinkService`: MTU arithmetic, fragmentation and consecutive
    Sequences, and what the receiver at the other end can rely on. */
module LinkSender {
  import opened Basics
  import opened LpPackets
  import opened AckPiggyback
  import opened LpFragmenters

  datatype LinkOptions = LinkOptions(
    allowFragmentation: bool,
    nMaxFragments: nat,
    reliabilityEnabled: bool,
    allowCongestionMarking: bool,
    overrideMtu: int)

  /** MTU_UNLIMITED is negative, so it overrides any finite override MTU. */
  function EffectiveMtu(o: LinkOptions, transportMtu: int): int {
    if o.overrideMtu < transportMtu then o.overrideMtu else transportMtu
  }

  /** The smaller of the two MTUs; an unlimited transport stays unlimited under any override. */
  lemma EffectiveMtuIsLeast(o: LinkOptions, transportMtu: int)
    ensures var mtu := EffectiveMtu(o, transportMtu);
      && mtu <= o.overrideMtu && mtu <= transportMtu && (mtu == o.overrideMtu || mtu == transportMtu)
      && (transportMtu == MTU_UNLIMITED && o.overrideMtu >= 0 ==> mtu == MTU_UNLIMITED)
  {
  }

  /** Space for feature fields is taken off the MTU before fragmentation. */
  function ReducedMtu(o: LinkOptions, mtu: int): int {
    var m := if o.reliabilityEnabled && mtu != MTU_UNLIMITED then mtu - RESERVED_HEADER_SPACE else mtu;
    if o.allowCongestionMarking && m != MTU_UNLIMITED then m - CONGESTION_MARK_SIZE else m
  }

  function Reserve(o: LinkOptions): nat {
    (if o.reliabilityEnabled then RESERVED_HEADER_SPACE else 0)
    + (if o.allowCongestionMarking then CONGESTION_MARK_SIZE else 0)
  }

  /** The reduced MTU of a finite MTU is a usable MTU exactly from the reserved space on.
      Below that, an MTU one short of a subtraction comes out as MTU_UNLIMITED. */
  lemma ReducedMtuExactly(o: LinkOptions, mtu: int)
    requires mtu >= 0
    ensures ReducedMtu(o, mtu) >= 0 <==> mtu >= Reserve(o)
    ensures mtu >= Reserve(o) ==> ReducedMtu(o, mtu) == mtu - Reserve(o)
    ensures ReducedMtu(o, mtu) == MTU_UNLIMITED <==>
      || (o.reliabilityEnabled && mtu == RESERVED_HEADER_SPACE - 1)
      || (o.allowCongestionMarking && mtu == Reserve(o) - 1)
    ensures mtu >= MIN_MTU ==> ReducedMtu(o, mtu) >= 40
  {
  }

  // ---- sequences ----

  /** The Sequence assigned after `n` others; the counter starts at -2, so the first
      Sequence is the largest one and the second wraps to 0. */
  function NthSequence(n: nat): Sequence {
    Wrap(n + TWO64 - 1)
  }

  lemma SequencesConsecutive(n: nat)
    ensures NthSequence(0) == 0xFFFF_FFFF_FFFF_FFFF && NthSequence(1) == 0
    ensures NthSequence(n + 1) == (NthSequence(n) + 1) % TWO64
  {
    NextSequence(n + 1);
  }

  function WithSequences(frags: seq<LpPacket>, base: nat): (r: seq<LpPacket>)
    ensures |r| == |frags|
    ensures forall i :: 0 <= i < |frags| ==> r[i] == frags[i].(sequence := Some(NthSequence(base + i)))
  {
    seq(|frags|, i requires 0 <= i < |frags| => frags[i].(sequence := Some(NthSequence(base + i))))
  }

  lemma DistinctSequences(n: nat, m: nat)
    requires n < m < n + TWO64
    ensures NthSequence(n) != NthSequence(m)
  {
    if NthSequence(n) == NthSequence(m) { WrapEqual(n + TWO64 - 1, m + TWO64 - 1); }
  }

  class GenericLinkSender {
    const options: LinkOptions
    var lastSeqNo: Sequence
    var nFragmentationErrors: nat
    ghost var nAssigned: nat

    ghost predicate Valid()
      reads this
    {
      lastSeqNo == Wrap(nAssigned + TWO64 - 2) && options.nMaxFragments < TWO64
    }

    constructor (options: LinkOptions)
      requires options.nMaxFragments < TWO64
      ensures Valid() && this.options == options && nAssigned == 0
    {
      this.options := options;
      lastSeqNo, nFragmentationErrors, nAssigned := TWO64 - 2, 0, 0;
    }

    method AssignSequences(pkts: seq<LpPacket>) returns (out: seq<LpPacket>)
      requires Valid()
      modifies this`lastSeqNo, this`nAssigned
      ensures Valid() && nAssigned == old(nAssigned) + |pkts|
      ensures out == WithSequences(pkts, old(nAssigned))
    {
      out := [];
      for i := 0 to |pkts|
        invariant Valid() && nAssigned == old(nAssigned) + i && |out| == i
        invariant forall j :: 0 <= j < i ==> out[j] == pkts[j].(sequence := Some(NthSequence(old(nAssigned) + j)))
      {
        NextSequence(nAssigned);
        lastSeqNo := (lastSeqNo + 1) % TWO64;
        nAssigned := nAssigned + 1;
        out := out + [pkts[i].(sequence := Some(lastSeqNo))];
      }
    }

    /** `sendNetPacket` up to handing the fragments on: an empty result is a packet
        dropped by the fragmenter. */
    method PrepareNetPacket(pkt: LpPacket, transportMtu: int) returns (frags: seq<LpPacket>)
      requires Valid() && IsNetPacket(pkt) && pkt.txSequence.None?
      requires var reduced := ReducedMtu(options, EffectiveMtu(options, transportMtu));
        reduced == MTU_UNLIMITED || reduced >= 0
      modifies this
      ensures Valid()
      ensures nAssigned == old(nAssigned) + if options.reliabilityEnabled || |frags| > 1 then |frags| else 0
      ensures var reduced := ReducedMtu(options, EffectiveMtu(options, transportMtu));
        if options.allowFragmentation && reduced != MTU_UNLIMITED then
          && (frags == [] <==> CannotFragment(pkt, reduced, options.nMaxFragments))
          && (frags != [] ==> exists plain ::
                && Fragmented(pkt, reduced, plain)
                && frags == Sequenced(options, plain, old(nAssigned)))
        else frags == Sequenced(options, [pkt], old(nAssigned))
      ensures |frags| == 1 ==> frags[0].fragIndex.None? && frags[0].fragCount.None?
    {
      hide WireSize, HeaderSize, JoinPayloads, CannotFragment, NthSequence;
      var mtu := EffectiveMtu(options, transportMtu);
      var reduced := ReducedMtu(options, mtu);
      ghost var plain := [pkt];
      if options.allowFragmentation && reduced != MTU_UNLIMITED {
        var isOk;
        isOk, frags := FragmentPacket(pkt, reduced, options.nMaxFragments);
        if !isOk {
          nFragmentationErrors := nFragmentationErrors + 1;
          frags := [];
          return;
        }
        plain := frags;
      } else {
        frags := [pkt];
      }
      if options.reliabilityEnabled || |frags| > 1 {
        frags := AssignSequences(frags);
      }
    }
  }

  lemma NextSequence(n: nat)
    ensures (Wrap(n + TWO64 - 2) + 1) % TWO64 == Wrap(n + TWO64 - 1) == NthSequence(n)
  {
  }

  /** Sequences are assigned with reliability, or to more than one fragment. */
  ghost function Sequenced(o: LinkOptions, frags: seq<LpPacket>, base: nat): seq<LpPacket> {
    if o.reliabilityEnabled || |frags| > 1 then WithSequences(frags, base) else frags
  }

  /** Every packet prepared for a finite MTU fits it once TxSequence and congestion mark
      are set, before Acks are attached. */
  lemma PreparedFits(o: LinkOptions, pkt: LpPacket, mtu: int, plain: seq<LpPacket>, i: nat, s: Sequence, tx: Sequence)
    requires IsNetPacket(pkt) && pkt.txSequence.None? && mtu >= Reserve(o)
    requires Fragmented(pkt, ReducedMtu(o, mtu), plain) && i < |plain|
    ensures WireSize(Finished(plain[i], s, if o.reliabilityEnabled then Some(tx) else None, o.allowCongestionMarking)) <= mtu
  {
    hide WireSize, HeaderSize, JoinPayloads, Finished;
    ReducedMtuExactly(o, mtu);
    var reduced, t := ReducedMtu(o, mtu), if o.reliabilityEnabled then Some(tx) else None;
    if FastPath(pkt, reduced) {
      UnfragmentedFits(pkt, reduced, s, t, o.allowCongestionMarking);
    } else {
      FragmentFits(plain[i], pkt, i, |plain|, reduced, s, t, o.allowCongestionMarking);
    }
  }
}
