/** `LpFragmenter`: splitting a network packet into fragments that fit an MTU. */
module LpFragmenters {
  import opened Basics
  import opened LpPackets

  /** LpPacket header, Sequence field and Fragment header. */
  const MAX_SINGLE_FRAG_OVERHEAD := 1 + 9 + 1 + 1 + 8 + 1 + 9

  /** The same with FragIndex and FragCount fields. */
  const MAX_FRAG_OVERHEAD := 1 + 9 + 1 + 1 + 8 + 1 + 1 + 8 + 1 + 1 + 8 + 1 + 9

  /** TxSequence field, reserved by the link service when reliability is enabled. */
  const RESERVED_HEADER_SPACE := 3 + 1 + 8

  /** What `fragmentPacket` is called on: a network packet, not yet fragmented. */
  predicate IsNetPacket(p: LpPacket) {
    p.fragment.Some? && p.fragment.value != [] && p.fragIndex.None? && p.fragCount.None?
  }

  function Payload(p: LpPacket): seq<byte> {
    if p.fragment.Some? then p.fragment.value else []
  }

  /** The octets of fragments in order: what a receiver should see again. */
  function JoinPayloads(frags: seq<LpPacket>): seq<byte> {
    if frags == [] then [] else JoinPayloads(frags[..|frags| - 1]) + Payload(frags[|frags| - 1])
  }

  /** Fragment `i` of `n` of packet `p`: the first keeps all other headers of `p`. */
  predicate IsFragmentOf(f: LpPacket, p: LpPacket, i: nat, n: nat) {
    && i < n < TWO64
    && f.fragment.Some? && f.fragment.value != []
    && f == (if i == 0 then p else EmptyPacket).(fragIndex := Some(i), fragCount := Some(n), fragment := f.fragment)
  }

  predicate FastPath(p: LpPacket, mtu: nat) {
    MAX_SINGLE_FRAG_OVERHEAD + WireSize(p) <= mtu
  }

  function FirstPayloadSize(p: LpPacket, mtu: nat): nat
    requires MAX_FRAG_OVERHEAD + HeaderSize(p) + 1 <= mtu
  {
    var space := mtu - HeaderSize(p) - MAX_FRAG_OVERHEAD;
    if |Payload(p)| < space then |Payload(p)| else space
  }

  /** Pieces of `size` octets needed for `rest` octets. */
  function NumPieces(rest: nat, size: nat): nat
    requires size > 0
  {
    rest / size + (if rest % size != 0 then 1 else 0)
  }

  function FragCount(p: LpPacket, mtu: nat): nat
    requires MAX_FRAG_OVERHEAD + HeaderSize(p) + 1 <= mtu
  {
    1 + NumPieces(|Payload(p)| - FirstPayloadSize(p, mtu), mtu - MAX_FRAG_OVERHEAD)
  }

  // ---- sizes ----

  /** CongestionMark field, reserved by the link service when marking is allowed. */
  const CONGESTION_MARK_SIZE := 3 + 1 + 8

  /** Fields set later by the link service: Sequence, and with reliability TxSequence, and
      in congestion a mark. */
  function Finished(f: LpPacket, s: Sequence, tx: Option<Sequence>, mark: bool): LpPacket {
    f.(sequence := Some(s), txSequence := tx, congestionMark := if mark then Some(1) else f.congestionMark)
  }

  function Reserved(tx: Option<Sequence>, mark: bool): nat {
    (if tx.Some? then RESERVED_HEADER_SPACE else 0) + (if mark then CONGESTION_MARK_SIZE else 0)
  }

  lemma FinishedSize(f: LpPacket, s: Sequence, tx: Option<Sequence>, mark: bool)
    requires f.txSequence.None?
    ensures WireSize(Finished(f, s, tx, mark)) <= 10 + 10 + Reserved(tx, mark) + HeaderSize(f) + 10 + |Payload(f)|
  {
  }

  /** A fragment fits the MTU with its Sequence set, and exceeds it by no more than the
      space reserved for TxSequence and congestion mark once these are set too. */
  lemma FragmentFits(f: LpPacket, p: LpPacket, i: nat, n: nat, mtu: nat, s: Sequence, tx: Option<Sequence>, mark: bool)
    requires IsFragmentOf(f, p, i, n) && IsNetPacket(p) && p.txSequence.None?
    requires WithinMtu(f, p, i, mtu)
    ensures WireSize(Finished(f, s, tx, mark)) <= mtu + Reserved(tx, mark)
  {
    FinishedSize(f, s, tx, mark);
    assert HeaderSize(f) <= (if i == 0 then HeaderSize(p) else 0) + 20;
  }

  /** The same for a packet that takes the fast path. */
  lemma UnfragmentedFits(p: LpPacket, mtu: nat, s: Sequence, tx: Option<Sequence>, mark: bool)
    requires IsNetPacket(p) && p.txSequence.None? && FastPath(p, mtu)
    ensures WireSize(Finished(p, s, tx, mark)) <= mtu + Reserved(tx, mark)
  {
    FinishedSize(p, s, tx, mark);
    BareHasNoHeaders(p);
    hide HeaderSize, Finished;
    assert HeaderSize(p) + |Payload(p)| <= WireSize(p);
  }

  predicate WithinMtu(f: LpPacket, p: LpPacket, i: nat, mtu: nat) {
    MAX_FRAG_OVERHEAD + (if i == 0 then HeaderSize(p) else 0) + |Payload(f)| <= mtu
  }

  /** The slow path never makes a single fragment: a packet that would fit one took the
      fast path. This is why an unfragmented packet carries no FragIndex. */
  lemma SlowPathSplits(p: LpPacket, mtu: nat)
    requires IsNetPacket(p) && !FastPath(p, mtu) && MAX_FRAG_OVERHEAD + HeaderSize(p) + 1 <= mtu
    ensures FirstPayloadSize(p, mtu) < |Payload(p)|
    ensures FragCount(p, mtu) >= 2
  {
    hide HeaderSize, NumPieces;
    WireOverhead(p);
    SomePieces(|Payload(p)| - FirstPayloadSize(p, mtu), mtu - MAX_FRAG_OVERHEAD);
  }

  lemma WireOverhead(p: LpPacket)
    requires IsNetPacket(p)
    ensures WireSize(p) <= HeaderSize(p) + |Payload(p)| + 20
  {
    hide HeaderSize;
  }

  lemma SomePieces(rest: nat, size: nat)
    requires size > 0 && rest > 0
    ensures NumPieces(rest, size) >= 1
  {
    if rest / size == 0 { assert rest % size == rest; }
  }

  // ---- splitting ----

  lemma JoinAppend(frags: seq<LpPacket>, f: LpPacket)
    ensures JoinPayloads(frags + [f]) == JoinPayloads(frags) + Payload(f)
  {
    assert (frags + [f])[..|frags|] == frags;
  }

  /** Where piece `i` begins when the first takes `first` octets of `total`. */
  function Begin(total: nat, first: nat, size: nat, i: nat): (b: int)
    requires first <= total
    ensures 0 <= b <= total
  {
    if i == 0 then 0
    else
      MulMonotone(0, i - 1, size);
      var b := first + (i - 1) * size;
      if b < total then b else total
  }

  /** The loop consumes the payload in exactly `1 + NumPieces` steps. */
  lemma BeginReachesEnd(total: nat, first: nat, size: nat, i: nat)
    requires 0 < first <= total && size > 0
    ensures Begin(total, first, size, i) < total <==> i < 1 + NumPieces(total - first, size)
  {
    if i > 0 { CeilingDivision(total - first, size, i - 1); }
  }

  /** Each step advances by the first piece or by `size`, and stops at the end. */
  lemma BeginStep(total: nat, first: nat, size: nat, i: nat)
    requires 0 < first <= total && size > 0
    ensures var b := Begin(total, first, size, i);
      Begin(total, first, size, i + 1) ==
        if i == 0 then first else if b + size < total then b + size else total
  {
    if i > 0 {
      MulMonotone(0, i - 1, size);
      assert i * size == (i - 1) * size + size;
    } else {
      assert 0 * size == 0;
    }
  }

  /** `k * size < rest` exactly when `k` is below the rounded-up quotient. */
  lemma CeilingDivision(rest: nat, size: nat, k: nat)
    requires size > 0
    ensures k * size < rest <==> k < NumPieces(rest, size)
  {
    var q, r := rest / size, rest % size;
    assert rest == q * size + r;
    if k < q {
      MulMonotone(k + 1, q, size);
      assert (k + 1) * size == k * size + size;
    } else if k > q {
      MulMonotone(q + 1, k, size);
      assert (q + 1) * size == q * size + size;
    }
  }

  lemma MulMonotone(a: nat, b: nat, c: nat)
    requires a <= b
    ensures a * c <= b * c
  {
  }

  // ---- the fragmenter ----

  /** What `fragmentPacket` promises: the packet itself if it fits, otherwise at least
      two fragments that carry its payload octet for octet, the first with all its other
      headers, each small enough for the MTU once it is sequenced. */
  ghost predicate Fragmented(p: LpPacket, mtu: nat, frags: seq<LpPacket>) {
    if FastPath(p, mtu) then frags == [p]
    else
      && |frags| >= 2
      && (forall i :: 0 <= i < |frags| ==> IsFragmentOf(frags[i], p, i, |frags|) && WithinMtu(frags[i], p, i, mtu))
      && JoinPayloads(frags) == Payload(p)
  }

  /** Every fragment but the last fills the MTU, up to the 50 octets of overhead. */
  ghost predicate Full(p: LpPacket, mtu: nat, frags: seq<LpPacket>) {
    forall i :: 0 <= i < |frags| - 1 ==> |Payload(frags[i])| == mtu - 50 - if i == 0 then HeaderSize(p) else 0
  }

  /** However a packet is split within the MTU, it takes at least `FragCount` fragments. */
  lemma FewestFragments(p: LpPacket, mtu: nat, frags: seq<LpPacket>)
    requires IsNetPacket(p) && !FastPath(p, mtu) && Fragmented(p, mtu, frags)
    ensures MAX_FRAG_OVERHEAD + HeaderSize(p) + 1 <= mtu && FragCount(p, mtu) <= |frags|
  {
    hide HeaderSize, FastPath, NumPieces, JoinPayloads;
    assert IsFragmentOf(frags[0], p, 0, |frags|) && WithinMtu(frags[0], p, 0, mtu);
    var space, size := mtu - 50 - HeaderSize(p), mtu - 50;
    JoinedSize(frags, space, size);
    var rest := |Payload(p)| - FirstPayloadSize(p, mtu);
    if rest > 0 {
      CeilingDivision(rest, size, |frags| - 1);
    } else {
      CeilingDivision(0, size, 0);
    }
  }

  lemma {:induction false} JoinedSize(frags: seq<LpPacket>, space: nat, size: nat)
    requires forall i :: 0 <= i < |frags| ==> |Payload(frags[i])| <= if i == 0 then space else size
    ensures |JoinPayloads(frags)| <= if frags == [] then 0 else space + (|frags| - 1) * size
  {
    if |frags| > 1 {
      JoinedSize(frags[..|frags| - 1], space, size);
      assert (|frags| - 1) * size == (|frags| - 2) * size + size;
    } else if |frags| == 1 {
      assert JoinPayloads(frags[..0]) == [] && 0 * size == 0;
    }
  }

  /** The conditions under which a packet is dropped. */
  predicate CannotFragment(p: LpPacket, mtu: nat, nMaxFragments: nat) {
    && !FastPath(p, mtu)
    && (MAX_FRAG_OVERHEAD + HeaderSize(p) + 1 > mtu || FragCount(p, mtu) > nMaxFragments)
  }

  method FragmentPacket(p: LpPacket, mtu: nat, nMaxFragments: nat) returns (isOk: bool, frags: seq<LpPacket>)
    requires IsNetPacket(p) && nMaxFragments < TWO64
    ensures isOk <==> !CannotFragment(p, mtu, nMaxFragments)
    ensures isOk ==> Fragmented(p, mtu, frags)
    ensures isOk ==> |frags| <= nMaxFragments || frags == [p]
    ensures isOk ==> Full(p, mtu, frags)
    ensures isOk ==> forall fs :: Fragmented(p, mtu, fs) ==> |frags| <= |fs|
    ensures !isOk ==> !FastPath(p, mtu) && forall fs :: Fragmented(p, mtu, fs) ==> |fs| > nMaxFragments
  {
    hide HeaderSize, WireSize, NumPieces, JoinPayloads;
    if FastPath(p, mtu) {
      return true, [p];
    }
    forall fs | Fragmented(p, mtu, fs)
      ensures MAX_FRAG_OVERHEAD + HeaderSize(p) + 1 <= mtu && FragCount(p, mtu) <= |fs|
    {
      FewestFragments(p, mtu, fs);
    }
    if MAX_FRAG_OVERHEAD + HeaderSize(p) + 1 > mtu {
      return false, [];
    }
    var netPkt := Payload(p);
    var firstPayloadSize, payloadSize := FirstPayloadSize(p, mtu), mtu - MAX_FRAG_OVERHEAD;
    var fragCount := FragCount(p, mtu);
    if fragCount > nMaxFragments {
      return false, [];
    }
    SlowPathSplits(p, mtu);
    frags := Split(p, netPkt, firstPayloadSize, payloadSize, fragCount);
    isOk := true;
  }

  /** The loop of `fragmentPacket`; it ends with exactly `fragCount` fragments. */
  method Split(p: LpPacket, netPkt: seq<byte>, firstPayloadSize: nat, payloadSize: nat, fragCount: nat)
    returns (frags: seq<LpPacket>)
    requires IsNetPacket(p) && netPkt == Payload(p)
    requires 0 < firstPayloadSize <= |netPkt| && payloadSize > 0
    requires fragCount == 1 + NumPieces(|netPkt| - firstPayloadSize, payloadSize) && fragCount < TWO64
    ensures |frags| == fragCount && JoinPayloads(frags) == netPkt
    ensures forall i :: 0 <= i < |frags| ==>
              IsFragmentOf(frags[i], p, i, fragCount)
              && |Payload(frags[i])| <= if i == 0 then firstPayloadSize else payloadSize
    ensures forall i :: 0 <= i < |frags| - 1 ==> |Payload(frags[i])| == if i == 0 then firstPayloadSize else payloadSize
  {
    hide NumPieces, Begin, JoinPayloads;
    ghost var total, first, size := |netPkt|, firstPayloadSize, payloadSize;
    frags := [];
    var fragIndex, fragBegin, fragEnd := 0, 0, firstPayloadSize;
    BeginStart(total, first, size);
    while fragBegin < |netPkt|
      invariant |frags| == fragIndex <= fragCount
      invariant 0 <= fragBegin <= fragEnd <= |netPkt|
      invariant fragBegin == Begin(total, first, size, fragIndex)
      invariant fragEnd == Begin(total, first, size, fragIndex + 1)
      invariant fragBegin < |netPkt| ==> fragBegin < fragEnd && fragEnd - fragBegin <= if fragIndex == 0 then first else size
      invariant JoinPayloads(frags) == netPkt[..fragBegin]
      invariant forall i :: 0 <= i < |frags| ==>
                  IsFragmentOf(frags[i], p, i, fragCount)
                  && |Payload(frags[i])| <= if i == 0 then firstPayloadSize else payloadSize
      invariant forall i :: 0 <= i < |frags| && (i < |frags| - 1 || fragBegin < |netPkt|) ==>
                  |Payload(frags[i])| == if i == 0 then firstPayloadSize else payloadSize
      decreases |netPkt| - fragBegin
    {
      BeginReachesEnd(total, first, size, fragIndex);
      BeginStep(total, first, size, fragIndex);
      BeginStep(total, first, size, fragIndex + 1);
      var frag := (if fragIndex == 0 then p else EmptyPacket)
        .(fragIndex := Some(fragIndex), fragCount := Some(fragCount), fragment := Some(netPkt[fragBegin..fragEnd]));
      JoinAppend(frags, frag);
      assert netPkt[..fragEnd] == netPkt[..fragBegin] + netPkt[fragBegin..fragEnd];
      frags := frags + [frag];
      fragIndex := fragIndex + 1;
      fragBegin := fragEnd;
      fragEnd := if |netPkt| < fragBegin + payloadSize then |netPkt| else fragBegin + payloadSize;
    }
    BeginReachesEnd(total, first, size, fragIndex);
    assert netPkt[..fragBegin] == netPkt;
  }

  lemma BeginStart(total: nat, first: nat, size: nat)
    requires 0 < first <= total && size > 0
    ensures Begin(total, first, size, 0) == 0 && Begin(total, first, size, 1) == first
    ensures JoinPayloads([]) == []
  {
    BeginStep(total, first, size, 0);
  }
}
