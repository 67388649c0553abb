/** What a receiver rebuilds from fragments that arrive in any order, repeated,
    interleaved with those of other packets and endpoints, and interrupted by timeouts. */
module ReassemblyTheorems {
  import opened Basics
  import opened LpPackets
  import opened LpFragmenters
  import opened LpReassemblers

  /** The fragments of a multi-fragment packet as they leave the link service, with
      consecutive Sequences from `id` on. */
  ghost predicate IsMessage(id: Sequence, frags: seq<LpPacket>) {
    && 2 <= |frags| < TWO64
    && forall i :: 0 <= i < |frags| ==>
         && frags[i].sequence == Some(Wrap(id + i))
         && frags[i].fragIndex == Some(i) && frags[i].fragCount == Some(|frags|)
         && frags[i].fragment.Some?
  }

  /** A fragment as it arrives: link-layer fields may have been added on its way out, and
      differ between retransmissions. */
  predicate SameFragment(p: LpPacket, frag: LpPacket) {
    p.(txSequence := None, acks := [], congestionMark := None)
      == frag.(txSequence := None, acks := [], congestionMark := None)
  }

  /** Messages by the endpoint that sent them and their message identifier. */
  type Origin = map<Key, seq<LpPacket>>

  ghost predicate OriginOk(origin: Origin, nMaxFragments: nat) {
    forall k :: k in origin ==> IsMessage(k.messageIdentifier, origin[k]) && |origin[k]| <= nMaxFragments
  }

  /** Slots that have been filled. */
  ghost function Got(pp: PartialPacket): set<nat> {
    set i: nat | i < |pp.fragments| && pp.fragments[i].sequence.Some?
  }

  ghost function GotFor(pps: PartialPackets, key: Key): set<nat> {
    if key in pps then Got(pps[key]) else {}
  }

  /** All fragment indices of a message. */
  ghost function AllOf(n: nat): (s: set<nat>)
    ensures |s| == n
    ensures forall i: nat :: i in s <==> i < n
  {
    if n == 0 then {} else AllOf(n - 1) + {n - 1}
  }

  /** Fragment `i` is the only one missing. */
  ghost predicate Completes(got: set<nat>, i: nat, n: nat) {
    got + {i} == AllOf(n)
  }

  /** A partial packet holds fragments of the message with its key, each in its place. */
  ghost predicate PartOf(pp: PartialPacket, frags: seq<LpPacket>) {
    && |pp.fragments| == pp.fragCount == |frags|
    && (forall i :: 0 <= i < |frags| ==> pp.fragments[i] == EmptyPacket || SameFragment(pp.fragments[i], frags[i]))
    && pp.nReceivedFragments == |Got(pp)|
    && Got(pp) != AllOf(|frags|)
  }

  ghost predicate Faithful(pps: PartialPackets, origin: Origin) {
    forall k :: k in pps ==> k in origin && PartOf(pps[k], origin[k])
  }

  // ---- one fragment ----

  lemma MessageIdentifierOf(id: Sequence, i: nat)
    requires i < TWO64
    ensures MessageIdentifier(Wrap(id + i), i) == id
  {
  }

  lemma SizeOfAll(s: set<nat>, n: nat)
    requires forall i :: i in s ==> i < n
    ensures |s| <= n
    ensures |s| == n <==> s == AllOf(n)
  {
    assert s <= AllOf(n);
    SubsetSize(s, AllOf(n));
  }

  lemma SubsetSize(s: set<nat>, t: set<nat>)
    requires s <= t
    ensures |s| <= |t| && (|s| == |t| ==> s == t)
  {
    assert t == s + (t - s);
    assert |t| == |s| + |t - s|;
  }

  /** Filling one slot. */
  lemma FillSlot(pp: PartialPacket, frags: seq<LpPacket>, i: nat, p: LpPacket)
    requires |pp.fragments| == pp.fragCount == |frags| && i < |frags|
    requires forall j :: 0 <= j < |frags| ==> pp.fragments[j] == EmptyPacket || SameFragment(pp.fragments[j], frags[j])
    requires pp.nReceivedFragments == |Got(pp)| && i !in Got(pp) && SameFragment(p, frags[i]) && p.sequence.Some?
    ensures var pp' := PartialPacket(pp.fragments[i := p], pp.fragCount, pp.nReceivedFragments + 1);
      && Got(pp') == Got(pp) + {i} && |Got(pp')| == pp'.nReceivedFragments
      && (forall j :: 0 <= j < |frags| ==> pp'.fragments[j] == EmptyPacket || SameFragment(pp'.fragments[j], frags[j]))
      && (pp'.nReceivedFragments == pp'.fragCount <==> Got(pp) + {i} == AllOf(|frags|))
  {
    var pp' := PartialPacket(pp.fragments[i := p], pp.fragCount, pp.nReceivedFragments + 1);
    assert Got(pp') == Got(pp) + {i};
    SizeOfAll(Got(pp'), |frags|);
  }

  lemma FullIsOriginal(pp: PartialPacket, frags: seq<LpPacket>)
    requires |pp.fragments| == |frags| > 0 && Got(pp) == AllOf(|frags|)
    requires forall j :: 0 <= j < |frags| ==> pp.fragments[j] == EmptyPacket || SameFragment(pp.fragments[j], frags[j])
    ensures JoinPayloads(pp.fragments) == JoinPayloads(frags) && SameFragment(pp.fragments[0], frags[0])
  {
    hide JoinPayloads, SameFragment;
    forall j | 0 <= j < |frags| ensures SameFragment(pp.fragments[j], frags[j]) {
      assert j in AllOf(|frags|);
      assert j in Got(pp);
    }
    SamePayloads(pp.fragments, frags);
  }

  lemma {:induction false} SamePayloads(s: seq<LpPacket>, t: seq<LpPacket>)
    requires |s| == |t| && forall j :: 0 <= j < |s| ==> SameFragment(s[j], t[j])
    ensures JoinPayloads(s) == JoinPayloads(t)
  {
    if s != [] {
      SamePayloads(s[..|s| - 1], t[..|t| - 1]);
      assert SameFragment(s[|s| - 1], t[|t| - 1]);
    }
  }

  lemma NewIsEmpty(n: nat)
    ensures Got(NewPartialPacket(n)) == {}
  {
  }

  /** The partial packet that fragment `p` of the message with this key goes to. */
  ghost function PartFor(pps: PartialPackets, origin: Origin, key: Key): PartialPacket
    requires key in origin
  {
    if key in pps then pps[key] else NewPartialPacket(|origin[key]|)
  }

  ghost function WithFragment(pp: PartialPacket, i: nat, p: LpPacket): PartialPacket
    requires i < |pp.fragments|
  {
    PartialPacket(pp.fragments[i := p], |pp.fragments|, pp.nReceivedFragments + 1)
  }

  /** What completes: the payload of the message and a copy of its first fragment. */
  ghost predicate Rebuilds(r: Option<Reassembled>, frags: seq<LpPacket>)
    requires frags != []
  {
    r.Some? && r.value.netPkt == JoinPayloads(frags) && SameFragment(r.value.firstFrag, frags[0])
  }

  lemma GenuineResult(pps: PartialPackets, origin: Origin, nMaxFragments: nat, key: Key, i: nat, p: LpPacket)
    requires Faithful(pps, origin) && OriginOk(origin, nMaxFragments) && key in origin
    requires i < |origin[key]| && SameFragment(p, origin[key][i])
    ensures SlotsOk(pps)
    ensures var pp, frags := PartFor(pps, origin, key), origin[key];
      var got, r := Got(pp), Receive(pps, nMaxFragments, key.endpoint, p);
      && PartOf(pp, frags) && |pp.fragments| == |frags| && got == GotFor(pps, key)
      && (i in got ==> r == (pps[key := pp], None))
      && (i !in got && Completes(got, i, |frags|) ==>
            frags != [] && r.0 == pps - {key} && Rebuilds(r.1, frags))
      && (i !in got && !Completes(got, i, |frags|) ==>
            && r == (pps[key := WithFragment(pp, i, p)], None)
            && PartOf(WithFragment(pp, i, p), frags)
            && Got(WithFragment(pp, i, p)) == got + {i})
  {
    hide JoinPayloads, Wrap, AllOf, Got, IsMessage, Receive, Faithful, GotFor, OriginOk, NewPartialPacket,
         PartFor, SlotsOk, Completes, PartOf, SameFragment;
    GenuineReceive(pps, origin, nMaxFragments, key, i, p);
    if i !in Got(PartFor(pps, origin, key)) {
      AddFragment(PartFor(pps, origin, key), origin[key], i, p);
    }
  }

  lemma GenuineReceive(pps: PartialPackets, origin: Origin, nMaxFragments: nat, key: Key, i: nat, p: LpPacket)
    requires Faithful(pps, origin) && OriginOk(origin, nMaxFragments) && key in origin
    requires i < |origin[key]| && SameFragment(p, origin[key][i])
    ensures SlotsOk(pps) && p.sequence.Some?
    ensures var pp, frags := PartFor(pps, origin, key), origin[key];
      && PartOf(pp, frags) && |pp.fragments| == |frags| && Got(pp) == GotFor(pps, key)
      && Receive(pps, nMaxFragments, key.endpoint, p) ==
           if i in Got(pp) then (pps[key := pp], None)
           else
             var pp' := WithFragment(pp, i, p);
             if pp'.nReceivedFragments == pp'.fragCount
             then (pps - {key}, Some(Reassembled(JoinPayloads(pp'.fragments), pp'.fragments[0])))
             else (pps[key := pp'], None)
  {
    hide JoinPayloads, Wrap, AllOf, Got, IsMessage, Receive, GotFor, SameFragment, Faithful,
         FragIndexOf, FragCountOf, MessageIdentifier, PartOf, SlotsOk;
    MessageOf(key, origin[key], i, p);
    AllSlotsOk(pps, origin);
    StartedPart(pps, origin, key);
    ReceiveCase(pps, nMaxFragments, key, p, PartFor(pps, origin, key));
  }

  /** Exactly what a genuine fragment does: it is ignored if its slot is filled, it
      completes the message if it is the last one missing, and otherwise it is kept. No
      other message is touched. */
  lemma GenuineFragment(pps: PartialPackets, origin: Origin, nMaxFragments: nat, key: Key, i: nat, p: LpPacket)
    requires Faithful(pps, origin) && OriginOk(origin, nMaxFragments) && key in origin
    requires i < |origin[key]| && SameFragment(p, origin[key][i])
    ensures SlotsOk(pps)
    ensures var r := Receive(pps, nMaxFragments, key.endpoint, p);
      var got := GotFor(pps, key);
      && Faithful(r.0, origin)
      && (forall k :: k != key ==> GotFor(r.0, k) == GotFor(pps, k))
      && (if Completes(got, i, |origin[key]|)
          then origin[key] != [] && Rebuilds(r.1, origin[key]) && GotFor(r.0, key) == {}
          else r.1 == None && GotFor(r.0, key) == got + {i})
  {
    hide JoinPayloads, AllOf, Got, Receive, Faithful, GotFor, OriginOk, PartFor, WithFragment, PartOf;
    GenuineResult(pps, origin, nMaxFragments, key, i, p);
    var pp, frags := PartFor(pps, origin, key), origin[key];
    if i in Got(pp) {
      assert Got(pp) + {i} == Got(pp);
      NotAll(pp, frags);
      PutPart(pps, origin, key, pp);
    } else if Completes(Got(pp), i, |frags|) {
      RemovePart(pps, origin, key);
    } else {
      PutPart(pps, origin, key, WithFragment(pp, i, p));
    }
  }

  lemma PutPart(pps: PartialPackets, origin: Origin, key: Key, pp: PartialPacket)
    requires Faithful(pps, origin) && key in origin && PartOf(pp, origin[key])
    ensures Faithful(pps[key := pp], origin)
    ensures forall k :: GotFor(pps[key := pp], k) == if k == key then Got(pp) else GotFor(pps, k)
  {
    hide Got, PartOf;
    forall k ensures GotFor(pps[key := pp], k) == if k == key then Got(pp) else GotFor(pps, k) {
      if k != key { assert k in pps[key := pp] <==> k in pps; }
    }
  }

  lemma RemovePart(pps: PartialPackets, origin: Origin, key: Key)
    requires Faithful(pps, origin)
    ensures Faithful(pps - {key}, origin)
    ensures forall k :: GotFor(pps - {key}, k) == if k == key then {} else GotFor(pps, k)
  {
  }

  lemma AllSlotsOk(pps: PartialPackets, origin: Origin)
    requires Faithful(pps, origin)
    ensures SlotsOk(pps)
  {
  }

  lemma NotAll(pp: PartialPacket, frags: seq<LpPacket>)
    requires PartOf(pp, frags)
    ensures Got(pp) != AllOf(|frags|)
  {
  }

  /** `Receive` on a fragment of a multi-fragment message. */
  lemma ReceiveCase(pps: PartialPackets, nMaxFragments: nat, key: Key, p: LpPacket, pp: PartialPacket)
    requires SlotsOk(pps) && p.sequence.Some? && FragIndexOf(p) < FragCountOf(p) && 2 <= FragCountOf(p) <= nMaxFragments
    requires MessageIdentifier(p.sequence.value, FragIndexOf(p)) == key.messageIdentifier
    requires pp == (if key in pps then pps[key] else NewPartialPacket(FragCountOf(p))) && pp.fragCount == FragCountOf(p)
    ensures var i, n := FragIndexOf(p), FragCountOf(p);
      Receive(pps, nMaxFragments, key.endpoint, p) ==
        if pp.fragments[i].sequence.Some? then (pps[key := pp], None)
        else
          var pp' := PartialPacket(pp.fragments[i := p], n, pp.nReceivedFragments + 1);
          if pp'.nReceivedFragments == pp'.fragCount
          then (pps - {key}, Some(Reassembled(JoinPayloads(pp'.fragments), pp'.fragments[0])))
          else (pps[key := pp'], None)
  {
    hide MessageIdentifier, JoinPayloads;
    assert Key(key.endpoint, key.messageIdentifier) == key;
    var pps1 := if key in pps then pps else pps[key := NewPartialPacket(FragCountOf(p))];
    assert pps1 == pps[key := pp];
    assert pps1 - {key} == pps - {key};
    var pp' := PartialPacket(pp.fragments[FragIndexOf(p) := p], FragCountOf(p), pp.nReceivedFragments + 1);
    assert pps1[key := pp'] == pps[key := pp'];
  }

  lemma AddFragment(pp: PartialPacket, frags: seq<LpPacket>, i: nat, p: LpPacket)
    requires PartOf(pp, frags) && i < |frags| && i !in Got(pp) && SameFragment(p, frags[i]) && p.sequence.Some?
    ensures |pp.fragments| == |frags|
    ensures var pp' := WithFragment(pp, i, p);
      && (pp'.nReceivedFragments == pp'.fragCount <==> Completes(Got(pp), i, |frags|))
      && (if Completes(Got(pp), i, |frags|)
          then JoinPayloads(pp'.fragments) == JoinPayloads(frags) && SameFragment(pp'.fragments[0], frags[0])
          else PartOf(pp', frags) && Got(pp') == Got(pp) + {i})
  {
    hide Got, AllOf, JoinPayloads, SameFragment;
    FillSlot(pp, frags, i, p);
    if Got(pp) + {i} == AllOf(|frags|) {
      FullIsOriginal(WithFragment(pp, i, p), frags);
    }
  }

  lemma MessageOf(key: Key, frags: seq<LpPacket>, i: nat, p: LpPacket)
    requires IsMessage(key.messageIdentifier, frags) && i < |frags| && SameFragment(p, frags[i])
    ensures
      && FragIndexOf(p) == i && FragCountOf(p) == |frags| >= 2 && p.sequence.Some?
      && MessageIdentifier(p.sequence.value, i) == key.messageIdentifier
  {
    hide MessageIdentifier;
    assert frags[i].sequence == Some(Wrap(key.messageIdentifier + i)) && frags[i].fragIndex == Some(i);
    MessageIdentifierOf(key.messageIdentifier, i);
  }

  /** The partial packet a fragment is added to. */
  lemma StartedPart(pps: PartialPackets, origin: Origin, key: Key)
    requires Faithful(pps, origin) && key in origin && |origin[key]| >= 2
    ensures var pp := if key in pps then pps[key] else NewPartialPacket(|origin[key]|);
      && PartOf(pp, origin[key]) && Got(pp) == GotFor(pps, key) && |pp.fragments| == pp.fragCount == |origin[key]|
      && (forall j :: 0 <= j < |pp.fragments| ==> (j in Got(pp) <==> pp.fragments[j].sequence.Some?))
  {
    if key !in pps {
      NewIsEmpty(|origin[key]|);
      assert 0 in AllOf(|origin[key]|);
    }
  }

  // ---- runs ----

  /** What happens at a receiver on a link that loses, repeats, reorders and interleaves
      packets but does not invent them. */
  datatype Arrival =
    | Fragment(key: Key, i: nat, packet: LpPacket)  // fragment i of the message with this key
    | Whole(endpoint: nat, packet: LpPacket)        // a packet that was not fragmented
    | Timeout(timedOut: Key)                        // the drop timer of a partial packet

  ghost predicate Genuine(origin: Origin, x: Arrival) {
    match x
    case Fragment(key, i, p) => key in origin && i < |origin[key]| && SameFragment(p, origin[key][i])
    case Whole(_, p) => p.fragment.Some? && FragIndexOf(p) == 0 && FragCountOf(p) == 1
    case Timeout(_) => true
  }

  ghost predicate AllGenuine(origin: Origin, xs: seq<Arrival>) {
    forall j :: 0 <= j < |xs| ==> Genuine(origin, xs[j])
  }

  ghost function Step(pps: PartialPackets, nMaxFragments: nat, x: Arrival): (r: (PartialPackets, Option<Reassembled>))
    requires SlotsOk(pps)
    ensures SlotsOk(r.0)
  {
    match x
    case Fragment(key, _, p) => Receive(pps, nMaxFragments, key.endpoint, p)
    case Whole(e, p) => Receive(pps, nMaxFragments, e, p)
    case Timeout(key) => (pps - {key}, None)
  }

  /** The partial packets after a run from the start. */
  ghost function After(nMaxFragments: nat, xs: seq<Arrival>): (pps: PartialPackets)
    ensures SlotsOk(pps)
    decreases |xs|
  {
    if xs == [] then map[] else Step(After(nMaxFragments, xs[..|xs| - 1]), nMaxFragments, xs[|xs| - 1]).0
  }

  /** The fragments of a message that arrived since it was last completed or timed out. */
  ghost function Collected(origin: Origin, key: Key, xs: seq<Arrival>): set<nat>
    requires key in origin
    decreases |xs|
  {
    if xs == [] then {}
    else
      var before := Collected(origin, key, xs[..|xs| - 1]);
      match xs[|xs| - 1]
      case Fragment(k, i, _) =>
        if k != key then before else if Completes(before, i, |origin[key]|) then {} else before + {i}
      case Whole(_, _) => before
      case Timeout(k) => if k == key then {} else before
  }

  lemma StepGenuine(pps: PartialPackets, origin: Origin, nMaxFragments: nat, x: Arrival)
    requires Faithful(pps, origin) && OriginOk(origin, nMaxFragments) && Genuine(origin, x) && SlotsOk(pps)
    ensures var r := Step(pps, nMaxFragments, x);
      && Faithful(r.0, origin)
      && (forall k :: GotFor(r.0, k) ==
            match x
            case Fragment(key, i, _) =>
              if k != key then GotFor(pps, k)
              else if Completes(GotFor(pps, k), i, |origin[k]|) then {} else GotFor(pps, k) + {i}
            case Whole(_, _) => GotFor(pps, k)
            case Timeout(key) => if k == key then {} else GotFor(pps, k))
      && (match x
          case Fragment(key, i, _) =>
            if Completes(GotFor(pps, key), i, |origin[key]|) then origin[key] != [] && Rebuilds(r.1, origin[key])
            else r.1 == None
          case Whole(_, p) => r.1 == if nMaxFragments >= 1 then Some(Reassembled(Payload(p), p)) else None
          case Timeout(_) => r.1 == None)
  {
    hide Faithful, GotFor, SameFragment, JoinPayloads, Completes, OriginOk, SlotsOk, Rebuilds, MessageIdentifier;
    match x
    case Fragment(key, i, p) => GenuineFragment(pps, origin, nMaxFragments, key, i, p);
    case Whole(_, _) =>
    case Timeout(key) => RemovePart(pps, origin, key);
  }

  /** In every run the receiver holds exactly the fragments collected. */
  lemma {:induction false} HoldsCollected(origin: Origin, nMaxFragments: nat, xs: seq<Arrival>)
    requires OriginOk(origin, nMaxFragments) && AllGenuine(origin, xs)
    ensures Faithful(After(nMaxFragments, xs), origin)
    ensures forall key :: key in origin ==> GotFor(After(nMaxFragments, xs), key) == Collected(origin, key, xs)
    decreases |xs|
  {
    hide Faithful, GotFor, SameFragment, JoinPayloads, Completes, OriginOk, SlotsOk, Rebuilds, Step, Genuine;
    if xs == [] {
      NothingHeld(origin);
    } else {
      var init, x := xs[..|xs| - 1], xs[|xs| - 1];
      HoldsCollected(origin, nMaxFragments, init);
      StepGenuine(After(nMaxFragments, init), origin, nMaxFragments, x);
    }
  }

  lemma NothingHeld(origin: Origin)
    ensures Faithful(map[], origin) && forall key :: GotFor(map[], key) == {}
  {
  }

  /** A run completes a message exactly at the arrivals that fill its last gap, and what
      it completes is the original: its payload octet for octet, with the headers of its
      own first fragment. */
  lemma CompletesOriginals(origin: Origin, nMaxFragments: nat, xs: seq<Arrival>, x: Arrival)
    requires OriginOk(origin, nMaxFragments) && AllGenuine(origin, xs) && Genuine(origin, x) && x.Fragment?
    ensures var r := Step(After(nMaxFragments, xs), nMaxFragments, x).1;
      if Completes(Collected(origin, x.key, xs), x.i, |origin[x.key]|)
      then origin[x.key] != [] && Rebuilds(r, origin[x.key])
      else r == None
  {
    hide Faithful, GotFor, SameFragment, JoinPayloads, Completes, OriginOk, SlotsOk, Rebuilds, Step;
    HoldsCollected(origin, nMaxFragments, xs);
    StepGenuine(After(nMaxFragments, xs), origin, nMaxFragments, x);
  }

  // ---- how often ----

  /** What a run completes from the fragments of a message, in order. */
  ghost function Outputs(nMaxFragments: nat, key: Key, xs: seq<Arrival>): seq<Reassembled>
    decreases |xs|
  {
    if xs == [] then []
    else
      var init, x := xs[..|xs| - 1], xs[|xs| - 1];
      var r := Step(After(nMaxFragments, init), nMaxFragments, x).1;
      Outputs(nMaxFragments, key, init) + if x.Fragment? && x.key == key && r.Some? then [r.value] else []
  }

  /** How often a run fills the last gap of a message. */
  ghost function Completions(origin: Origin, key: Key, xs: seq<Arrival>): nat
    requires key in origin
    decreases |xs|
  {
    if xs == [] then 0
    else
      var init, x := xs[..|xs| - 1], xs[|xs| - 1];
      Completions(origin, key, init)
      + if x.Fragment? && x.key == key && Completes(Collected(origin, key, init), x.i, |origin[key]|) then 1 else 0
  }

  lemma {:induction false} OutputsAreCompletions(origin: Origin, nMaxFragments: nat, key: Key, xs: seq<Arrival>)
    requires OriginOk(origin, nMaxFragments) && AllGenuine(origin, xs) && key in origin
    ensures |Outputs(nMaxFragments, key, xs)| == Completions(origin, key, xs)
    ensures forall r :: r in Outputs(nMaxFragments, key, xs) ==> origin[key] != [] && Rebuilds(Some(r), origin[key])
    decreases |xs|
  {
    hide OriginOk, SameFragment, Completes, Collected, After, SlotsOk, JoinPayloads, Step, Genuine;
    if xs != [] {
      var init, x := xs[..|xs| - 1], xs[|xs| - 1];
      assert AllGenuine(origin, init) && Genuine(origin, x);
      OutputsAreCompletions(origin, nMaxFragments, key, init);
      if x.Fragment? {
        CompletesOriginals(origin, nMaxFragments, init, x);
      }
    }
  }

  /** The fragments of a message among some arrivals. */
  ghost function Delivered(key: Key, xs: seq<Arrival>): set<nat> {
    set j | 0 <= j < |xs| && xs[j].Fragment? && xs[j].key == key :: xs[j].i
  }

  predicate TimesOut(key: Key, x: Arrival) {
    x.Timeout? && x.timedOut == key
  }

  ghost predicate NoTimeout(key: Key, xs: seq<Arrival>) {
    forall j :: 0 <= j < |xs| ==> !TimesOut(key, xs[j])
  }

  lemma DeliveredConcat(key: Key, xs: seq<Arrival>, ys: seq<Arrival>)
    ensures Delivered(key, xs + ys) == Delivered(key, xs) + Delivered(key, ys)
  {
    var zs := xs + ys;
    forall i | i in Delivered(key, xs) ensures i in Delivered(key, zs) {
      var j :| 0 <= j < |xs| && xs[j].Fragment? && xs[j].key == key && xs[j].i == i;
      assert zs[j].i == i;
    }
    forall i | i in Delivered(key, ys) ensures i in Delivered(key, zs) {
      var j :| 0 <= j < |ys| && ys[j].Fragment? && ys[j].key == key && ys[j].i == i;
      assert zs[|xs| + j].i == i;
    }
    forall i | i in Delivered(key, zs) && i !in Delivered(key, ys) ensures i in Delivered(key, xs) {
      var j :| 0 <= j < |zs| && zs[j].Fragment? && zs[j].key == key && zs[j].i == i;
      assert xs[j].i == i;
    }
  }

  lemma DeliveredStep(key: Key, xs: seq<Arrival>)
    requires xs != []
    ensures var init, x := xs[..|xs| - 1], xs[|xs| - 1];
      Delivered(key, xs) == Delivered(key, init) + (if x.Fragment? && x.key == key then {x.i} else {})
  {
    var init, x := xs[..|xs| - 1], xs[|xs| - 1];
    assert xs == init + [x];
    DeliveredConcat(key, init, [x]);
    assert x == [x][0];
    assert Delivered(key, [x]) == if x.Fragment? && x.key == key then {x.i} else {};
  }

  lemma NothingDelivered(key: Key)
    ensures Delivered(key, []) == {}
  {
  }

  lemma DeliveredBounded(origin: Origin, key: Key, xs: seq<Arrival>)
    requires key in origin && AllGenuine(origin, xs)
    ensures forall i :: i in Delivered(key, xs) ==> i < |origin[key]|
  {
    hide SameFragment;
    forall i | i in Delivered(key, xs) ensures i < |origin[key]| {
      var j :| 0 <= j < |xs| && xs[j].Fragment? && xs[j].key == key && xs[j].i == i;
      assert Genuine(origin, xs[j]);
    }
  }

  /** After `k` arrivals a message of `n` fragments starts over: all its fragments have
      come, or its timer has just expired. */
  ghost predicate IsCut(key: Key, n: nat, xs: seq<Arrival>, k: nat) {
    0 < k <= |xs| && (Delivered(key, xs[..k]) == AllOf(n) || TimesOut(key, xs[k - 1]))
  }

  /** The first point from `k` on at which a message starts over; past the end for none. */
  ghost function CutFrom(key: Key, n: nat, xs: seq<Arrival>, k: nat): (c: nat)
    requires 0 < k <= |xs| + 1
    ensures k <= c <= |xs| + 1 && (c <= |xs| ==> IsCut(key, n, xs, c))
    ensures forall j :: k <= j < c ==> !IsCut(key, n, xs, j)
    decreases |xs| + 1 - k
  {
    if k > |xs| || IsCut(key, n, xs, k) then k else CutFrom(key, n, xs, k + 1)
  }

  ghost function FirstCut(key: Key, n: nat, xs: seq<Arrival>): (c: nat)
    ensures 0 < c <= |xs| + 1 && (c <= |xs| ==> IsCut(key, n, xs, c))
    ensures forall j :: 0 < j < c ==> !IsCut(key, n, xs, j)
  {
    CutFrom(key, n, xs, 1)
  }

  /** The arrivals cut, from the front, into the shortest stretches that hold every
      fragment of a message or end in its timeout: how many hold every fragment. */
  ghost function Rounds(key: Key, n: nat, xs: seq<Arrival>): nat
    decreases |xs|
  {
    var c := FirstCut(key, n, xs);
    if c > |xs| then 0
    else (if Delivered(key, xs[..c]) == AllOf(n) then 1 else 0) + Rounds(key, n, xs[c..])
  }

  /** Until a message starts over, what was collected is what was delivered. */
  lemma {:induction false} BeforeCut(origin: Origin, key: Key, xs: seq<Arrival>)
    requires key in origin && |origin[key]| >= 1
    requires forall j :: 0 < j <= |xs| ==> !IsCut(key, |origin[key]|, xs, j)
    ensures Completions(origin, key, xs) == 0 && Collected(origin, key, xs) == Delivered(key, xs)
    decreases |xs|
  {
    hide AllOf, Delivered;
    if xs == [] {
      NothingDelivered(key);
    } else {
      var init, x := xs[..|xs| - 1], xs[|xs| - 1];
      forall j | 0 < j <= |init| ensures !IsCut(key, |origin[key]|, init, j) {
        SameCut(key, |origin[key]|, xs, |init|, j);
      }
      BeforeCut(origin, key, init);
      DeliveredStep(key, xs);
      assert !IsCut(key, |origin[key]|, xs, |xs|) && xs[..|xs|] == xs;
    }
  }

  lemma SameCut(key: Key, n: nat, xs: seq<Arrival>, m: nat, j: nat)
    requires j <= m <= |xs|
    ensures IsCut(key, n, xs[..m], j) <==> IsCut(key, n, xs, j)
  {
    hide AllOf, Delivered;
    assert xs[..m][..j] == xs[..j];
  }

  /** At the point where a message starts over nothing is collected, and it has been
      completed exactly if all its fragments came. */
  lemma AtCut(origin: Origin, key: Key, xs: seq<Arrival>)
    requires key in origin && |origin[key]| >= 1 && xs != []
    requires FirstCut(key, |origin[key]|, xs) == |xs|
    ensures Collected(origin, key, xs) == {}
    ensures Completions(origin, key, xs) == if Delivered(key, xs) == AllOf(|origin[key]|) then 1 else 0
  {
    hide AllOf, Delivered, CutFrom;
    var n, init, x := |origin[key]|, xs[..|xs| - 1], xs[|xs| - 1];
    forall j | 0 < j <= |init| ensures !IsCut(key, n, init, j) {
      SameCut(key, n, xs, |init|, j);
    }
    BeforeCut(origin, key, init);
    DeliveredStep(key, xs);
    assert IsCut(key, n, xs, |xs|) && xs[..|xs|] == xs;
    if Delivered(key, init) == AllOf(n) {
      NothingDelivered(key);
      assert 0 in AllOf(n);
      SameCut(key, n, xs, |init|, |init|);
    }
  }

  /** After a point where nothing is collected a run goes on as from the start. */
  lemma {:induction false} StartOver(origin: Origin, key: Key, xs: seq<Arrival>, k: nat)
    requires key in origin && k <= |xs| && Collected(origin, key, xs[..k]) == {}
    ensures Collected(origin, key, xs) == Collected(origin, key, xs[k..])
    ensures Completions(origin, key, xs) == Completions(origin, key, xs[..k]) + Completions(origin, key, xs[k..])
    decreases |xs|
  {
    hide AllOf, Completes;
    if k == |xs| {
      assert xs[..k] == xs && xs[k..] == [];
    } else {
      var init := xs[..|xs| - 1];
      assert init[..k] == xs[..k] && init[k..] == xs[k..][..|xs| - k - 1];
      StartOver(origin, key, init, k);
    }
  }

  /** A run completes a message exactly as often as its arrivals can be cut into stretches
      that hold every fragment, whatever is repeated, reordered or timed out. */
  lemma {:induction false} CompletionsAreRounds(origin: Origin, key: Key, xs: seq<Arrival>)
    requires key in origin && |origin[key]| >= 1
    ensures Completions(origin, key, xs) == Rounds(key, |origin[key]|, xs)
    decreases |xs|
  {
    hide AllOf, Delivered, CutFrom, Completions, Collected, IsCut;
    var n := |origin[key]|;
    var c := FirstCut(key, n, xs);
    if c > |xs| {
      BeforeCut(origin, key, xs);
    } else {
      CutOfPrefix(key, n, xs);
      AtCut(origin, key, xs[..c]);
      StartOver(origin, key, xs, c);
      CompletionsAreRounds(origin, key, xs[c..]);
    }
  }

  lemma CutOfPrefix(key: Key, n: nat, xs: seq<Arrival>)
    requires FirstCut(key, n, xs) <= |xs|
    ensures var c := FirstCut(key, n, xs); xs[..c] != [] && FirstCut(key, n, xs[..c]) == c
  {
    hide CutFrom, IsCut;
    var c := FirstCut(key, n, xs);
    var d := FirstCut(key, n, xs[..c]);
    SameCut(key, n, xs, c, c);
    if d <= c { SameCut(key, n, xs, c, d); }
  }

  /** The same of what the receiver gives out, and every time it gives out the original. */
  lemma CompletedExactly(origin: Origin, nMaxFragments: nat, key: Key, xs: seq<Arrival>)
    requires OriginOk(origin, nMaxFragments) && AllGenuine(origin, xs) && key in origin
    ensures |Outputs(nMaxFragments, key, xs)| == Rounds(key, |origin[key]|, xs)
    ensures forall r :: r in Outputs(nMaxFragments, key, xs) ==> origin[key] != [] && Rebuilds(Some(r), origin[key])
  {
    hide Outputs, Completions, Rounds, Rebuilds, AllGenuine;
    OutputsAreCompletions(origin, nMaxFragments, key, xs);
    CompletionsAreRounds(origin, key, xs);
  }

  /** Without a timeout: a message is given out exactly if all its fragments arrive, and
      exactly once if moreover the arrivals after the shortest stretch that holds them all
      do not hold them all again. */
  lemma ExactlyOnce(origin: Origin, nMaxFragments: nat, key: Key, xs: seq<Arrival>)
    requires OriginOk(origin, nMaxFragments) && AllGenuine(origin, xs) && key in origin && NoTimeout(key, xs)
    ensures var outputs, all := |Outputs(nMaxFragments, key, xs)|, AllOf(|origin[key]|);
      var c := FirstCut(key, |origin[key]|, xs);
      && (outputs >= 1 <==> Delivered(key, xs) == all)
      && (outputs >= 1 <==> c <= |xs|)
      && (outputs == 1 <==> c <= |xs| && Delivered(key, xs[c..]) != all)
  {
    hide Outputs, AllOf, Delivered, CutFrom, FirstCut, IsCut, AllGenuine, Rebuilds;
    var n := |origin[key]|;
    CompletedExactly(origin, nMaxFragments, key, xs);
    RoundsWithoutTimeout(origin, key, xs);
    var c := FirstCut(key, n, xs);
    if c <= |xs| {
      GenuineRest(origin, xs, c);
      RestNoTimeout(key, xs, c);
      RoundsWithoutTimeout(origin, key, xs[c..]);
    }
  }

  lemma RestNoTimeout(key: Key, xs: seq<Arrival>, c: nat)
    requires c <= |xs| && NoTimeout(key, xs)
    ensures NoTimeout(key, xs[c..])
  {
  }

  lemma GenuineRest(origin: Origin, xs: seq<Arrival>, c: nat)
    requires c <= |xs| && AllGenuine(origin, xs)
    ensures AllGenuine(origin, xs[c..]) && AllGenuine(origin, xs[..c])
  {
    hide Genuine;
  }

  lemma RoundsWithoutTimeout(origin: Origin, key: Key, xs: seq<Arrival>)
    requires key in origin && |origin[key]| >= 1 && AllGenuine(origin, xs) && NoTimeout(key, xs)
    ensures var n := |origin[key]|; var c := FirstCut(key, n, xs);
      && (Rounds(key, n, xs) >= 1 <==> Delivered(key, xs) == AllOf(n))
      && (Delivered(key, xs) == AllOf(n) <==> c <= |xs|)
      && (c <= |xs| ==> Rounds(key, n, xs) == 1 + Rounds(key, n, xs[c..]))
  {
    hide AllOf, Delivered, CutFrom, AllGenuine;
    var n := |origin[key]|;
    var c := FirstCut(key, n, xs);
    if c <= |xs| {
      assert !TimesOut(key, xs[c - 1]);
      assert xs == xs[..c] + xs[c..];
      DeliveredConcat(key, xs[..c], xs[c..]);
      GenuineRest(origin, xs, c);
      DeliveredBounded(origin, key, xs[c..]);
      assert forall i :: i in Delivered(key, xs[c..]) ==> i in AllOf(n);
    } else {
      assert xs[..|xs|] == xs;
      if xs == [] {
        NothingDelivered(key);
        assert 0 in AllOf(n);
      } else {
        assert !IsCut(key, n, xs, |xs|);
      }
    }
  }

  ghost predicate NoRepeats(key: Key, xs: seq<Arrival>) {
    forall j, k :: 0 <= j < k < |xs| && xs[j].Fragment? && xs[k].Fragment? && xs[j].key == key && xs[k].key == key ==>
      xs[j].i != xs[k].i
  }

  /** In particular exactly once if every fragment arrives once. */
  lemma OnceWithoutRepeats(origin: Origin, nMaxFragments: nat, key: Key, xs: seq<Arrival>)
    requires OriginOk(origin, nMaxFragments) && AllGenuine(origin, xs) && key in origin && NoTimeout(key, xs)
    requires NoRepeats(key, xs) && Delivered(key, xs) == AllOf(|origin[key]|)
    ensures |Outputs(nMaxFragments, key, xs)| == 1
  {
    hide Outputs, AllOf, CutFrom, FirstCut, AllGenuine;
    ExactlyOnce(origin, nMaxFragments, key, xs);
    var c := FirstCut(key, |origin[key]|, xs);
    assert !TimesOut(key, xs[c - 1]);
    assert 0 in AllOf(|origin[key]|);
    assert 0 in Delivered(key, xs[..c]);
    var k :| 0 <= k < |xs[..c]| && xs[..c][k].Fragment? && xs[..c][k].key == key && xs[..c][k].i == 0;
    forall j | 0 <= j < |xs[c..]| && xs[c..][j].Fragment? && xs[c..][j].key == key
      ensures xs[c..][j].i != 0
    {
      assert xs[c..][j] == xs[c + j] && xs[..c][k] == xs[k];
    }
  }

  /** Repeats after completion count again: when both fragments of a message arrive, and
      then both arrive once more, it is given out twice. */
  lemma RepeatedMessageCompletesTwice(origin: Origin, nMaxFragments: nat, key: Key, f0: LpPacket, f1: LpPacket)
    requires OriginOk(origin, nMaxFragments) && key in origin && |origin[key]| == 2
    requires SameFragment(f0, origin[key][0]) && SameFragment(f1, origin[key][1])
    ensures var xs := [Fragment(key, 0, f0), Fragment(key, 1, f1), Fragment(key, 0, f0), Fragment(key, 1, f1)];
      AllGenuine(origin, xs) && NoTimeout(key, xs) && |Outputs(nMaxFragments, key, xs)| == 2
  {
    hide Outputs, AllOf, SameFragment, OriginOk;
    var ys := [Fragment(key, 0, f0), Fragment(key, 1, f1)];
    var xs := [Fragment(key, 0, f0), Fragment(key, 1, f1), Fragment(key, 0, f0), Fragment(key, 1, f1)];
    assert xs == ys + ys;
    CompletedExactly(origin, nMaxFragments, key, xs);
    TwoRounds(key, ys, xs);
  }

  lemma TwoRounds(key: Key, ys: seq<Arrival>, xs: seq<Arrival>)
    requires |ys| == 2 && ys[0].Fragment? && ys[0].key == key && ys[0].i == 0
    requires ys[1].Fragment? && ys[1].key == key && ys[1].i == 1 && xs == ys + ys
    ensures Rounds(key, 2, xs) == 2
  {
    hide AllOf, Delivered, CutFrom;
    CutAfterTwo(key, ys, ys);
    CutAfterTwo(key, ys, xs);
    assert xs[2..] == ys && ys[2..] == [];
    assert Rounds(key, 2, []) == 0;
  }

  /** Two arrivals that bring both fragments are the first stretch. */
  lemma CutAfterTwo(key: Key, ys: seq<Arrival>, xs: seq<Arrival>)
    requires |ys| == 2 && ys[0].Fragment? && ys[0].key == key && ys[0].i == 0
    requires ys[1].Fragment? && ys[1].key == key && ys[1].i == 1 && ys <= xs
    ensures FirstCut(key, 2, xs) == 2 && Delivered(key, xs[..2]) == AllOf(2)
  {
    hide CutFrom, AllOf, Delivered;
    NothingDelivered(key);
    DeliveredStep(key, xs[..1]);
    DeliveredStep(key, xs[..2]);
    assert xs[..1][..0] == [] && xs[..2][..1] == xs[..1];
    assert Delivered(key, xs[..1]) == {0} && Delivered(key, xs[..2]) == {0, 1};
    assert 1 in AllOf(2);
    assert AllOf(2) == {0, 1};
    assert !IsCut(key, 2, xs, 1) && IsCut(key, 2, xs, 2);
  }
}
