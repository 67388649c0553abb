/** Fragmentation and reassembly across the link, from packets handed to the senders to
    packets completed by a receiver. */
module LinkTheorems {
  import opened Basics
  import opened LpPackets
  import opened LpFragmenters
  import opened LpReassemblers
  import opened ReassemblyTheorems
  import opened LinkSender

  /** A network packet fragmented for some MTU; its fragments got the Sequences from the
      `base`-th on. */
  datatype Sent = Sent(pkt: LpPacket, mtu: nat, frags: seq<LpPacket>, base: nat)

  ghost predicate SentOk(s: Sent) {
    IsNetPacket(s.pkt) && s.frags != [] && Fragmented(s.pkt, s.mtu, s.frags)
  }

  /** What one sender sent in any stretch of 2^64 consecutive Sequences, in order. */
  ghost predicate HistoryOk(h: seq<Sent>) {
    && (forall j :: 0 <= j < |h| ==> SentOk(h[j]) && h[j].base + |h[j].frags| <= h[0].base + TWO64)
    && (forall j, k :: 0 <= j < k < |h| ==> h[j].base + |h[j].frags| <= h[k].base)
  }

  /** Histories by endpoint. */
  type Histories = map<nat, seq<Sent>>

  ghost predicate HistoriesOk(hs: Histories, nMaxFragments: nat) {
    forall e :: e in hs ==> HistoryOk(hs[e]) && forall j :: 0 <= j < |hs[e]| ==> |hs[e][j].frags| <= nMaxFragments < TWO64
  }

  ghost predicate HasMessage(hs: Histories, key: Key, j: nat) {
    && key.endpoint in hs && j < |hs[key.endpoint]|
    && |hs[key.endpoint][j].frags| >= 2
    && NthSequence(hs[key.endpoint][j].base) == key.messageIdentifier
  }

  ghost function Keys(hs: Histories): set<Key> {
    set e, j | e in hs && 0 <= j < |hs[e]| && |hs[e][j].frags| >= 2 :: Key(e, NthSequence(hs[e][j].base))
  }

  /** The messages on the link by endpoint and message identifier. */
  ghost function OriginOf(hs: Histories): Origin {
    map key | key in Keys(hs) :: MessageWith(hs, key)
  }

  ghost function MessageWith(hs: Histories, key: Key): seq<LpPacket>
    requires key in Keys(hs)
  {
    KeyExists(hs, key);
    var j: nat :| HasMessage(hs, key, j);
    var s := hs[key.endpoint][j];
    WithSequences(s.frags, s.base)
  }

  /** Message identifiers do not repeat within a history, even where Sequences wrap. */
  lemma OneMessagePerKey(hs: Histories, nMaxFragments: nat, key: Key, j: nat, k: nat)
    requires HistoriesOk(hs, nMaxFragments) && HasMessage(hs, key, j) && HasMessage(hs, key, k)
    ensures j == k
  {
    hide SentOk, NthSequence;
    var h := hs[key.endpoint];
    assert HistoryOk(h);
    assert h[0].base <= h[j].base && h[0].base <= h[k].base;
    if j < k { DistinctSequences(h[j].base, h[k].base); }
    if k < j { DistinctSequences(h[k].base, h[j].base); }
  }

  lemma MessageIs(hs: Histories, nMaxFragments: nat, key: Key, j: nat)
    requires HistoriesOk(hs, nMaxFragments) && HasMessage(hs, key, j)
    ensures key in OriginOf(hs) && OriginOf(hs)[key] == WithSequences(hs[key.endpoint][j].frags, hs[key.endpoint][j].base)
  {
    hide HistoryOk, NthSequence, HistoriesOk;
    forall k: nat | HasMessage(hs, key, k) ensures k == j { OneMessagePerKey(hs, nMaxFragments, key, j, k); }
    assert Key(key.endpoint, NthSequence(hs[key.endpoint][j].base)) == key;
    assert key in Keys(hs);
  }

  lemma KeyHasMessage(hs: Histories, key: Key) returns (j: nat)
    requires key in Keys(hs)
    ensures HasMessage(hs, key, j)
  {
    KeyExists(hs, key);
    j :| HasMessage(hs, key, j);
  }

  lemma KeyExists(hs: Histories, key: Key)
    requires key in Keys(hs)
    ensures exists j: nat :: HasMessage(hs, key, j)
  {
    hide NthSequence;
    var e, j :| e in hs && 0 <= j < |hs[e]| && |hs[e][j].frags| >= 2 && key == Key(e, NthSequence(hs[e][j].base));
    assert HasMessage(hs, key, j);
  }

  lemma {:induction false} SequencedPayload(frags: seq<LpPacket>, base: nat)
    ensures JoinPayloads(WithSequences(frags, base)) == JoinPayloads(frags)
  {
    hide NthSequence;
    if frags != [] {
      var init, last := frags[..|frags| - 1], frags[|frags| - 1];
      SequencedPayload(init, base);
      assert WithSequences(frags, base)[..|frags| - 1] == WithSequences(init, base);
    }
  }

  lemma SequencedMessage(s: Sent)
    requires SentOk(s) && 2 <= |s.frags| < TWO64
    ensures IsMessage(NthSequence(s.base), WithSequences(s.frags, s.base))
  {
    hide JoinPayloads, FastPath;
    var r := WithSequences(s.frags, s.base);
    forall i | 0 <= i < |r|
      ensures r[i].sequence == Some(Wrap(NthSequence(s.base) + i))
      ensures r[i].fragIndex == Some(i) && r[i].fragCount == Some(|r|) && r[i].fragment.Some?
    {
      assert r[i] == s.frags[i].(sequence := Some(NthSequence(s.base + i)));
      ConsecutiveSequence(s.base, i);
      FragmentFields(s, i);
    }
  }

  lemma ConsecutiveSequence(base: nat, i: nat)
    ensures NthSequence(base + i) == Wrap(NthSequence(base) + i)
  {
  }

  lemma FragmentFields(s: Sent, i: nat)
    requires SentOk(s) && |s.frags| >= 2 && i < |s.frags|
    ensures IsFragmentOf(s.frags[i], s.pkt, i, |s.frags|)
    ensures JoinPayloads(s.frags) == Payload(s.pkt)
  {
    hide JoinPayloads, WithinMtu;
  }

  lemma HistoriesGiveOrigin(hs: Histories, nMaxFragments: nat)
    requires HistoriesOk(hs, nMaxFragments)
    ensures OriginOk(OriginOf(hs), nMaxFragments)
  {
    hide IsMessage, NthSequence, SentOk, Keys;
    var origin := OriginOf(hs);
    forall key | key in origin ensures IsMessage(key.messageIdentifier, origin[key]) && |origin[key]| <= nMaxFragments {
      var j := KeyHasMessage(hs, key);
      MessageIs(hs, nMaxFragments, key, j);
      assert HistoryOk(hs[key.endpoint]);
      SequencedMessage(hs[key.endpoint][j]);
    }
  }

  /** The first fragment as completed: the packet with its own headers, the Sequence,
      FragIndex and FragCount of the link, and whatever link-layer fields were added. */
  ghost predicate FirstOf(f: LpPacket, s: Sent) {
    |s.frags| < TWO64 &&
    SameFragment(f, s.pkt.(sequence := Some(NthSequence(s.base)), fragIndex := Some(0),
                           fragCount := Some(|s.frags|), fragment := f.fragment))
  }

  /** A completed packet is one that was sent under this key. */
  ghost predicate WasSent(hs: Histories, key: Key, r: Reassembled) {
    exists j: nat :: HasMessage(hs, key, j) && IsSent(r, hs[key.endpoint][j])
  }

  ghost predicate IsSent(r: Reassembled, s: Sent) {
    r.netPkt == Payload(s.pkt) && FirstOf(r.firstFrag, s)
  }

  /** Across any link that loses, repeats, reorders and interleaves fragments and in any
      pattern of timeouts, whatever a receiver completes from the fragments of an
      endpoint is one of the packets that endpoint sent, octet for octet, with that
      packet's own headers. */
  lemma EndToEnd(hs: Histories, nMaxFragments: nat, xs: seq<Arrival>, x: Arrival)
    requires HistoriesOk(hs, nMaxFragments) && x.Fragment?
    requires AllGenuine(OriginOf(hs), xs) && Genuine(OriginOf(hs), x)
    ensures var r := Step(After(nMaxFragments, xs), nMaxFragments, x).1;
      r.Some? ==> WasSent(hs, x.key, r.value)
  {
    hide OriginOk, SameFragment, JoinPayloads, Completes, Collected, After, SlotsOk, AllGenuine, OriginOf, HistoriesOk,
         ReassemblyTheorems.Step, IsSent, NthSequence;
    HistoriesGiveOrigin(hs, nMaxFragments);
    CompletesOriginals(OriginOf(hs), nMaxFragments, xs, x);
    var r := ReassemblyTheorems.Step(After(nMaxFragments, xs), nMaxFragments, x).1;
    if r.Some? {
      var j := OriginHasMessage(hs, x.key);
      MessageIs(hs, nMaxFragments, x.key, j);
      CompletedIsSent(hs, nMaxFragments, x.key, j, r.value);
    }
  }

  /** And every fragmented packet is completed exactly as often as the arrivals can be cut into
      stretches that hold all its fragments. */
  lemma EndToEndCount(hs: Histories, nMaxFragments: nat, key: Key, j: nat, xs: seq<Arrival>)
    requires HistoriesOk(hs, nMaxFragments) && HasMessage(hs, key, j) && AllGenuine(OriginOf(hs), xs)
    ensures var s := hs[key.endpoint][j]; var outputs := Outputs(nMaxFragments, key, xs);
      |outputs| == Rounds(key, |s.frags|, xs) && forall r :: r in outputs ==> IsSent(r, s)
  {
    hide OriginOk, SameFragment, JoinPayloads, AllGenuine, OriginOf, HistoriesOk, IsSent, NthSequence, Outputs, Rounds,
         HasMessage;
    HistoriesGiveOrigin(hs, nMaxFragments);
    MessageIs(hs, nMaxFragments, key, j);
    CompletedExactly(OriginOf(hs), nMaxFragments, key, xs);
    MessageThere(hs, key, j);
    forall r | r in Outputs(nMaxFragments, key, xs)
      ensures IsSent(r, hs[key.endpoint][j])
    {
      CompletedIsSent(hs, nMaxFragments, key, j, r);
    }
  }

  lemma MessageThere(hs: Histories, key: Key, j: nat)
    requires HasMessage(hs, key, j)
    ensures key.endpoint in hs && j < |hs[key.endpoint]| && |hs[key.endpoint][j].frags| >= 2
  {
  }

  lemma OriginHasMessage(hs: Histories, key: Key) returns (j: nat)
    requires key in OriginOf(hs)
    ensures HasMessage(hs, key, j)
  {
    hide NthSequence;
    j := KeyHasMessage(hs, key);
  }

  lemma CompletedIsSent(hs: Histories, nMaxFragments: nat, key: Key, j: nat, r: Reassembled)
    requires HistoriesOk(hs, nMaxFragments) && HasMessage(hs, key, j)
    requires var s := hs[key.endpoint][j];
      Rebuilds(Some(r), WithSequences(s.frags, s.base))
    ensures IsSent(r, hs[key.endpoint][j])
  {
    hide JoinPayloads, NthSequence, WithinMtu;
    var s := hs[key.endpoint][j];
    assert HistoryOk(hs[key.endpoint]) && SentOk(s);
    FragmentFields(s, 0);
    SequencedPayload(s.frags, s.base);
  }
}
