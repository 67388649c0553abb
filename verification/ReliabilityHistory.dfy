/** What the reliability sender leaves behind beside its own state: packets on the link, times of
    transmission and reports of dropped Interests. */
module ReliabilityHistory {
  import opened Basics
  import opened LpPackets
  import opened ReliabilityModel
  import opened ReliabilityProofs
  import opened ReliabilityRuns
  import opened ReliabilityTheorems
  import opened ReliabilityRefinement

  // ---- times of transmission ----

  /** The send time of every stored fragment is that of its latest transmission. */
  ghost predicate Timed(unacked: map<Sequence, UnackedFrag>, num: map<Sequence, nat>, sentAt: seq<int>) {
    forall k :: k in unacked ==> k in num && num[k] < |sentAt| && unacked[k].sendTime == sentAt[num[k]]
  }

  lemma TimedStored(unacked: map<Sequence, UnackedFrag>, num: map<Sequence, nat>, sentAt: seq<int>, k: Sequence,
                    f: UnackedFrag)
    requires Timed(unacked, num, sentAt)
    ensures Timed(unacked[k := f], num[k := |sentAt|], sentAt + [f.sendTime])
  {
  }

  /** Fragments that stay keep their send time and their transmission. */
  ghost predicate Stays(unacked: map<Sequence, UnackedFrag>, num: map<Sequence, nat>,
                        unacked': map<Sequence, UnackedFrag>, num': map<Sequence, nat>) {
    forall k :: k in unacked' ==>
      k in unacked && unacked'[k].sendTime == unacked[k].sendTime && k in num' && k in num && num'[k] == num[k]
  }

  lemma TimedStays(unacked: map<Sequence, UnackedFrag>, num: map<Sequence, nat>,
                   unacked': map<Sequence, UnackedFrag>, num': map<Sequence, nat>, sentAt: seq<int>)
    requires Timed(unacked, num, sentAt) && Stays(unacked, num, unacked', num')
    ensures Timed(unacked', num', sentAt)
  {
  }

  lemma StaysLess(unacked: map<Sequence, UnackedFrag>, num: map<Sequence, nat>, keys: set<Sequence>)
    requires unacked.Keys == num.Keys
    ensures Stays(unacked, num, unacked - keys, num - keys)
  {
  }

  ghost predicate SameTimes(unacked: map<Sequence, UnackedFrag>, unacked': map<Sequence, UnackedFrag>) {
    unacked'.Keys == unacked.Keys && forall k :: k in unacked ==> unacked'[k].sendTime == unacked[k].sendTime
  }

  lemma StaysWithout(unacked: map<Sequence, UnackedFrag>, unacked': map<Sequence, UnackedFrag>,
                     num: map<Sequence, nat>, k: Sequence)
    requires SameTimes(unacked, unacked') && forall x :: x in unacked ==> x in num
    ensures Stays(unacked, num, unacked' - {k}, num - {k})
  {
  }

  /** A fragment moved to a new transmission. */
  lemma Moved(unacked: map<Sequence, UnackedFrag>, num: map<Sequence, nat>, sentAt: seq<int>, k: Sequence, k': Sequence,
              f: UnackedFrag)
    requires Timed(unacked, num, sentAt)
    ensures Timed(unacked[k' := f] - {k}, num[k' := |sentAt|] - {k}, sentAt + [f.sendTime])
  {
    TimedStored(unacked, num, sentAt, k', f);
  }

  // ---- dropped Interests ----

  ghost predicate Flagged(netPkts: map<nat, NetPktRecord>, interests: seq<bool>) {
    forall p :: p in netPkts ==> p < |interests| && netPkts[p].isInterest == interests[p]
  }

  /** Exactly the Interests given up on have been reported, each once. */
  ghost predicate Reported(dropped: seq<nat>, done: map<nat, Outcome>, interests: seq<bool>) {
    && NoDuplicates(dropped)
    && forall p :: p in dropped <==> p in done && done[p] == RetxExhausted && p < |interests| && interests[p]
  }

  ghost predicate SameFlags(netPkts: map<nat, NetPktRecord>, netPkts': map<nat, NetPktRecord>) {
    forall p :: p in netPkts' ==> p in netPkts && netPkts'[p].isInterest == netPkts[p].isInterest
  }

  lemma FlaggedStays(netPkts: map<nat, NetPktRecord>, netPkts': map<nat, NetPktRecord>, interests: seq<bool>)
    requires Flagged(netPkts, interests) && SameFlags(netPkts, netPkts')
    ensures Flagged(netPkts', interests)
  {
  }

  lemma SameFlag(netPkts: map<nat, NetPktRecord>, p: nat, record: NetPktRecord)
    requires p in netPkts && record.isInterest == netPkts[p].isInterest
    ensures SameFlags(netPkts, netPkts[p := record])
  {
  }

  lemma FlagOf(netPkts: map<nat, NetPktRecord>, interests: seq<bool>, p: nat)
    requires Flagged(netPkts, interests)
    ensures p in netPkts ==> p < |interests| && netPkts[p].isInterest == interests[p]
  {
  }

  lemma OneLess(netPkts: map<nat, NetPktRecord>, p: nat)
    ensures SameFlags(netPkts, netPkts - {p})
  {
  }

  /** A packet that was not handed over before cannot have been reported. */
  lemma StillReported(dropped: seq<nat>, done: map<nat, Outcome>, interests: seq<bool>, isInterest: bool)
    requires Reported(dropped, done, interests) && |interests| !in done
    ensures Reported(dropped, done, interests + [isInterest])
  {
  }

  lemma OneMoreReported(dropped: seq<nat>, done: map<nat, Outcome>, interests: seq<bool>, p: nat)
    requires Reported(dropped, done, interests) && p !in done && p < |interests|
    ensures Reported(dropped + (if interests[p] then [p] else []), done[p := RetxExhausted], interests)
  {
    assert p !in dropped;
  }

  // ---- both ----

  /** Send times are those of the transmissions, and exactly the Interests given up on have
      been reported. */
  ghost predicate Recorded(unacked: map<Sequence, UnackedFrag>, num: map<Sequence, nat>, netPkts: map<nat, NetPktRecord>,
                           m: Model, sentAt: seq<int>, interests: seq<bool>, dropped: seq<nat>) {
    && |sentAt| == |m.sent| && Timed(unacked, num, sentAt)
    && |interests| == |m.handed| && Flagged(netPkts, interests)
    && Reported(dropped, m.done, interests)
  }

  lemma RecordedOpen(unacked: map<Sequence, UnackedFrag>, num: map<Sequence, nat>, netPkts: map<nat, NetPktRecord>,
                     m: Model, sentAt: seq<int>, interests: seq<bool>, dropped: seq<nat>, isInterest: bool)
    requires Recorded(unacked, num, netPkts, m, sentAt, interests, dropped) && |m.handed| !in m.done
    ensures Recorded(unacked, num, netPkts[|m.handed| := NetPktRecord([], isInterest, false)], Open(m), sentAt,
                     interests + [isInterest], dropped)
  {
    StillReported(dropped, m.done, interests, isInterest);
  }

  lemma RecordedPush(unacked: map<Sequence, UnackedFrag>, num: map<Sequence, nat>, netPkts: map<nat, NetPktRecord>,
                     m: Model, sentAt: seq<int>, interests: seq<bool>, dropped: seq<nat>,
                     frag: LpPacket, f: UnackedFrag, netPkts': map<nat, NetPktRecord>)
    requires Recorded(unacked, num, netPkts, m, sentAt, interests, dropped) && IsOpen(m) && SameFlags(netPkts, netPkts')
    ensures |sentAt| == |m.sent|
    ensures var k := Wrap(|m.sent|);
      Recorded(unacked[k := f], num[k := |m.sent|], netPkts', Push(m, frag), sentAt + [f.sendTime], interests, dropped)
  {
    hide Wrap, Timed, Flagged, Reported, SameFlags;
    TimedStored(unacked, num, sentAt, Wrap(|m.sent|), f);
    FlaggedStays(netPkts, netPkts', interests);
  }

  lemma RecordedResend(unacked: map<Sequence, UnackedFrag>, num: map<Sequence, nat>, netPkts: map<nat, NetPktRecord>,
                       m: Model, sentAt: seq<int>, interests: seq<bool>, dropped: seq<nat>,
                       m': Model, k: Sequence, f: UnackedFrag, netPkts': map<nat, NetPktRecord>)
    requires Recorded(unacked, num, netPkts, m, sentAt, interests, dropped) && SameFlags(netPkts, netPkts')
    requires |m'.sent| == |m.sent| + 1 && m'.handed == m.handed && m'.done == m.done
    ensures |sentAt| == |m.sent|
    ensures var k' := Wrap(|m.sent|);
      Recorded(unacked[k' := f] - {k}, num[k' := |m.sent|] - {k}, netPkts', m', sentAt + [f.sendTime], interests, dropped)
  {
    hide Wrap, Timed, Flagged, Reported, SameFlags;
    Moved(unacked, num, sentAt, k, Wrap(|m.sent|), f);
    FlaggedStays(netPkts, netPkts', interests);
  }

  lemma RecordedGiveUp(unacked: map<Sequence, UnackedFrag>, num: map<Sequence, nat>, netPkts: map<nat, NetPktRecord>,
                       m: Model, sentAt: seq<int>, interests: seq<bool>, dropped: seq<nat>,
                       m': Model, p: nat, keys: set<Sequence>)
    requires Recorded(unacked, num, netPkts, m, sentAt, interests, dropped) && unacked.Keys == num.Keys && p in netPkts
    requires m'.sent == m.sent && m'.handed == m.handed && p !in m.done && m'.done == m.done[p := RetxExhausted]
    ensures |sentAt| == |m.sent|
    ensures Recorded(unacked - keys, num - keys, netPkts - {p}, m', sentAt, interests,
                     dropped + if netPkts[p].isInterest then [p] else [])
  {
    hide Timed, Flagged, Reported, SameFlags, Stays;
    StaysLess(unacked, num, keys);
    TimedStays(unacked, num, unacked - keys, num - keys, sentAt);
    OneLess(netPkts, p);
    FlaggedStays(netPkts, netPkts - {p}, interests);
    FlagOf(netPkts, interests, p);
    OneMoreReported(dropped, m.done, interests, p);
  }

  lemma RecordedAck(unacked: map<Sequence, UnackedFrag>, num: map<Sequence, nat>, netPkts: map<nat, NetPktRecord>,
                    m: Model, sentAt: seq<int>, interests: seq<bool>, dropped: seq<nat>, o: Options, a: nat,
                    unacked': map<Sequence, UnackedFrag>, k: Sequence, netPkts': map<nat, NetPktRecord>)
    requires Recorded(unacked, num, netPkts, m, sentAt, interests, dropped) && unacked.Keys == num.Keys
    requires Inv(m, o) && a in m.live && SameTimes(unacked, unacked') && SameFlags(netPkts, netPkts')
    ensures m.live[a].id.pkt in m.pkts && a in m.pkts[m.live[a].id.pkt].unacked
    ensures Recorded(unacked' - {k}, num - {k}, netPkts', Acknowledge(m, a), sentAt, interests, dropped)
  {
    hide Timed, Flagged, Reported, SameFlags, Stays, SameTimes, Inv, Acknowledge;
    StaysWithout(unacked, unacked', num, k);
    TimedStays(unacked, num, unacked' - {k}, num - {k}, sentAt);
    FlaggedStays(netPkts, netPkts', interests);
    AckReportsNothing(m, o, a, dropped, interests);
  }

  /** An Ack by itself sends nothing and gives up on nothing. */
  lemma AckReportsNothing(m: Model, o: Options, a: nat, dropped: seq<nat>, interests: seq<bool>)
    requires Inv(m, o) && a in m.live && Reported(dropped, m.done, interests)
    ensures m.live[a].id.pkt in m.pkts && a in m.pkts[m.live[a].id.pkt].unacked
    ensures var m' := Acknowledge(m, a);
      Reported(dropped, m'.done, interests) && m'.sent == m.sent && m'.handed == m.handed
  {
    hide LogHanded, CountsBounded, AcksLogged, AcksSettle, AcksCounted, ListsNonEmpty, Covered, FlagsRetx, Accounted,
         Sampled, LiveLogged, IndexOf, ListsLive, SwapRemove, CountGreaterAck, BelowThreshold;
    CountedLive(m.live, a);
  }

  // ---- what leaves ----

  /** Everything that leaves on retransmission and report, with the state it left in. */
  datatype Trace = Trace(m: Model, resent: seq<LpPacket>, sentAt: seq<int>, dropped: seq<nat>)

  /** From one state to a later one exactly the transmissions logged in between have left, in
      order and at this time, and no report was taken back. */
  ghost predicate Leaves(t: Trace, t': Trace, now: int) {
    && t.m.sent <= t'.m.sent && t'.m.handed == t.m.handed
    && t'.resent == t.resent + Transmissions(t'.m, |t.m.sent|)
    && |t.sentAt| == |t.m.sent| && |t'.sentAt| == |t'.m.sent| && t.sentAt <= t'.sentAt
    && (forall i :: |t.sentAt| <= i < |t'.sentAt| ==> t'.sentAt[i] == now)
    && t.dropped <= t'.dropped
  }

  lemma LeavesNothing(t: Trace, now: int)
    requires |t.sentAt| == |t.m.sent|
    ensures Leaves(t, t, now)
  {
    NothingLeaves(t.m);
  }

  /** What a loss sends, and what it decides about the network packet. */
  lemma LossRecords(m: Model, o: Options, n: nat)
    requires CoreInv(m, o) && n in m.live && Lose(m, o, n).Some?
    ensures Handed(m.handed, m.live[n].id)
    ensures var m', id := Lose(m, o, n).value, m.live[n].id;
      && m.sent <= m'.sent && m'.handed == m.handed
      && if m.live[n].retxCount >= o.maxRetx
         then m'.sent == m.sent && Transmissions(m', |m.sent|) == []
              && id.pkt !in m.done && m'.done == m.done[id.pkt := RetxExhausted]
         else |m'.sent| == |m.sent| + 1 && m'.done == m.done
              && Transmissions(m', |m.sent|) == [m.handed[id.pkt][id.index].(txSequence := Some(Wrap(|m.sent|)))]
  {
    hide Wrap, CoreInv, Lose, Handed, Transmissions;
    LossLeaves(m, o, n);
    LoseLogs(m, o, n);
    LossDecides(m, o, n);
  }

  lemma LossDecides(m: Model, o: Options, n: nat)
    requires CoreInv(m, o) && n in m.live && Lose(m, o, n).Some?
    ensures var m', p := Lose(m, o, n).value, m.live[n].id.pkt;
      if m.live[n].retxCount >= o.maxRetx then p !in m.done && m'.done == m.done[p := RetxExhausted] else m'.done == m.done
  {
    hide LiveLogged, LogHanded, CountsBounded, AcksLogged, AcksSettle, AcksCounted,
         ListsNonEmpty, Covered, FlagsRetx, Accounted, Sampled, ListsLive, IndexOf, WindowFull;
  }

  lemma AckLeavesNothing(t: Trace, o: Options, a: nat, now: int)
    requires Inv(t.m, o) && a in t.m.live && |t.sentAt| == |t.m.sent|
    ensures t.m.live[a].id.pkt in t.m.pkts && a in t.m.pkts[t.m.live[a].id.pkt].unacked
    ensures Leaves(t, t.(m := Acknowledge(t.m, a)), now)
  {
    hide LogHanded, CountsBounded, AcksLogged, AcksSettle, AcksCounted, ListsNonEmpty, Covered, FlagsRetx, Accounted,
         Sampled, LiveLogged, IndexOf, ListsLive, SwapRemove, CountGreaterAck, BelowThreshold, Transmissions;
    CountedLive(t.m.live, a);
    NothingLeaves(Acknowledge(t.m, a));
  }

  lemma LeavesAdd(t: Trace, t': Trace, t'': Trace, now: int)
    requires Leaves(t, t', now) && Leaves(t', t'', now)
    ensures Leaves(t, t'', now)
  {
    TransmissionsAdd(t'.m, t''.m, |t.m.sent|);
    Associative(t.resent, Transmissions(t'.m, |t.m.sent|), Transmissions(t''.m, |t'.m.sent|));
  }
}
