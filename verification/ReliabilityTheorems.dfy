/** What the invariants of the reliability sender mean for every run: conservation of
    network packets and a bound on the work spent on them. */
module ReliabilityTheorems {
  import opened Basics
  import opened LpPackets
  import opened SendWindow
  import opened ReliabilityModel
  import opened ReliabilityProofs
  import opened ReliabilityRuns

  // ---- conservation of network packets ----

  ghost function With(done: map<nat, Outcome>, o: Outcome): set<nat> {
    set p | p in done && done[p] == o
  }

  /** The value of a link service counter. */
  ghost function CountOf(done: map<nat, Outcome>, o: Outcome): nat {
    |With(done, o)|
  }

  lemma CountOneMore(done: map<nat, Outcome>, p: nat, o: Outcome, x: Outcome)
    requires p !in done
    ensures CountOf(done[p := o], x) == CountOf(done, x) + if x == o then 1 else 0
  {
    assert With(done[p := o], x) == if x == o then With(done, x) + {p} else With(done, x);
  }

  lemma CountsAddUp(done: map<nat, Outcome>)
    ensures |done| == CountOf(done, Acknowledged) + CountOf(done, Retransmitted) + CountOf(done, RetxExhausted)
  {
    var a, r, e := With(done, Acknowledged), With(done, Retransmitted), With(done, RetxExhausted);
    assert done.Keys == a + r + e;
    assert |a + r| == |a| + |r|;
    assert |a + r + e| == |a + r| + |e|;
  }

  lemma {:induction false} SizeOfRange(s: set<nat>, n: nat)
    requires forall p :: p in s <==> 0 <= p < n
    ensures |s| == n
  {
    if n == 0 {
      assert s == {};
    } else {
      SizeOfRange(s - {n - 1}, n - 1);
    }
  }

  /** Every network packet handed over is acknowledged without retransmission,
      acknowledged with one, given up on, or still live; never two of these. */
  lemma Conservation(m: Model, o: Options)
    requires Inv(m, o)
    ensures |m.handed| == CountOf(m.done, Acknowledged) + CountOf(m.done, Retransmitted)
                          + CountOf(m.done, RetxExhausted) + |m.pkts|
  {
    hide LiveLogged, LogHanded, CountsBounded, AcksLogged, AcksSettle, AcksCounted, LiveListed,
         ListsLive, ListsNonEmpty, Covered, FlagsRetx, Accounted, Sampled, BelowThreshold, CountOf;
    CountsAddUp(m.done);
    SizeOfRange(m.pkts.Keys + m.done.Keys, |m.handed|);
    assert |m.pkts.Keys + m.done.Keys| == |m.pkts.Keys| + |m.done.Keys|;
  }

  // ---- the retransmission budget ----

  /** Over the live fragments, the sum of `top - retxCount`. With `top` the maximum
      number of retransmissions this is how many are still allowed. */
  ghost function Budget(live: map<nat, Tx>, top: int): int
    decreases |live|
  {
    if live == map[] then 0
    else
      var n := Least(live.Keys);
      top - live[n].retxCount + Budget(live - {n}, top)
  }

  lemma {:induction false} BudgetWithout(live: map<nat, Tx>, top: int, n: nat)
    requires n in live
    ensures Budget(live, top) == top - live[n].retxCount + Budget(live - {n}, top)
    decreases |live|
  {
    var l := Least(live.Keys);
    if n != l {
      var rest := live - {n};
      assert |live - {l}| < |live|;
      BudgetWithout(live - {l}, top, n);
      assert l in rest && Least(rest.Keys) == l;
      assert live - {l} - {n} == rest - {l};
      assert Budget(rest, top) == top - live[l].retxCount + Budget(rest - {l}, top);
      assert Budget(live, top) == top - live[l].retxCount + Budget(live - {l}, top);
    }
  }

  /** Dropping live transmissions frees at least what each of them was allowed. */
  lemma {:induction false} BudgetSubmap(live: map<nat, Tx>, live': map<nat, Tx>, top: int, n: nat)
    requires n in live && n !in live'
    requires forall x :: x in live' ==> x in live && live'[x] == live[x]
    requires forall x :: x in live ==> live[x].retxCount <= top
    ensures Budget(live', top) + top - live[n].retxCount <= Budget(live, top)
    decreases |live|
  {
    BudgetWithout(live, top, n);
    var rest := live - {n};
    if y :| y in rest && y !in live' {
      assert |rest| < |live|;
      BudgetSubmap(rest, live', top, y);
    } else {
      assert live' == rest;
    }
  }

  lemma {:induction false} BudgetSameCounts(live: map<nat, Tx>, live': map<nat, Tx>, top: int)
    requires live.Keys == live'.Keys && forall x :: x in live ==> live'[x].retxCount == live[x].retxCount
    ensures Budget(live', top) == Budget(live, top)
    decreases |live|
  {
    if live != map[] {
      var l := Least(live.Keys);
      assert (live - {l}).Keys == (live' - {l}).Keys;
      assert |live - {l}| < |live|;
      BudgetSameCounts(live - {l}, live' - {l}, top);
    }
  }

  lemma RetxWithinMax(m: Model, o: Options)
    requires CoreInv(m, o)
    ensures forall x :: x in m.live ==> m.live[x].retxCount <= o.maxRetx
  {
    hide TxCount, Latest, AcksLogged, AcksSettle, AcksCounted, LiveListed,
         ListsLive, ListsNonEmpty, Covered, FlagsRetx, Accounted, Sampled, Partition;
    forall x | x in m.live ensures m.live[x].retxCount <= o.maxRetx {
      assert Handed(m.handed, m.sent[x]);
    }
  }

  lemma DropSpendsBudget(m: Model, o: Options, n: nat, top: int)
    requires CoreInv(m, o) && n in m.live && o.maxRetx <= top
    ensures Budget(Drop(m, n).live, top) + top - o.maxRetx <= Budget(m.live, top)
  {
    RetxWithinMax(m, o);
    DropLive(m, o, n);
    hide CoreInv, Budget, Drop;
    BudgetSubmap(m.live, Drop(m, n).live, top, n);
  }

  lemma RetransmitSpendsBudget(live: map<nat, Tx>, n: nat, n': nat, tx: Tx, top: int)
    requires n in live && n' !in live && tx.retxCount == live[n].retxCount + 1
    ensures Budget((live - {n})[n' := tx], top) == Budget(live, top) - 1
  {
    hide Budget;
    var live' := (live - {n})[n' := tx];
    BudgetWithout(live, top, n);
    BudgetWithout(live', top, n');
    assert live' - {n'} == live - {n};
  }

  /** The measure that every loss and every Ack of a live transmission lowers. */
  ghost function Measure(m: Model, o: Options): int {
    Budget(m.live, o.maxRetx + 1)
  }

  /** Transmissions made, and retransmissions still allowed. */
  ghost function Committed(m: Model, o: Options): int {
    |m.sent| + Budget(m.live, o.maxRetx)
  }

  /** Every loss strictly lowers the measure and commits to nothing new. */
  lemma LossSpendsBudget(m: Model, o: Options, n: nat)
    requires CoreInv(m, o) && n in m.live && Lose(m, o, n).Some?
    ensures Measure(Lose(m, o, n).value, o) < Measure(m, o)
    ensures Committed(Lose(m, o, n).value, o) <= Committed(m, o)
  {
    hide Budget, LiveLogged, LogHanded, CountsBounded, AcksLogged, AcksSettle, AcksCounted,
         ListsLive, ListsNonEmpty, Covered, FlagsRetx, Accounted, Sampled, Partition, IndexOf;
    if m.live[n].retxCount >= o.maxRetx {
      DropSpendsBudget(m, o, n, o.maxRetx + 1);
      DropSpendsBudget(m, o, n, o.maxRetx);
    } else {
      FreshNumber(m.live, m.sent);
      var tx := Tx(m.live[n].id, m.live[n].retxCount + 1, 0);
      RetransmitSpendsBudget(m.live, n, |m.sent|, tx, o.maxRetx + 1);
      RetransmitSpendsBudget(m.live, n, |m.sent|, tx, o.maxRetx);
    }
  }

  lemma {:induction false} LossesSpendBudget(m: Model, o: Options, lost: seq<nat>)
    requires CoreInv(m, o) && LoseAll(m, o, lost).Some?
    ensures Measure(LoseAll(m, o, lost).value, o) <= Measure(m, o)
    ensures Committed(LoseAll(m, o, lost).value, o) <= Committed(m, o)
    decreases |lost|
  {
    hide CoreInv, Measure, Committed, Lose;
    if lost != [] {
      if lost[0] !in m.live {
        LossesSpendBudget(m, o, lost[1..]);
      } else {
        LossSpendsBudget(m, o, lost[0]);
        LossesSpendBudget(Lose(m, o, lost[0]).value, o, lost[1..]);
      }
    }
  }

  /** Every Ack of a live transmission strictly lowers the measure too. */
  lemma AckSpendsBudget(m: Model, o: Options, a: nat)
    requires CoreInv(m, o) && a in m.live && Ack(m, o, a).Some?
    ensures Measure(Ack(m, o, a).value, o) < Measure(m, o)
    ensures Committed(Ack(m, o, a).value, o) <= Committed(m, o)
  {
    hide Budget, LiveLogged, LogHanded, CountsBounded, AcksLogged, AcksSettle, AcksCounted,
         ListsLive, ListsNonEmpty, Covered, FlagsRetx, Accounted, Sampled, Partition, IndexOf, LoseAll, Settle;
    AcknowledgeKeepsInv(m, o, a);
    AcknowledgedLive(m, a);
    AckFreesBudget(m, o, a, o.maxRetx + 1);
    AckFreesBudget(m, o, a, o.maxRetx);
    LossesSpendBudget(Acknowledge(m, a), o, Ascending(LostBy(m.live, o, a)));
  }

  lemma AckFreesBudget(m: Model, o: Options, a: nat, top: int)
    requires CoreInv(m, o) && a in m.live && o.maxRetx <= top
    ensures Budget(CountGreaterAck(m.live, a) - {a}, top) + top - o.maxRetx <= Budget(m.live, top)
  {
    RetxWithinMax(m, o);
    hide CoreInv, Budget, CountGreaterAck;
    CountedLive(m.live, a);
    BudgetWithout(m.live, top, a);
    BudgetSameCounts(m.live - {a}, CountGreaterAck(m.live, a) - {a}, top);
  }

  // ---- total work ----

  ghost function NumFragments(handed: Fragments): nat {
    if handed == [] then 0 else NumFragments(handed[..|handed| - 1]) + |handed[|handed| - 1]|
  }

  /** Transmissions made and still allowed are covered by `maxRetx + 1` for each
      fragment handed over. */
  ghost predicate WithinBudget(m: Model, o: Options) {
    Committed(m, o) <= (o.maxRetx + 1) * NumFragments(m.handed)
  }

  lemma PushWithinBudget(m: Model, o: Options, frag: LpPacket)
    requires CoreInv(m, o) && IsOpen(m) && WithinBudget(m, o)
    ensures WithinBudget(Push(m, frag), o)
  {
    hide CoreInv, Budget;
    var m', n, p, k := Push(m, frag), |m.sent|, |m.handed| - 1, NumFragments(m.handed);
    NewNumber(m, o);
    BudgetWithout(m'.live, o.maxRetx, n);
    assert m'.live - {n} == m.live;
    assert m'.handed[..p] == m.handed[..p];
    assert NumFragments(m'.handed) == k + 1;
    assert (o.maxRetx + 1) * (k + 1) == (o.maxRetx + 1) * k + o.maxRetx + 1;
  }

  lemma NewNumber(m: Model, o: Options)
    requires CoreInv(m, o)
    ensures |m.sent| !in m.live
  {
    FreshNumber(m.live, m.sent);
  }

  lemma {:induction false} PushAllWithinBudget(m: Model, o: Options, frags: seq<LpPacket>)
    requires Inv(m, o) && IsOpen(m) && WithinBudget(m, o) && PushAll(m, o, frags).Some?
    ensures WithinBudget(PushAll(m, o, frags).value, o)
    decreases |frags|
  {
    hide CoreInv, WithinBudget, Push, BelowThreshold;
    if frags != [] {
      PushKeepsInv(m, o, frags[0]);
      PushWithinBudget(m, o, frags[0]);
      PushAllWithinBudget(Push(m, frags[0]), o, frags[1..]);
    }
  }

  lemma StepWithinBudget(m: Model, o: Options, e: Event)
    requires Inv(m, o) && WithinBudget(m, o) && Step(m, o, e).Some?
    ensures WithinBudget(Step(m, o, e).value, o)
  {
    hide CoreInv, Budget, PushAll, Ack, Lose;
    match e
    case HandOver(frags) =>
      if frags != [] {
        OpenKeepsInv(m, o);
        assert Open(m).handed[..|m.handed|] == m.handed;
        PushAllWithinBudget(Open(m), o, frags);
      }
    case AckArrives(txSeq) =>
      if n :| HasKey(m.live, txSeq, n) {
        forall x | HasKey(m.live, txSeq, x) && Ack(m, o, x).Some?
          ensures WithinBudget(Ack(m, o, x).value, o)
        {
          AckHanded(m, o, x);
          AckSpendsBudget(m, o, x);
        }
      }
    case RtoExpires(n) =>
      if n in m.live {
        LoseHanded(m, o, n);
        LossSpendsBudget(m, o, n);
      }
  }

  lemma LoseHanded(m: Model, o: Options, n: nat)
    requires CoreInv(m, o) && n in m.live && Lose(m, o, n).Some?
    ensures Lose(m, o, n).value.handed == m.handed
  {
    hide LogHanded, CountsBounded, AcksLogged, AcksSettle, AcksCounted, Partition, LiveListed, ListsLive, ListsNonEmpty,
         Covered, FlagsRetx, Accounted, Sampled, LiveLogged;
  }

  lemma {:induction false} LoseAllHanded(m: Model, o: Options, lost: seq<nat>)
    requires CoreInv(m, o) && LoseAll(m, o, lost).Some?
    ensures LoseAll(m, o, lost).value.handed == m.handed
    decreases |lost|
  {
    hide CoreInv, Lose;
    if lost != [] {
      if lost[0] !in m.live {
        LoseAllHanded(m, o, lost[1..]);
      } else {
        LoseHanded(m, o, lost[0]);
        LoseAllHanded(Lose(m, o, lost[0]).value, o, lost[1..]);
      }
    }
  }

  lemma AckHanded(m: Model, o: Options, a: nat)
    requires CoreInv(m, o) && a in m.live && Ack(m, o, a).Some?
    ensures Ack(m, o, a).value.handed == m.handed
  {
    AcknowledgeKeepsInv(m, o, a);
    LoseAllHanded(Acknowledge(m, a), o, Ascending(LostBy(m.live, o, a)));
  }

  /** In every run the link carries at most `maxRetx + 1` transmissions for each
      fragment handed over, counting those that are still to come. */
  lemma {:induction false} RunWithinBudget(m: Model, o: Options, events: seq<Event>)
    requires Inv(m, o) && WithinBudget(m, o) && Run(m, o, events).Some?
    ensures WithinBudget(Run(m, o, events).value, o)
    decreases |events|
  {
    hide Inv, WithinBudget, Step;
    if events != [] {
      StepWithinBudget(m, o, events[0]);
      RunWithinBudget(Step(m, o, events[0]).value, o, events[1..]);
    }
  }

  lemma {:induction false} BudgetNotNegative(live: map<nat, Tx>, top: int)
    requires forall x :: x in live ==> live[x].retxCount <= top
    ensures Budget(live, top) >= 0
    decreases |live|
  {
    if live != map[] {
      BudgetNotNegative(live - {Least(live.Keys)}, top);
    }
  }

  // ---- what leaves on the link ----

  /** Transmission `n` as it leaves: the fragment handed over, with its TxSequence. */
  ghost function OnLink(m: Model, n: nat): LpPacket {
    if n < |m.sent| && Handed(m.handed, m.sent[n])
    then m.handed[m.sent[n].pkt][m.sent[n].index].(txSequence := Some(Wrap(n)))
    else EmptyPacket
  }

  /** The transmissions from number `from` on. */
  ghost function Transmissions(m: Model, from: nat): seq<LpPacket>
    requires from <= |m.sent|
  {
    seq(|m.sent| - from, i requires 0 <= i < |m.sent| - from => OnLink(m, from + i))
  }

  /** Steps that only add to the log add to what has left. */
  lemma TransmissionsAdd(m: Model, m': Model, from: nat)
    requires from <= |m.sent| && m.sent <= m'.sent && m'.handed == m.handed
    ensures Transmissions(m', from) == Transmissions(m, from) + Transmissions(m', |m.sent|)
  {
    var s, t := Transmissions(m', from), Transmissions(m, from) + Transmissions(m', |m.sent|);
    forall i | 0 <= i < |s| ensures s[i] == t[i] {
      if i < |m.sent| - from { assert m'.sent[from + i] == m.sent[from + i]; }
    }
  }

  lemma NothingLeaves(m: Model)
    ensures Transmissions(m, |m.sent|) == []
  {
  }

  /** A loss that does not end its packet sends the lost fragment once more, and nothing else. */
  lemma LossLeaves(m: Model, o: Options, n: nat)
    requires CoreInv(m, o) && n in m.live && Lose(m, o, n).Some?
    ensures var m' := Lose(m, o, n).value;
      && m.sent <= m'.sent && m'.handed == m.handed && Handed(m.handed, m.live[n].id)
      && var id := m.live[n].id;
         Transmissions(m', |m.sent|) ==
           if m.live[n].retxCount >= o.maxRetx then []
           else [m.handed[id.pkt][id.index].(txSequence := Some(Wrap(|m.sent|)))]
  {
    hide Wrap, CoreInv, Lose, Handed;
    LoseLogs(m, o, n);
    LiveHanded(m, o, n);
    var m' := Lose(m, o, n).value;
    if m.live[n].retxCount < o.maxRetx {
      assert Transmissions(m', |m.sent|) == [OnLink(m', |m.sent|)];
      assert m'.sent[|m.sent|] == m.live[n].id;
    }
  }

  /** The fragments of a network packet leave in order, each once, under consecutive TxSequences. */
  lemma HandOverLeaves(m: Model, o: Options, frags: seq<LpPacket>)
    requires Inv(m, o) && Step(m, o, HandOver(frags)).Some?
    ensures var m' := Step(m, o, HandOver(frags)).value;
      && |m'.sent| == |m.sent| + |frags| && m.sent <= m'.sent
      && m'.handed == m.handed + (if frags == [] then [] else [frags])
      && Transmissions(m', |m.sent|) ==
           seq(|frags|, i requires 0 <= i < |frags| => frags[i].(txSequence := Some(Wrap(|m.sent| + i))))
  {
    hide Inv, Wrap, PushAll, Ack, Lose, Transmissions, OnLink;
    if frags != [] {
      OpenKeepsInv(m, o);
      PushAllLogs(Open(m), o, frags);
      var m' := Step(m, o, HandOver(frags)).value;
      assert m'.handed[|m.handed|] == [] + frags == frags;
      FragmentsLeave(m', |m.handed|, |m.sent|, frags);
    } else {
      NothingLeaves(m);
    }
  }

  lemma FragmentsLeave(m: Model, p: nat, n: nat, frags: seq<LpPacket>)
    requires p < |m.handed| && m.handed[p] == frags && |m.sent| == n + |frags|
    requires forall j :: n <= j < |m.sent| ==> m.sent[j] == FragId(p, j - n)
    ensures Transmissions(m, n) == seq(|frags|, i requires 0 <= i < |frags| => frags[i].(txSequence := Some(Wrap(n + i))))
  {
    hide Wrap;
    forall i | 0 <= i < |frags| ensures OnLink(m, n + i) == frags[i].(txSequence := Some(Wrap(n + i))) {
      assert m.sent[n + i] == FragId(p, i);
    }
  }

  lemma {:induction false} PushAllLogs(m: Model, o: Options, frags: seq<LpPacket>)
    requires Inv(m, o) && IsOpen(m) && PushAll(m, o, frags).Some?
    ensures var m', p := PushAll(m, o, frags).value, |m.handed| - 1;
      && m'.handed == m.handed[p := m.handed[p] + frags]
      && |m'.sent| == |m.sent| + |frags| && m.sent <= m'.sent
      && forall j :: |m.sent| <= j < |m'.sent| ==> m'.sent[j] == FragId(p, |m.handed[p]| + (j - |m.sent|))
    decreases |frags|
  {
    hide Inv, WindowFull;
    if frags != [] {
      var m1, p := Push(m, frags[0]), |m.handed| - 1;
      PushKeepsInv(m, o, frags[0]);
      PushAllLogs(m1, o, frags[1..]);
      var m' := PushAll(m, o, frags).value;
      assert m1.handed[p] + frags[1..] == m.handed[p] + frags;
      assert m'.sent[|m.sent|] == m1.sent[|m.sent|] == FragId(p, |m.handed[p]|);
    } else {
      assert m.handed[|m.handed| - 1] + frags == m.handed[|m.handed| - 1];
    }
  }

  lemma LoseLogs(m: Model, o: Options, n: nat)
    requires CoreInv(m, o) && n in m.live && Lose(m, o, n).Some?
    ensures var m' := Lose(m, o, n).value;
      m'.sent == m.sent + (if m.live[n].retxCount >= o.maxRetx then [] else [m.live[n].id]) && m'.handed == m.handed
  {
    hide LogHanded, CountsBounded, AcksLogged, AcksSettle, AcksCounted, Partition, LiveListed, ListsLive, ListsNonEmpty,
         Covered, FlagsRetx, Accounted, Sampled, LiveLogged, IndexOf;
  }

  lemma LiveHanded(m: Model, o: Options, n: nat)
    requires CoreInv(m, o) && n in m.live
    ensures Handed(m.handed, m.live[n].id)
  {
    hide CountsBounded, AcksLogged, AcksSettle, AcksCounted, Partition, LiveListed, ListsLive, ListsNonEmpty,
         Covered, FlagsRetx, Accounted, Sampled, TxCount, Latest, Handed;
    assert m.sent[n] == m.live[n].id;
  }

  // ---- no loss without reason ----

  /** A fragment that one of the lost transmissions carried. */
  ghost predicate LostIn(live: map<nat, Tx>, lost: seq<nat>, id: FragId) {
    exists n :: n in lost && n in live && live[n].id == id
  }

  /** A packet one of whose lost transmissions had no retransmission left. */
  ghost predicate Exhausted(live: map<nat, Tx>, lost: seq<nat>, o: Options, p: nat) {
    exists n :: n in lost && n in live && live[n].id.pkt == p && live[n].retxCount >= o.maxRetx
  }

  /** Handling losses sends again only what was lost, ends only packets with an exhausted loss,
      and removes only the lost and the fragments of those packets. */
  ghost predicate OnlyLost(m: Model, m': Model, o: Options, lost: seq<nat>) {
    && m.sent <= m'.sent
    && (forall j :: |m.sent| <= j < |m'.sent| ==> LostIn(m.live, lost, m'.sent[j]))
    && (forall p :: p in m'.done && (p !in m.done || m'.done[p] != m.done[p]) ==> Exhausted(m.live, lost, o, p))
    && (forall n :: n in m.live && n !in m'.live ==> n in lost || Exhausted(m.live, lost, o, m.live[n].id.pkt))
  }

  lemma OneLossOnly(m: Model, o: Options, n: nat)
    requires CoreInv(m, o) && n in m.live && Lose(m, o, n).Some?
    ensures OnlyLost(m, Lose(m, o, n).value, o, [n])
  {
    hide CoreInv, Lose;
    LoseLogs(m, o, n);
    LoseEnds(m, o, n);
    var m' := Lose(m, o, n).value;
    assert n in [n];
    forall j | |m.sent| <= j < |m'.sent| ensures LostIn(m.live, [n], m'.sent[j]) {
      assert m'.sent[j] == m.live[n].id;
    }
  }

  lemma LoseEnds(m: Model, o: Options, n: nat)
    requires CoreInv(m, o) && n in m.live && Lose(m, o, n).Some?
    ensures var m' := Lose(m, o, n).value;
      && (m.live[n].retxCount < o.maxRetx ==> m'.done == m.done && forall x :: x in m.live && x != n ==> x in m'.live)
      && (m.live[n].retxCount >= o.maxRetx ==>
            && m'.done == m.done[m.live[n].id.pkt := RetxExhausted]
            && forall x :: x in m.live && x !in m'.live ==> m.live[x].id.pkt == m.live[n].id.pkt)
  {
    hide LogHanded, CountsBounded, AcksLogged, AcksSettle, AcksCounted, Partition, ListsNonEmpty, Latest, TxCount,
         Covered, FlagsRetx, Accounted, Sampled, LiveLogged, IndexOf;
    if m.live[n].retxCount >= o.maxRetx {
      var p := m.live[n].id.pkt;
      assert ListLive(m.live, p, m.pkts[p].unacked);
    }
  }

  lemma {:induction false} LossesOnly(m: Model, o: Options, lost: seq<nat>)
    requires CoreInv(m, o) && LoseAll(m, o, lost).Some? && forall n :: n in lost ==> n < |m.sent|
    ensures OnlyLost(m, LoseAll(m, o, lost).value, o, lost)
    decreases |lost|
  {
    hide CoreInv, Lose, OnlyLost;
    LiveBelow(m, o);
    if lost == [] {
      NothingLost(m, o);
    } else if lost[0] !in m.live {
      assert forall n :: n in lost[1..] ==> n in lost;
      LossesOnly(m, o, lost[1..]);
      AmongMore(m, LoseAll(m, o, lost).value, o, lost[1..], lost);
    } else {
      var m1 := Lose(m, o, lost[0]).value;
      OneLossOnly(m, o, lost[0]);
      LoseEffect(m, o, lost[0]);
      assert forall n :: n in lost[1..] ==> n in lost;
      LossesOnly(m1, o, lost[1..]);
      LossesAdd(m, m1, LoseAll(m, o, lost).value, o, lost);
    }
  }

  lemma NothingLost(m: Model, o: Options)
    ensures OnlyLost(m, m, o, [])
  {
  }

  lemma AmongMore(m: Model, m': Model, o: Options, lost: seq<nat>, more: seq<nat>)
    requires OnlyLost(m, m', o, lost) && forall n :: n in lost ==> n in more
    ensures OnlyLost(m, m', o, more)
  {
    forall j | |m.sent| <= j < |m'.sent| ensures LostIn(m.live, more, m'.sent[j]) {
      assert LostIn(m.live, lost, m'.sent[j]);
    }
    forall p | Exhausted(m.live, lost, o, p) ensures Exhausted(m.live, more, o, p) {
    }
  }

  lemma LossesAdd(m: Model, m1: Model, m2: Model, o: Options, lost: seq<nat>)
    requires lost != [] && (forall n :: n in m.live ==> n < |m.sent|) && (forall n :: n in lost ==> n < |m.sent|)
    requires OnlyLost(m, m1, o, [lost[0]]) && OnlyLost(m1, m2, o, lost[1..])
    requires forall x :: x in m1.live && x < |m.sent| ==> x in m.live && m1.live[x] == m.live[x]
    ensures OnlyLost(m, m2, o, lost)
  {
    assert forall n :: n in lost[1..] ==> n in lost;
    forall id | LostIn(m1.live, lost[1..], id) ensures LostIn(m.live, lost, id) {
    }
    forall p | Exhausted(m1.live, lost[1..], o, p) ensures Exhausted(m.live, lost, o, p) {
    }
    forall p | Exhausted(m.live, [lost[0]], o, p) ensures Exhausted(m.live, lost, o, p) {
    }
    forall n | n in m.live && n !in m2.live
      ensures n in lost || Exhausted(m.live, lost, o, m.live[n].id.pkt)
    {
      if n in m1.live { assert m1.live[n] == m.live[n]; }
    }
    forall j | |m.sent| <= j < |m2.sent| ensures LostIn(m.live, lost, m2.sent[j]) {
      if j < |m1.sent| {
        assert m2.sent[j] == m1.sent[j] && LostIn(m.live, [lost[0]], m1.sent[j]);
      } else {
        assert LostIn(m1.live, lost[1..], m2.sent[j]);
      }
    }
  }

  /** Loss detection has no false alarm: an Ack makes the sender repeat or give up on nothing but
      transmissions before the acknowledged one that `seqNumLossThreshold` Acks, this one
      included, have passed, and the packets of those among them that are exhausted. */
  lemma AckLosesOnly(m: Model, o: Options, a: nat)
    requires Inv(m, o) && a in m.live && Ack(m, o, a).Some?
    ensures LiveListed(m.live, m.pkts)
    ensures var lost := Ascending(LostBy(m.live, o, a));
      && OnlyLost(Acknowledge(m, a), Ack(m, o, a).value, o, lost)
      && forall n :: n in lost ==> n in m.live && n < a && |AckedAfter(m.acked + {a}, n)| >= o.seqNumLossThreshold
  {
    hide LogHanded, CountsBounded, AcksLogged, AcksSettle, Partition, ListsNonEmpty, Latest, TxCount, LoseAll, OnlyLost,
         Covered, FlagsRetx, Accounted, Sampled, LiveLogged, IndexOf, ListsLive, Settle, BelowThreshold, CountGreaterAck,
         AckedAfter, Ascending;
    AcknowledgeKeepsInv(m, o, a);
    AcknowledgedLive(m, a);
    AscendingSorted(LostBy(m.live, o, a));
    var lost := Ascending(LostBy(m.live, o, a));
    LiveBelow(m, o);
    LossesOnly(Acknowledge(m, a), o, lost);
    forall n | n in lost
      ensures n in m.live && n < a && |AckedAfter(m.acked + {a}, n)| >= o.seqNumLossThreshold
    {
      CountedOnceMore(m, o, a, n);
    }
  }

  lemma LiveBelow(m: Model, o: Options)
    requires CoreInv(m, o)
    ensures forall n :: n in m.live ==> n < |m.sent|
  {
    hide LogHanded, CountsBounded, AcksLogged, AcksSettle, Partition, ListsNonEmpty, Latest, TxCount, AcksCounted,
         Covered, FlagsRetx, Accounted, Sampled, ListsLive, LiveListed;
  }

  lemma CountedOnceMore(m: Model, o: Options, a: nat, n: nat)
    requires CoreInv(m, o) && a in m.live && n in m.live && n < a
    ensures |AckedAfter(m.acked + {a}, n)| == m.live[n].nGreaterSeqAcks + 1
  {
    hide LogHanded, CountsBounded, Partition, ListsNonEmpty, Latest, TxCount, IsAcked, AckedAfter,
         Covered, FlagsRetx, Accounted, Sampled, ListsLive, LiveListed;
    NotYetAcked(m.live, m.acked, m.sent, a);
    AckedAfterOneMore(m.acked, a, n);
  }

  // ---- every run ----

  /** Every run that meets no exception: conservation, what each counter counts, at most
      `maxRetx + 1` transmissions of every fragment and in all, loss counters that count
      exactly the Acks of later transmissions, and none of them at the threshold. */
  lemma RunTheorem(o: Options, events: seq<Event>)
    requires Run(Initial, o, events).Some?
    ensures var m := Run(Initial, o, events).value;
      && |m.handed| == CountOf(m.done, Acknowledged) + CountOf(m.done, Retransmitted)
                       + CountOf(m.done, RetxExhausted) + |m.pkts|
      && Accounted(m.done, m.acked, m.sent, m.handed, o.maxRetx)
      && CountsBounded(m.sent, m.handed, o.maxRetx)
      && |m.sent| <= (o.maxRetx + 1) * NumFragments(m.handed)
      && AcksCounted(m.live, m.acked)
      && Sampled(m.samples, m.acked, m.sent)
      && (o.seqNumLossThreshold >= 1 ==> BelowThreshold(m.live, o))
  {
    hide Run, Budget, LiveLogged, LogHanded, CountsBounded, AcksLogged, AcksSettle, AcksCounted, ListsLive,
         ListsNonEmpty, Covered, FlagsRetx, Accounted, Sampled, Partition, LiveListed, BelowThreshold;
    InitialInv(o);
    var m := Run(Initial, o, events).value;
    Conservation(m, o);
    StartWithinBudget(o);
    RunWithinBudget(Initial, o, events);
    RetxWithinMax(m, o);
    BudgetNotNegative(m.live, o.maxRetx);
  }

  lemma StartWithinBudget(o: Options)
    ensures WithinBudget(Initial, o)
  {
  }
}
