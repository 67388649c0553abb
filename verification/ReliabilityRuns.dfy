/** Whole runs of the reliability sender. */
module ReliabilityRuns {
  import opened Basics
  import opened LpPackets
  import opened SendWindow
  import opened ReliabilityModel
  import opened ReliabilityProofs

  // ---- losses ----

  /** A lost transmission is repeated, or its packet is given up on. `None` is the
      exception "TxSequence range exceeded". */
  ghost function Lose(m: Model, o: Options, n: nat): (r: Option<Model>)
    requires CoreInv(m, o) && n in m.live
    ensures r.Some? ==> CoreInv(r.value, o)
  {
    if m.live[n].retxCount >= o.maxRetx then
      DropKeepsInv(m, o, n);
      Some(Drop(m, n))
    else if WindowFull(m) then None
    else
      RetransmitKeepsInv(m, o, n);
      Some(Retransmit(m, n))
  }

  /** Losses are handled in order, skipping what an earlier one removed. */
  ghost function LoseAll(m: Model, o: Options, lost: seq<nat>): (r: Option<Model>)
    requires CoreInv(m, o)
    ensures r.Some? ==> CoreInv(r.value, o)
    decreases |lost|
  {
    if lost == [] then Some(m)
    else if lost[0] !in m.live then LoseAll(m, o, lost[1..])
    else
      var r := Lose(m, o, lost[0]);
      if r.None? then None else LoseAll(r.value, o, lost[1..])
  }

  /** Transmissions before `a` that its Ack lifts to the loss threshold. */
  ghost function LostBy(live: map<nat, Tx>, o: Options, a: nat): set<nat> {
    set n | n in live && n < a && live[n].nGreaterSeqAcks + 1 >= o.seqNumLossThreshold
  }

  ghost function Ack(m: Model, o: Options, a: nat): (r: Option<Model>)
    requires CoreInv(m, o) && a in m.live
    ensures r.Some? ==> CoreInv(r.value, o)
  {
    AcknowledgeKeepsInv(m, o, a);
    LoseAll(Acknowledge(m, a), o, Ascending(LostBy(m.live, o, a)))
  }

  /** What a loss changes among the live transmissions. */
  lemma LoseEffect(m: Model, o: Options, n: nat)
    requires CoreInv(m, o) && n in m.live && Lose(m, o, n).Some?
    ensures var m' := Lose(m, o, n).value;
      && n !in m'.live
      && |m.sent| <= |m'.sent|
      && (forall x :: x in m'.live && x < |m.sent| ==> x in m.live && m'.live[x] == m.live[x])
      && (forall x :: x in m'.live && x >= |m.sent| ==> m'.live[x].nGreaterSeqAcks == 0)
  {
    hide Latest, TxCount, LogHanded, CountsBounded, AcksLogged, AcksSettle, AcksCounted, Partition,
         Covered, FlagsRetx, Accounted, Sampled;
    if m.live[n].retxCount >= o.maxRetx {
      DropLive(m, o, n);
    } else {
      FreshNumber(m.live, m.sent);
    }
  }

  /** Once all reported losses are handled no counter is at the threshold. */
  lemma {:induction false} LoseAllBelow(m: Model, o: Options, lost: seq<nat>)
    requires CoreInv(m, o) && o.seqNumLossThreshold >= 1
    requires forall n :: n in m.live && m.live[n].nGreaterSeqAcks >= o.seqNumLossThreshold ==> n in lost
    ensures LoseAll(m, o, lost).Some? ==> BelowThreshold(LoseAll(m, o, lost).value.live, o)
    decreases |lost|
  {
    hide CoreInv, Lose;
    if lost != [] {
      assert forall n :: n in lost && n != lost[0] ==> n in lost[1..];
      if lost[0] !in m.live {
        LoseAllBelow(m, o, lost[1..]);
      } else if Lose(m, o, lost[0]).Some? {
        LoseEffect(m, o, lost[0]);
        LoseAllBelow(Lose(m, o, lost[0]).value, o, lost[1..]);
      }
    }
  }

  /** Loss detection is complete: after an Ack is processed, no live transmission has
      been passed by `seqNumLossThreshold` Acks (for a threshold of at least 1). */
  lemma AckKeepsInv(m: Model, o: Options, a: nat)
    requires Inv(m, o) && a in m.live
    ensures Ack(m, o, a).Some? ==> Inv(Ack(m, o, a).value, o)
  {
    hide LiveLogged, LogHanded, CountsBounded, AcksLogged, AcksSettle, AcksCounted, Partition, Settle,
         ListsLive, ListsNonEmpty, Covered, FlagsRetx, Accounted, Sampled, LoseAll, CountGreaterAck;
    AcknowledgeKeepsInv(m, o, a);
    var m1, lost := Acknowledge(m, a), Ascending(LostBy(m.live, o, a));
    AscendingSorted(LostBy(m.live, o, a));
    if o.seqNumLossThreshold >= 1 {
      forall n | n in m1.live && m1.live[n].nGreaterSeqAcks >= o.seqNumLossThreshold ensures n in lost {
        AcknowledgedLive(m, a);
      }
      LoseAllBelow(m1, o, lost);
    }
  }

  lemma AcknowledgedLive(m: Model, a: nat)
    requires a in m.live && LiveListed(m.live, m.pkts)
    ensures Acknowledge(m, a).live == CountGreaterAck(m.live, a) - {a}
    ensures Acknowledge(m, a).sent == m.sent
    ensures var live' := Acknowledge(m, a).live;
      && (forall n :: n in live' <==> n in m.live && n != a)
      && (forall n :: n in live' ==> live'[n].nGreaterSeqAcks == m.live[n].nGreaterSeqAcks + if n < a then 1 else 0)
  {
    CountedLive(m.live, a);
  }

  lemma LoseKeepsInv(m: Model, o: Options, n: nat)
    requires Inv(m, o) && n in m.live
    ensures Lose(m, o, n).Some? ==> Inv(Lose(m, o, n).value, o)
  {
    hide CoreInv, Lose;
    if Lose(m, o, n).Some? { LoseEffect(m, o, n); }
  }

  // ---- runs ----

  /** What can happen to the sender: a network packet is handed over in fragments, an
      Ack field arrives, or the retransmission timer of a transmission expires. */
  datatype Event = HandOver(frags: seq<LpPacket>) | AckArrives(txSeq: Sequence) | RtoExpires(n: nat)

  ghost function PushAll(m: Model, o: Options, frags: seq<LpPacket>): (r: Option<Model>)
    requires Inv(m, o) && IsOpen(m)
    ensures r.Some? ==> Inv(r.value, o)
    decreases |frags|
  {
    if frags == [] then Some(m)
    else if WindowFull(m) then None
    else
      PushKeepsInv(m, o, frags[0]);
      PushAll(Push(m, frags[0]), o, frags[1..])
  }

  /** The live transmission with this TxSequence, if any. */
  ghost predicate HasKey(live: map<nat, Tx>, txSeq: Sequence, n: nat) {
    n in live && Wrap(n) == txSeq
  }

  ghost function Step(m: Model, o: Options, e: Event): (r: Option<Model>)
    requires Inv(m, o)
    ensures r.Some? ==> Inv(r.value, o)
  {
    match e
    case HandOver(frags) =>
      if frags == [] then Some(m) else
      OpenKeepsInv(m, o);
      PushAll(Open(m), o, frags)
    case AckArrives(txSeq) =>
      if n :| HasKey(m.live, txSeq, n) then
        AckKeepsInv(m, o, n);
        Ack(m, o, n)
      else Some(m)
    case RtoExpires(n) =>
      if n in m.live then
        LoseKeepsInv(m, o, n);
        Lose(m, o, n)
      else Some(m)
  }

  ghost function Run(m: Model, o: Options, events: seq<Event>): (r: Option<Model>)
    requires Inv(m, o)
    ensures r.Some? ==> Inv(r.value, o)
    decreases |events|
  {
    if events == [] then Some(m)
    else
      var r := Step(m, o, events[0]);
      if r.None? then None else Run(r.value, o, events[1..])
  }

  lemma InitialInv(o: Options)
    ensures Inv(Initial, o)
  {
  }
}
