/** The reliability sender with unbounded transmission numbers. The n-th packet put
    on the link with a TxSequence has transmission number n, so nothing wraps here.
    Alongside the live state the model keeps the whole history of a run, and the
    invariants below relate the two. */
module ReliabilityModel {
  import opened Basics
  import opened LpPackets

  datatype Options = Options(maxRetx: nat, seqNumLossThreshold: nat)

  /** Fragment number `index` of the network packet number `pkt`. */
  datatype FragId = FragId(pkt: nat, index: nat)

  /** A live transmission: sent, and neither acknowledged nor given up on. */
  datatype Tx = Tx(id: FragId, retxCount: nat, nGreaterSeqAcks: nat)

  /** A live network packet and its unacknowledged transmissions. */
  datatype NetPkt = NetPkt(unacked: seq<nat>, didRetx: bool)

  datatype Outcome = Acknowledged | Retransmitted | RetxExhausted

  datatype Model = Model(
    handed: seq<seq<LpPacket>>,  // fragments of every network packet handed over
    sent: seq<FragId>,           // what each transmission carried
    live: map<nat, Tx>,          // live transmissions
    pkts: map<nat, NetPkt>,      // live network packets
    done: map<nat, Outcome>,     // finished network packets
    acked: set<nat>,             // transmissions whose Ack was accepted
    samples: seq<FragId>)        // fragments that gave an RTT measurement

  const Initial := Model([], [], map[], map[], map[], {}, [])

  // ---- reading the history ----

  type Log = seq<FragId>
  type Fragments = seq<seq<LpPacket>>

  /** `id` names a fragment that was handed over. */
  ghost predicate Handed(handed: Fragments, id: FragId) {
    id.pkt < |handed| && id.index < |handed[id.pkt]|
  }

  /** How often a fragment has been transmitted. */
  ghost function TxCount(sent: Log, id: FragId): nat {
    multiset(sent)[id]
  }

  /** Transmission `n` is the latest one of the fragment it carried. */
  ghost predicate Latest(sent: Log, n: nat)
    requires n < |sent|
  {
    forall j :: n < j < |sent| ==> sent[j] != sent[n]
  }

  ghost predicate IsLive(live: map<nat, Tx>, id: FragId) {
    exists n :: n in live && live[n].id == id
  }

  ghost predicate IsAcked(acked: set<nat>, sent: Log, id: FragId) {
    exists a :: a in acked && a < |sent| && sent[a] == id
  }

  /** Accepted Acks of transmissions after `n`. */
  ghost function AckedAfter(acked: set<nat>, n: nat): set<nat> {
    set a | a in acked && n < a
  }

  // ---- steps ----

  /** The next transmission number would repeat the TxSequence of the window start. */
  ghost predicate WindowFull(m: Model) {
    |m.sent| - TWO64 in m.live
  }

  /** A network packet is handed over; its fragments follow one by one. */
  ghost function Open(m: Model): Model {
    m.(handed := m.handed + [[]], pkts := m.pkts[|m.handed| := NetPkt([], false)])
  }

  ghost predicate IsOpen(m: Model) {
    m.handed != [] && |m.handed| - 1 in m.pkts
  }

  /** The next fragment of the packet handed over last is transmitted. */
  ghost function Push(m: Model, frag: LpPacket): Model
    requires IsOpen(m)
  {
    var p, n := |m.handed| - 1, |m.sent|;
    var id := FragId(p, |m.handed[p]|);
    m.(handed := m.handed[p := m.handed[p] + [frag]],
       sent := m.sent + [id],
       live := m.live[n := Tx(id, 0, 0)],
       pkts := m.pkts[p := m.pkts[p].(unacked := m.pkts[p].unacked + [n])])
  }

  /** The fragments counted as passed by the Ack of transmission `a`. */
  ghost function CountGreaterAck(live: map<nat, Tx>, a: nat): map<nat, Tx> {
    map n | n in live :: if n < a then live[n].(nGreaterSeqAcks := live[n].nGreaterSeqAcks + 1) else live[n]
  }

  /** Removal from an unordered vector: the last element takes the freed place. */
  function SwapRemove<T>(s: seq<T>, i: nat): seq<T>
    requires i < |s|
  {
    s[i := s[|s| - 1]][..|s| - 1]
  }

  /** `std::find` of an element that is present. */
  function IndexOf<T(==)>(s: seq<T>, x: T): (i: nat)
    requires x in s
    ensures i < |s| && s[i] == x && forall j :: 0 <= j < i ==> s[j] != x
  {
    if s[0] == x then 0 else 1 + IndexOf(s[1..], x)
  }

  /** Transmission `a` is acknowledged and leaves its network packet. */
  ghost function Settle(m: Model, a: nat): Model
    requires a in m.live && m.live[a].id.pkt in m.pkts
    requires a in m.pkts[m.live[a].id.pkt].unacked
  {
    var tx := m.live[a];
    var p := tx.id.pkt;
    var rest := SwapRemove(m.pkts[p].unacked, IndexOf(m.pkts[p].unacked, a));
    var m1 := m.(live := m.live - {a},
                 acked := m.acked + {a},
                 samples := if tx.retxCount == 0 then m.samples + [tx.id] else m.samples);
    if rest == [] then
      m1.(pkts := m.pkts - {p},
          done := m.done[p := if m.pkts[p].didRetx then Retransmitted else Acknowledged])
    else
      m1.(pkts := m.pkts[p := m.pkts[p].(unacked := rest)])
  }

  /** An Ack of transmission `a` arrives; the losses it reveals are not handled yet. */
  ghost function Acknowledge(m: Model, a: nat): Model
    requires a in m.live && m.live[a].id.pkt in m.pkts
    requires a in m.pkts[m.live[a].id.pkt].unacked
  {
    Settle(m.(live := CountGreaterAck(m.live, a)), a)
  }

  /** Transmission `n` is lost and its fragment may be transmitted again. */
  ghost function Retransmit(m: Model, n: nat): Model
    requires n in m.live && m.live[n].id.pkt in m.pkts
    requires n in m.pkts[m.live[n].id.pkt].unacked
  {
    var tx, n' := m.live[n], |m.sent|;
    var p := tx.id.pkt;
    var unacked := m.pkts[p].unacked;
    m.(sent := m.sent + [tx.id],
       live := (m.live - {n})[n' := Tx(tx.id, tx.retxCount + 1, 0)],
       pkts := m.pkts[p := NetPkt(unacked[IndexOf(unacked, n) := n'], true)])
  }

  /** Transmission `n` is lost for good: its whole network packet is dropped. */
  ghost function Drop(m: Model, n: nat): Model
    requires n in m.live && m.live[n].id.pkt in m.pkts
  {
    var p := m.live[n].id.pkt;
    m.(live := m.live - (set x | x in m.pkts[p].unacked),
       pkts := m.pkts - {p},
       done := m.done[p := RetxExhausted])
  }

  // ---- invariants ----

  /** The log explains every live transmission: it is among the last 2^64, the latest
      one of its fragment, and its retransmission count is the number of repetitions
      in the log. */
  ghost predicate LiveLogged(live: map<nat, Tx>, sent: Log) {
    forall n :: n in live ==>
      && |sent| - TWO64 <= n < |sent|
      && sent[n] == live[n].id
      && Latest(sent, n)
      && TxCount(sent, live[n].id) == live[n].retxCount + 1
  }

  ghost predicate LogHanded(sent: Log, handed: Fragments) {
    forall j :: 0 <= j < |sent| ==> Handed(handed, sent[j])
  }

  /** Every fragment handed over is transmitted, and at most `maxRetx + 1` times. */
  ghost predicate CountsBounded(sent: Log, handed: Fragments, maxRetx: nat) {
    forall id :: Handed(handed, id) ==> 1 <= TxCount(sent, id) <= maxRetx + 1
  }

  ghost predicate AcksLogged(acked: set<nat>, sent: Log) {
    forall a :: a in acked ==> a < |sent|
  }

  /** An accepted Ack settles its fragment: it is not live again. */
  ghost predicate AcksSettle(live: map<nat, Tx>, acked: set<nat>, sent: Log) {
    forall n :: n in live ==> !IsAcked(acked, sent, live[n].id)
  }

  /** The loss counter is the number of accepted Acks of later transmissions. */
  ghost predicate AcksCounted(live: map<nat, Tx>, acked: set<nat>) {
    forall n :: n in live ==> live[n].nGreaterSeqAcks == |AckedAfter(acked, n)|
  }

  /** Packets handed over are either live or finished. */
  ghost predicate Partition(pkts: map<nat, NetPkt>, done: map<nat, Outcome>, nHanded: nat) {
    && (forall p :: p in pkts ==> p < nHanded && p !in done)
    && (forall p :: p in done ==> p < nHanded)
    && (forall p :: 0 <= p < nHanded ==> p in pkts || p in done)
  }

  /** Every live transmission is in the list of its packet... */
  ghost predicate LiveListed(live: map<nat, Tx>, pkts: map<nat, NetPkt>) {
    forall n :: n in live ==> live[n].id.pkt in pkts && n in pkts[live[n].id.pkt].unacked
  }

  /** ...once, and lists hold nothing else. */
  ghost predicate ListsLive(live: map<nat, Tx>, pkts: map<nat, NetPkt>) {
    forall p :: p in pkts ==> ListLive(live, p, pkts[p].unacked)
  }

  ghost predicate ListLive(live: map<nat, Tx>, p: nat, unacked: seq<nat>) {
    && NoDuplicates(unacked)
    && forall n :: n in unacked ==> n in live && live[n].id.pkt == p
  }

  /** A live packet (with any fragment at all) still waits for something. */
  ghost predicate ListsNonEmpty(pkts: map<nat, NetPkt>, handed: Fragments) {
    forall p :: p in pkts && p < |handed| && handed[p] != [] ==> pkts[p].unacked != []
  }

  /** Every fragment of a live packet is live or acknowledged. */
  ghost predicate Covered(m: Model) {
    forall id :: Handed(m.handed, id) && id.pkt in m.pkts ==> IsLive(m.live, id) || IsAcked(m.acked, m.sent, id)
  }

  ghost predicate SomeRepeated(sent: Log, handed: Fragments, p: nat) {
    exists id :: Handed(handed, id) && id.pkt == p && TxCount(sent, id) >= 2
  }

  ghost predicate FlagsRetx(pkts: map<nat, NetPkt>, sent: Log, handed: Fragments) {
    forall p :: p in pkts ==> (pkts[p].didRetx <==> SomeRepeated(sent, handed, p))
  }

  /** A finished packet is counted by what became of its fragments. */
  ghost predicate Accounted(done: map<nat, Outcome>, acked: set<nat>, sent: Log, handed: Fragments, maxRetx: nat) {
    forall p :: p in done ==> Explains(done[p], p, acked, sent, handed, maxRetx)
  }

  ghost predicate AllAcked(acked: set<nat>, sent: Log, handed: Fragments, p: nat) {
    forall id :: Handed(handed, id) && id.pkt == p ==> IsAcked(acked, sent, id)
  }

  ghost predicate GaveUp(acked: set<nat>, sent: Log, handed: Fragments, maxRetx: nat, p: nat) {
    exists id :: Handed(handed, id) && id.pkt == p && !IsAcked(acked, sent, id) && TxCount(sent, id) == maxRetx + 1
  }

  ghost predicate Explains(o: Outcome, p: nat, acked: set<nat>, sent: Log, handed: Fragments, maxRetx: nat) {
    match o
    case Acknowledged => AllAcked(acked, sent, handed, p) && !SomeRepeated(sent, handed, p)
    case Retransmitted => AllAcked(acked, sent, handed, p) && SomeRepeated(sent, handed, p)
    case RetxExhausted => GaveUp(acked, sent, handed, maxRetx, p)
  }

  /** RTT is measured exactly once on each fragment acknowledged without any
      retransmission, and on no other (section 3 of RFC 6298). */
  ghost predicate Sampled(samples: seq<FragId>, acked: set<nat>, sent: Log) {
    && NoDuplicates(samples)
    && forall id :: id in samples <==> IsAcked(acked, sent, id) && TxCount(sent, id) == 1
  }

  /** Everything but the loss threshold, which an Ack breaks until losses are handled. */
  ghost predicate CoreInv(m: Model, o: Options) {
    && LiveLogged(m.live, m.sent)
    && LogHanded(m.sent, m.handed)
    && CountsBounded(m.sent, m.handed, o.maxRetx)
    && AcksLogged(m.acked, m.sent)
    && AcksSettle(m.live, m.acked, m.sent)
    && AcksCounted(m.live, m.acked)
    && Partition(m.pkts, m.done, |m.handed|)
    && LiveListed(m.live, m.pkts)
    && ListsLive(m.live, m.pkts)
    && ListsNonEmpty(m.pkts, m.handed)
    && Covered(m)
    && FlagsRetx(m.pkts, m.sent, m.handed)
    && Accounted(m.done, m.acked, m.sent, m.handed, o.maxRetx)
    && Sampled(m.samples, m.acked, m.sent)
  }

  /** No live transmission has been passed by the threshold number of Acks. */
  ghost predicate BelowThreshold(live: map<nat, Tx>, o: Options) {
    forall n :: n in live ==> live[n].nGreaterSeqAcks < o.seqNumLossThreshold
  }

  ghost predicate Inv(m: Model, o: Options) {
    CoreInv(m, o) && (o.seqNumLossThreshold >= 1 ==> BelowThreshold(m.live, o))
  }
}
