/** Every step of the reliability model keeps its invariants. */
module ReliabilityProofs {
  import opened Basics
  import opened LpPackets
  import opened ReliabilityModel

  // ---- one more entry in the log ----

  lemma LogOneMore(sent: Log, id: FragId)
    ensures forall x :: TxCount(sent + [id], x) == TxCount(sent, x) + if x == id then 1 else 0
  {
  }

  /** A longer log changes nothing for transmissions of other fragments. */
  lemma LatestStays(sent: Log, n: nat, id: FragId)
    requires n < |sent| && Latest(sent, n) && sent[n] != id
    ensures Latest(sent + [id], n)
  {
  }

  lemma AckedStays(acked: set<nat>, sent: Log, id: FragId, x: FragId)
    requires AcksLogged(acked, sent)
    ensures IsAcked(acked, sent + [id], x) == IsAcked(acked, sent, x)
  {
    var sent' := sent + [id];
    if IsAcked(acked, sent, x) {
      var a :| a in acked && a < |sent| && sent[a] == x;
      assert sent'[a] == x;
    }
    if IsAcked(acked, sent', x) {
      var a :| a in acked && a < |sent'| && sent'[a] == x;
      assert a < |sent| && sent[a] == x;
    }
  }

  /** Logging the transmission of a fragment that is not live makes it live. */
  lemma LogAppend(live: map<nat, Tx>, sent: Log, tx: Tx)
    requires LiveLogged(live, sent) && |sent| - TWO64 !in live
    requires !IsLive(live, tx.id) && TxCount(sent, tx.id) == tx.retxCount
    ensures LiveLogged(live[|sent| := tx], sent + [tx.id])
  {
    hide TxCount, Latest;
    var id, live', sent' := tx.id, live[|sent| := tx], sent + [tx.id];
    LogOneMore(sent, id);
    forall n | n in live'
      ensures |sent'| - TWO64 <= n < |sent'| && sent'[n] == live'[n].id && Latest(sent', n)
      ensures TxCount(sent', live'[n].id) == live'[n].retxCount + 1
    {
      if n == |sent| {
        LatestLast(sent, id);
      } else {
        assert sent[n] == live[n].id;
        LatestStays(sent, n, id);
      }
    }
  }

  lemma LatestLast(sent: Log, id: FragId)
    ensures Latest(sent + [id], |sent|)
  {
  }

  // ---- transmitting a new fragment ----

  lemma NewFragment(sent: Log, handed: Fragments, p: nat)
    requires LogHanded(sent, handed) && p < |handed|
    ensures TxCount(sent, FragId(p, |handed[p]|)) == 0
  {
    var id := FragId(p, |handed[p]|);
    assert !Handed(handed, id);
    assert id !in sent;
  }

  lemma HandedOneMore(handed: Fragments, p: nat, frag: LpPacket)
    requires p < |handed|
    ensures forall x :: Handed(handed[p := handed[p] + [frag]], x) <==> Handed(handed, x) || x == FragId(p, |handed[p]|)
  {
  }

  lemma LiveIsSent(live: map<nat, Tx>, sent: Log, id: FragId)
    requires LiveLogged(live, sent) && TxCount(sent, id) == 0
    ensures !IsLive(live, id)
  {
  }

  lemma PushLog(m: Model, o: Options, frag: LpPacket)
    requires CoreInv(m, o) && IsOpen(m) && !WindowFull(m)
    ensures var m' := Push(m, frag);
      && LiveLogged(m'.live, m'.sent)
      && LogHanded(m'.sent, m'.handed)
      && CountsBounded(m'.sent, m'.handed, o.maxRetx)
      && AcksLogged(m'.acked, m'.sent)
  {
    hide TxCount, Handed, LiveLogged;
    var p := |m.handed| - 1;
    var id := FragId(p, |m.handed[p]|);
    NewFragment(m.sent, m.handed, p);
    LiveIsSent(m.live, m.sent, id);
    LogAppend(m.live, m.sent, Tx(id, 0, 0));
    LogOneMore(m.sent, id);
    HandedOneMore(m.handed, p, frag);
  }

  lemma NotSentNotAcked(acked: set<nat>, sent: Log, id: FragId)
    requires TxCount(sent, id) == 0
    ensures !IsAcked(acked, sent, id)
  {
  }

  lemma NoLaterAcks(acked: set<nat>, sent: Log)
    requires AcksLogged(acked, sent)
    ensures |AckedAfter(acked, |sent|)| == 0
  {
    assert AckedAfter(acked, |sent|) == {};
  }

  lemma AllAckedStay(acked: set<nat>, sent: Log, id: FragId)
    requires AcksLogged(acked, sent)
    ensures forall x :: IsAcked(acked, sent + [id], x) == IsAcked(acked, sent, x)
  {
    forall x { AckedStays(acked, sent, id, x); }
  }

  lemma PushAcks(m: Model, o: Options, frag: LpPacket)
    requires CoreInv(m, o) && IsOpen(m)
    ensures var m' := Push(m, frag);
      && AcksSettle(m'.live, m'.acked, m'.sent)
      && AcksCounted(m'.live, m'.acked)
      && Sampled(m'.samples, m'.acked, m'.sent)
  {
    hide TxCount, LiveLogged, IsAcked, AckedAfter;
    var p := |m.handed| - 1;
    var id := FragId(p, |m.handed[p]|);
    NewFragment(m.sent, m.handed, p);
    NotSentNotAcked(m.acked, m.sent, id);
    AllAckedStay(m.acked, m.sent, id);
    LogOneMore(m.sent, id);
    NoLaterAcks(m.acked, m.sent);
  }

  lemma PushLists(m: Model, o: Options, frag: LpPacket)
    requires CoreInv(m, o) && IsOpen(m)
    ensures var m' := Push(m, frag);
      && Partition(m'.pkts, m'.done, |m'.handed|)
      && LiveListed(m'.live, m'.pkts)
      && ListsLive(m'.live, m'.pkts)
      && ListsNonEmpty(m'.pkts, m'.handed)
  {
    hide TxCount, LiveLogged, IsAcked, AckedAfter, Covered, Accounted, Sampled, FlagsRetx, ListsLive;
    var m', p, n := Push(m, frag), |m.handed| - 1, |m.sent|;
    assert n !in m.live by { FreshNumber(m.live, m.sent); }
    ListsLiveExtend(m.live, m.pkts, p, n, Tx(FragId(p, |m.handed[p]|), 0, 0));
  }

  lemma FreshNumber(live: map<nat, Tx>, sent: Log)
    requires LiveLogged(live, sent)
    ensures |sent| !in live
  {
  }

  lemma ListsLiveExtend(live: map<nat, Tx>, pkts: map<nat, NetPkt>, p: nat, n: nat, tx: Tx)
    requires ListsLive(live, pkts) && p in pkts && n !in live && tx.id.pkt == p
    ensures ListsLive(live[n := tx], pkts[p := pkts[p].(unacked := pkts[p].unacked + [n])])
  {
    assert ListLive(live, p, pkts[p].unacked);
    assert ListLive(live[n := tx], p, pkts[p].unacked + [n]);
    forall q | q in pkts && q != p ensures ListLive(live[n := tx], q, pkts[q].unacked) {
      assert ListLive(live, q, pkts[q].unacked);
    }
  }

  lemma LiveStays(live: map<nat, Tx>, n: nat, tx: Tx, id: FragId)
    requires n !in live && IsLive(live, id)
    ensures IsLive(live[n := tx], id)
  {
    var x :| x in live && live[x].id == id;
    assert x in live[n := tx];
  }

  lemma PushCovered(m: Model, o: Options, frag: LpPacket)
    requires CoreInv(m, o) && IsOpen(m)
    ensures Covered(Push(m, frag))
  {
    hide TxCount, LiveLogged, IsAcked, IsLive, Handed;
    var m', p, n := Push(m, frag), |m.handed| - 1, |m.sent|;
    var id := FragId(p, |m.handed[p]|);
    FreshNumber(m.live, m.sent);
    AllAckedStay(m.acked, m.sent, id);
    HandedOneMore(m.handed, p, frag);
    forall x | Handed(m'.handed, x) && x.pkt in m'.pkts
      ensures IsLive(m'.live, x) || IsAcked(m'.acked, m'.sent, x)
    {
      if x == id {
        NowLive(m.live, n, Tx(id, 0, 0));
      } else if IsLive(m.live, x) {
        LiveStays(m.live, n, Tx(id, 0, 0), x);
      }
    }
  }

  lemma NowLive(live: map<nat, Tx>, n: nat, tx: Tx)
    ensures IsLive(live[n := tx], tx.id)
  {
    assert n in live[n := tx];
  }

  /** Logging a transmission of packet `id.pkt` does not concern other packets. */
  lemma OthersUnaffected(acked: set<nat>, sent: Log, handed: Fragments, handed': Fragments, id: FragId, q: nat)
    requires AcksLogged(acked, sent) && id.pkt != q
    requires forall x: FragId :: x.pkt == q ==> Handed(handed', x) == Handed(handed, x)
    ensures SomeRepeated(sent + [id], handed', q) == SomeRepeated(sent, handed, q)
    ensures AllAcked(acked, sent + [id], handed', q) == AllAcked(acked, sent, handed, q)
    ensures forall k :: GaveUp(acked, sent, handed, k, q) ==> GaveUp(acked, sent + [id], handed', k, q)
  {
    hide TxCount, IsAcked, Handed;
    AllAckedStay(acked, sent, id);
    LogOneMore(sent, id);
  }

  lemma AccountedStays(m: Model, o: Options, handed': Fragments, id: FragId)
    requires AcksLogged(m.acked, m.sent) && Accounted(m.done, m.acked, m.sent, m.handed, o.maxRetx)
    requires id.pkt !in m.done
    requires forall x: FragId :: x.pkt != id.pkt ==> Handed(handed', x) == Handed(m.handed, x)
    ensures Accounted(m.done, m.acked, m.sent + [id], handed', o.maxRetx)
  {
    hide SomeRepeated, AllAcked, GaveUp, Handed;
    forall q | q in m.done ensures Explains(m.done[q], q, m.acked, m.sent + [id], handed', o.maxRetx) {
      OthersUnaffected(m.acked, m.sent, m.handed, handed', id, q);
    }
  }

  lemma PushFlags(m: Model, o: Options, frag: LpPacket)
    requires CoreInv(m, o) && IsOpen(m)
    ensures var m' := Push(m, frag);
      && FlagsRetx(m'.pkts, m'.sent, m'.handed)
      && Accounted(m'.done, m'.acked, m'.sent, m'.handed, o.maxRetx)
  {
    hide TxCount, LiveLogged, IsAcked, IsLive, Handed, Covered, SomeRepeated, Accounted;
    var m', p, n := Push(m, frag), |m.handed| - 1, |m.sent|;
    var id := FragId(p, |m.handed[p]|);
    HandedOneMore(m.handed, p, frag);
    AccountedStays(m, o, m'.handed, id);
    NewFragment(m.sent, m.handed, p);
    RepeatedByNew(m.sent, m.handed, m'.handed, id);
    forall q | q in m.pkts && q != p ensures SomeRepeated(m'.sent, m'.handed, q) == SomeRepeated(m.sent, m.handed, q) {
      OthersUnaffected(m.acked, m.sent, m.handed, m'.handed, id, q);
    }
  }

  lemma RepeatedByNew(sent: Log, handed: Fragments, handed': Fragments, id: FragId)
    requires TxCount(sent, id) == 0
    requires forall x :: Handed(handed', x) <==> Handed(handed, x) || x == id
    ensures SomeRepeated(sent + [id], handed', id.pkt) == SomeRepeated(sent, handed, id.pkt)
  {
    hide TxCount, Handed;
    LogOneMore(sent, id);
  }

  lemma PushKeepsInv(m: Model, o: Options, frag: LpPacket)
    requires Inv(m, o) && IsOpen(m) && !WindowFull(m)
    ensures Inv(Push(m, frag), o) && IsOpen(Push(m, frag))
  {
    hide LiveLogged, LogHanded, CountsBounded, AcksLogged, AcksSettle, AcksCounted, Partition, LiveListed,
         ListsLive, ListsNonEmpty, Covered, FlagsRetx, Accounted, Sampled;
    PushLog(m, o, frag);
    PushAcks(m, o, frag);
    PushLists(m, o, frag);
    PushCovered(m, o, frag);
    PushFlags(m, o, frag);
  }

  lemma OpenKeepsInv(m: Model, o: Options)
    requires Inv(m, o)
    ensures Inv(Open(m), o) && IsOpen(Open(m))
  {
    hide LiveLogged, LogHanded, CountsBounded, AcksLogged, AcksSettle, AcksCounted, LiveListed,
         ListsLive, Covered, FlagsRetx, Accounted, Sampled;
    OpenLog(m, o);
    OpenLists(m, o);
    OpenPkts(m, o);
  }

  lemma OpenLog(m: Model, o: Options)
    requires CoreInv(m, o)
    ensures LogHanded(m.sent, Open(m).handed)
    ensures CountsBounded(m.sent, Open(m).handed, o.maxRetx)
  {
    hide TxCount, LiveLogged, Covered, FlagsRetx, Accounted, Sampled, LiveListed, ListsLive;
    assert forall id :: Handed(Open(m).handed, id) <==> Handed(m.handed, id);
  }

  lemma OpenLists(m: Model, o: Options)
    requires CoreInv(m, o)
    ensures LiveListed(m.live, Open(m).pkts)
    ensures ListsLive(m.live, Open(m).pkts)
  {
    hide TxCount, LiveLogged, Covered, FlagsRetx, Accounted, Sampled;
    assert |m.handed| !in m.pkts;
    assert forall n :: n in m.live ==> m.live[n].id.pkt in m.pkts;
    assert ListLive(m.live, |m.handed|, []);
  }

  lemma OpenPkts(m: Model, o: Options)
    requires CoreInv(m, o)
    ensures Covered(Open(m))
    ensures FlagsRetx(Open(m).pkts, m.sent, Open(m).handed)
    ensures Accounted(m.done, m.acked, m.sent, Open(m).handed, o.maxRetx)
  {
    hide TxCount, LiveLogged, Sampled, IsLive, IsAcked, LiveListed, ListsLive;
    var handed' := Open(m).handed;
    assert forall id :: Handed(handed', id) <==> Handed(m.handed, id);
    assert forall q :: SomeRepeated(m.sent, handed', q) == SomeRepeated(m.sent, m.handed, q);
    assert !SomeRepeated(m.sent, m.handed, |m.handed|);
    forall q | q in m.done ensures Explains(m.done[q], q, m.acked, m.sent, handed', o.maxRetx) {
      assert AllAcked(m.acked, m.sent, m.handed, q) ==> AllAcked(m.acked, m.sent, handed', q);
      assert GaveUp(m.acked, m.sent, m.handed, o.maxRetx, q) ==> GaveUp(m.acked, m.sent, handed', o.maxRetx, q);
    }
  }

  // ---- retransmission ----

  /** A fragment has at most one live transmission. */
  lemma OneLivePerFragment(live: map<nat, Tx>, sent: Log, n: nat)
    requires LiveLogged(live, sent) && n in live
    ensures !IsLive(live - {n}, live[n].id)
  {
    forall x | x in live && x != n ensures live[x].id != live[n].id {
      assert Latest(sent, x) && Latest(sent, n);
    }
  }

  lemma RetransmitLog(m: Model, o: Options, n: nat)
    requires CoreInv(m, o) && n in m.live && !WindowFull(m) && m.live[n].retxCount < o.maxRetx
    ensures var m' := Retransmit(m, n);
      && LiveLogged(m'.live, m'.sent)
      && LogHanded(m'.sent, m'.handed)
      && CountsBounded(m'.sent, m'.handed, o.maxRetx)
      && AcksLogged(m'.acked, m'.sent)
  {
    hide TxCount, Handed, IsLive, Latest, Covered, FlagsRetx, Accounted, Sampled, ListsLive;
    var tx := m.live[n];
    OneLivePerFragment(m.live, m.sent, n);
    LogAppend(m.live - {n}, m.sent, Tx(tx.id, tx.retxCount + 1, 0));
    LogOneMore(m.sent, tx.id);
    assert m.sent[n] == tx.id;
  }

  lemma RetransmitAcks(m: Model, o: Options, n: nat)
    requires CoreInv(m, o) && n in m.live
    ensures var m' := Retransmit(m, n);
      && AcksSettle(m'.live, m'.acked, m'.sent)
      && AcksCounted(m'.live, m'.acked)
      && Sampled(m'.samples, m'.acked, m'.sent)
  {
    hide TxCount, LiveLogged, IsAcked, AckedAfter, Covered, FlagsRetx, Accounted, ListsLive;
    AllAckedStay(m.acked, m.sent, m.live[n].id);
    LogOneMore(m.sent, m.live[n].id);
    NoLaterAcks(m.acked, m.sent);
  }

  lemma ReplaceInList(live: map<nat, Tx>, pkts: map<nat, NetPkt>, n: nat, n': nat, tx: Tx)
    requires LiveListed(live, pkts) && ListsLive(live, pkts)
    requires n in live && n' !in live && tx.id.pkt == live[n].id.pkt
    ensures var p := tx.id.pkt;
      var unacked := pkts[p].unacked[IndexOf(pkts[p].unacked, n) := n'];
      ListLive((live - {n})[n' := tx], p, unacked) && n' in unacked
      && forall x :: x in pkts[p].unacked && x != n ==> x in unacked
  {
    var p := tx.id.pkt;
    var s := pkts[p].unacked;
    assert ListLive(live, p, s);
    var i := IndexOf(s, n);
    var t := s[i := n'];
    assert t[i] == n';
    forall x | x in s && x != n ensures x in t {
      var j :| 0 <= j < |s| && s[j] == x;
      assert t[j] == x;
    }
  }

  lemma RetransmitLists(m: Model, o: Options, n: nat)
    requires CoreInv(m, o) && n in m.live
    ensures var m' := Retransmit(m, n);
      && Partition(m'.pkts, m'.done, |m'.handed|)
      && LiveListed(m'.live, m'.pkts)
      && ListsLive(m'.live, m'.pkts)
      && ListsNonEmpty(m'.pkts, m'.handed)
  {
    hide TxCount, LiveLogged, IsAcked, AckedAfter, Covered, Accounted, Sampled, FlagsRetx, ListLive, IndexOf;
    var m', p, n' := Retransmit(m, n), m.live[n].id.pkt, |m.sent|;
    FreshNumber(m.live, m.sent);
    ReplaceInList(m.live, m.pkts, n, n', Tx(m.live[n].id, m.live[n].retxCount + 1, 0));
    forall q | q in m.pkts && q != p ensures ListLive(m'.live, q, m.pkts[q].unacked) {
      OtherList(m.live, q, m.pkts[q].unacked, n, n', m'.live[n']);
    }
  }

  lemma OtherList(live: map<nat, Tx>, q: nat, unacked: seq<nat>, n: nat, n': nat, tx: Tx)
    requires ListLive(live, q, unacked) && n in live && live[n].id.pkt != q && n' !in live
    ensures ListLive((live - {n})[n' := tx], q, unacked)
  {
  }

  lemma RetransmitPkts(m: Model, o: Options, n: nat)
    requires CoreInv(m, o) && n in m.live
    ensures var m' := Retransmit(m, n);
      && Covered(m')
      && FlagsRetx(m'.pkts, m'.sent, m'.handed)
      && Accounted(m'.done, m'.acked, m'.sent, m'.handed, o.maxRetx)
  {
    hide LiveLogged, IsAcked, IsLive, Handed, SomeRepeated, Accounted, Sampled, AckedAfter, TxCount, IndexOf, ListsLive;
    var m', n', id := Retransmit(m, n), |m.sent|, m.live[n].id;
    FreshNumber(m.live, m.sent);
    AllAckedStay(m.acked, m.sent, id);
    AccountedStays(m, o, m.handed, id);
    NowRepeated(m.live, m.sent, m.handed, n);
    forall q | q in m.pkts && q != id.pkt ensures SomeRepeated(m'.sent, m.handed, q) == SomeRepeated(m.sent, m.handed, q) {
      OthersUnaffected(m.acked, m.sent, m.handed, m.handed, id, q);
    }
    forall x | Handed(m.handed, x) && x.pkt in m.pkts
      ensures IsLive(m'.live, x) || IsAcked(m.acked, m'.sent, x)
    {
      MovedLive(m.live, n, n', m'.live[n'], x);
    }
  }

  lemma MovedLive(live: map<nat, Tx>, n: nat, n': nat, tx: Tx, id: FragId)
    requires n in live && n' !in live && tx.id == live[n].id
    ensures IsLive(live, id) ==> IsLive((live - {n})[n' := tx], id)
  {
    if IsLive(live, id) {
      var x :| x in live && live[x].id == id;
      assert (if x == n then n' else x) in (live - {n})[n' := tx];
    }
  }

  lemma NowRepeated(live: map<nat, Tx>, sent: Log, handed: Fragments, n: nat)
    requires LiveLogged(live, sent) && LogHanded(sent, handed) && n in live
    ensures SomeRepeated(sent + [live[n].id], handed, live[n].id.pkt)
  {
    hide TxCount;
    LogOneMore(sent, live[n].id);
    assert Handed(handed, sent[n]);
  }

  lemma RetransmitKeepsInv(m: Model, o: Options, n: nat)
    requires CoreInv(m, o) && n in m.live && !WindowFull(m) && m.live[n].retxCount < o.maxRetx
    ensures CoreInv(Retransmit(m, n), o)
  {
    hide LiveLogged, LogHanded, CountsBounded, AcksLogged, AcksSettle, AcksCounted, Partition,
         ListsLive, ListsNonEmpty, Covered, FlagsRetx, Accounted, Sampled;
    RetransmitLog(m, o, n);
    RetransmitAcks(m, o, n);
    RetransmitLists(m, o, n);
    RetransmitPkts(m, o, n);
  }

  // ---- giving up ----

  /** The transmissions of packet `p` are exactly those in its list. */
  lemma ListIsPacket(live: map<nat, Tx>, pkts: map<nat, NetPkt>, p: nat, n: nat)
    requires LiveListed(live, pkts) && ListsLive(live, pkts) && p in pkts
    ensures n in pkts[p].unacked <==> n in live && live[n].id.pkt == p
  {
    assert ListLive(live, p, pkts[p].unacked);
  }

  lemma DropLive(m: Model, o: Options, n: nat)
    requires CoreInv(m, o) && n in m.live
    ensures var m', p := Drop(m, n), m.live[n].id.pkt;
      && (forall x :: x in m'.live <==> x in m.live && m.live[x].id.pkt != p)
      && (forall x :: x in m'.live ==> m'.live[x] == m.live[x])
  {
    hide LiveLogged, LogHanded, CountsBounded, AcksLogged, AcksSettle, AcksCounted,
         ListsLive, Covered, FlagsRetx, Accounted, Sampled;
    var p := m.live[n].id.pkt;
    forall x ensures x in m.pkts[p].unacked <==> x in m.live && m.live[x].id.pkt == p {
      ListIsPacket(m.live, m.pkts, p, x);
    }
  }

  lemma DropLogAndAcks(m: Model, o: Options, n: nat)
    requires CoreInv(m, o) && n in m.live
    ensures var m' := Drop(m, n);
      LiveLogged(m'.live, m'.sent) && AcksSettle(m'.live, m'.acked, m'.sent) && AcksCounted(m'.live, m'.acked)
  {
    hide TxCount, Latest, IsAcked, AckedAfter, Covered, FlagsRetx, Accounted, Sampled, ListsLive, Handed;
    DropLive(m, o, n);
  }

  lemma DropLists(m: Model, o: Options, n: nat)
    requires CoreInv(m, o) && n in m.live
    ensures var m' := Drop(m, n);
      && Partition(m'.pkts, m'.done, |m'.handed|)
      && LiveListed(m'.live, m'.pkts)
      && ListsLive(m'.live, m'.pkts)
      && ListsNonEmpty(m'.pkts, m'.handed)
      && Covered(m')
      && FlagsRetx(m'.pkts, m'.sent, m'.handed)
  {
    hide TxCount, LiveLogged, IsAcked, IsLive, AckedAfter, Accounted, Sampled, Handed, SomeRepeated, LogHanded;
    var m', p := Drop(m, n), m.live[n].id.pkt;
    DropLive(m, o, n);
    forall q | q in m'.pkts ensures ListLive(m'.live, q, m'.pkts[q].unacked) {
      assert ListLive(m.live, q, m.pkts[q].unacked);
    }
    forall id | Handed(m.handed, id) && id.pkt in m'.pkts
      ensures IsLive(m'.live, id) || IsAcked(m.acked, m.sent, id)
    {
      if IsLive(m.live, id) { StillLive(m.live, m'.live, id); }
    }
  }

  lemma StillLive(live: map<nat, Tx>, live': map<nat, Tx>, id: FragId)
    requires IsLive(live, id)
    requires forall x :: x in live && live[x].id == id ==> x in live' && live'[x].id == id
    ensures IsLive(live', id)
  {
    var x :| x in live && live[x].id == id;
    assert x in live';
  }

  lemma DropAccounted(m: Model, o: Options, n: nat)
    requires CoreInv(m, o) && n in m.live && m.live[n].retxCount >= o.maxRetx
    ensures Accounted(Drop(m, n).done, m.acked, m.sent, m.handed, o.maxRetx)
  {
    hide TxCount, IsAcked, AckedAfter, Sampled, Handed, SomeRepeated, AllAcked, Latest, Covered, ListsLive;
    var id := m.live[n].id;
    assert m.sent[n] == id && Handed(m.handed, id);
    assert !IsAcked(m.acked, m.sent, id) && TxCount(m.sent, id) == o.maxRetx + 1;
  }

  lemma DropKeepsInv(m: Model, o: Options, n: nat)
    requires CoreInv(m, o) && n in m.live && m.live[n].retxCount >= o.maxRetx
    ensures CoreInv(Drop(m, n), o)
  {
    hide LiveLogged, LogHanded, CountsBounded, AcksLogged, AcksSettle, AcksCounted, Partition,
         ListsLive, ListsNonEmpty, Covered, FlagsRetx, Accounted, Sampled;
    DropLogAndAcks(m, o, n);
    DropLists(m, o, n);
    DropAccounted(m, o, n);
  }

  // ---- acknowledgement ----

  lemma {:induction false} SwapRemoveList(s: seq<nat>, i: nat)
    requires i < |s| && NoDuplicates(s)
    ensures NoDuplicates(SwapRemove(s, i))
    ensures forall x :: x in SwapRemove(s, i) <==> x in s && x != s[i]
  {
    var t := SwapRemove(s, i);
    forall x | x in s && x != s[i] ensures x in t {
      var j :| 0 <= j < |s| && s[j] == x;
      assert if j == |s| - 1 then t[i] == x else t[j] == x;
    }
  }

  lemma AckedOneMore(acked: set<nat>, sent: Log, a: nat)
    requires a < |sent|
    ensures forall x :: IsAcked(acked + {a}, sent, x) <==> IsAcked(acked, sent, x) || x == sent[a]
  {
    forall x ensures IsAcked(acked + {a}, sent, x) <==> IsAcked(acked, sent, x) || x == sent[a] {
      if IsAcked(acked, sent, x) {
        var b :| b in acked && b < |sent| && sent[b] == x;
        assert b in acked + {a};
      }
      assert a in acked + {a};
    }
  }

  lemma AckedAfterOneMore(acked: set<nat>, a: nat, n: nat)
    requires a !in acked
    ensures |AckedAfter(acked + {a}, n)| == |AckedAfter(acked, n)| + if n < a then 1 else 0
  {
    if n < a {
      assert AckedAfter(acked + {a}, n) == AckedAfter(acked, n) + {a};
    } else {
      assert AckedAfter(acked + {a}, n) == AckedAfter(acked, n);
    }
  }

  /** What an Ack leaves of the live transmissions. */
  lemma CountedLive(live: map<nat, Tx>, a: nat)
    ensures CountGreaterAck(live, a).Keys == live.Keys
    ensures a in live ==> CountGreaterAck(live, a)[a] == live[a]
    ensures var live' := CountGreaterAck(live, a) - {a};
      && (forall n :: n in live' <==> n in live && n != a)
      && (forall n :: n in live' ==> live'[n].id == live[n].id && live'[n].retxCount == live[n].retxCount)
      && (forall n :: n in live' ==> live'[n].nGreaterSeqAcks == live[n].nGreaterSeqAcks + if n < a then 1 else 0)
  {
  }

  lemma AcknowledgeLog(m: Model, o: Options, a: nat)
    requires CoreInv(m, o) && a in m.live
    ensures var m' := Acknowledge(m, a);
      LiveLogged(m'.live, m'.sent) && AcksLogged(m'.acked, m'.sent)
  {
    hide TxCount, Latest, IsAcked, AckedAfter, Covered, FlagsRetx, Accounted, Sampled, ListsLive, Handed, IndexOf,
         CountGreaterAck, SwapRemove;
    CountedLive(m.live, a);
  }

  /** The log, counters and samples after an Ack. */
  lemma AcknowledgeAcks(m: Model, o: Options, a: nat)
    requires CoreInv(m, o) && a in m.live
    ensures var m' := Acknowledge(m, a);
      && AcksSettle(m'.live, m'.acked, m'.sent)
      && AcksCounted(m'.live, m'.acked)
      && Sampled(m'.samples, m'.acked, m'.sent)
  {
    hide TxCount, Latest, IsAcked, AckedAfter, Covered, FlagsRetx, Accounted, ListsLive, Handed, IndexOf,
         CountGreaterAck, SwapRemove, Partition, ListsNonEmpty, CountsBounded, LogHanded;
    CountedLive(m.live, a);
    var m', id := Acknowledge(m, a), m.live[a].id;
    AckedOneMore(m.acked, m.sent, a);
    assert a !in m.acked by { NotYetAcked(m.live, m.acked, m.sent, a); }
    forall n | n in m'.live
      ensures !IsAcked(m'.acked, m.sent, m'.live[n].id)
      ensures m'.live[n].nGreaterSeqAcks == |AckedAfter(m'.acked, n)|
    {
      OneLive(m.live, m.sent, a, n);
      AckedAfterOneMore(m.acked, a, n);
    }
  }

  lemma OneLive(live: map<nat, Tx>, sent: Log, a: nat, n: nat)
    requires LiveLogged(live, sent) && a in live && n in live && a != n
    ensures live[a].id != live[n].id
  {
    assert Latest(sent, a) && Latest(sent, n);
  }

  lemma NotYetAcked(live: map<nat, Tx>, acked: set<nat>, sent: Log, a: nat)
    requires LiveLogged(live, sent) && AcksSettle(live, acked, sent) && a in live
    ensures a !in acked
  {
  }

  lemma AcknowledgeLists(m: Model, o: Options, a: nat)
    requires CoreInv(m, o) && a in m.live
    ensures var m' := Acknowledge(m, a);
      && Partition(m'.pkts, m'.done, |m'.handed|)
      && ListsNonEmpty(m'.pkts, m'.handed)
      && FlagsRetx(m'.pkts, m'.sent, m'.handed)
  {
    hide TxCount, LiveLogged, IsAcked, IsLive, AckedAfter, Accounted, Sampled, Handed, SomeRepeated, LogHanded,
         Covered, SwapRemove, IndexOf, CountGreaterAck, ListsLive, CountsBounded, AcksLogged, AcksSettle, AcksCounted,
         Latest;
    CountedLive(m.live, a);
  }

  lemma AcknowledgeListed(m: Model, o: Options, a: nat)
    requires CoreInv(m, o) && a in m.live
    ensures var m' := Acknowledge(m, a);
      LiveListed(m'.live, m'.pkts) && ListsLive(m'.live, m'.pkts)
  {
    hide TxCount, LiveLogged, IsAcked, IsLive, AckedAfter, Accounted, Sampled, Handed, SomeRepeated, LogHanded,
         Covered, SwapRemove, IndexOf, CountGreaterAck, ListsLive, ListLive, FlagsRetx, Partition;
    CountedLive(m.live, a);
    ListsWithout(m.live, Acknowledge(m, a).live, m.pkts, a);
  }

  lemma ListsWithout(live: map<nat, Tx>, live': map<nat, Tx>, pkts: map<nat, NetPkt>, a: nat)
    requires ListsLive(live, pkts) && a in live && live[a].id.pkt in pkts && a in pkts[live[a].id.pkt].unacked
    requires forall n :: n in live && n != a ==> n in live' && live'[n].id == live[n].id
    ensures var p := live[a].id.pkt;
      var rest := SwapRemove(pkts[p].unacked, IndexOf(pkts[p].unacked, a));
      && (forall x :: x in rest <==> x in pkts[p].unacked && x != a)
      && ListsLive(live', pkts - {p})
      && ListsLive(live', pkts[p := pkts[p].(unacked := rest)])
  {
    hide IndexOf, SwapRemove;
    var p := live[a].id.pkt;
    var s := pkts[p].unacked;
    assert ListLive(live, p, s);
    SwapRemoveList(s, IndexOf(s, a));
    forall q | q in pkts && q != p ensures ListLive(live', q, pkts[q].unacked) {
      assert ListLive(live, q, pkts[q].unacked);
    }
  }

  lemma AcknowledgeCovered(m: Model, o: Options, a: nat)
    requires CoreInv(m, o) && a in m.live
    ensures Covered(Acknowledge(m, a))
  {
    hide TxCount, LiveLogged, IsAcked, IsLive, AckedAfter, Accounted, Sampled, Handed, SomeRepeated, LogHanded,
         SwapRemove, IndexOf, ListsLive, CountGreaterAck;
    CountedLive(m.live, a);
    var m' := Acknowledge(m, a);
    SentLive(m.live, m.sent, a);
    AckedOneMore(m.acked, m.sent, a);
    forall id | Handed(m.handed, id) && id.pkt in m'.pkts
      ensures IsLive(m'.live, id) || IsAcked(m'.acked, m.sent, id)
    {
      if id != m.live[a].id && IsLive(m.live, id) { StillLive(m.live, m'.live, id); }
    }
  }

  lemma SentLive(live: map<nat, Tx>, sent: Log, a: nat)
    requires LiveLogged(live, sent) && a in live
    ensures a < |sent| && sent[a] == live[a].id
  {
  }

  lemma AcknowledgeAccounted(m: Model, o: Options, a: nat)
    requires CoreInv(m, o) && a in m.live
    ensures Accounted(Acknowledge(m, a).done, Acknowledge(m, a).acked, m.sent, m.handed, o.maxRetx)
  {
    hide TxCount, LiveLogged, IsAcked, AckedAfter, Sampled, Handed, SomeRepeated, LogHanded, SwapRemove, IndexOf,
         CountGreaterAck, ListsLive, Covered;
    CountedLive(m.live, a);
    var m', p := Acknowledge(m, a), m.live[a].id.pkt;
    SentLive(m.live, m.sent, a);
    AckedOneMore(m.acked, m.sent, a);
    forall q | q in m.done ensures Explains(m.done[q], q, m'.acked, m.sent, m.handed, o.maxRetx) {
      assert Explains(m.done[q], q, m.acked, m.sent, m.handed, o.maxRetx);
    }
    if p in m'.done {
      LastOfPacket(m, o, a);
    }
  }

  /** When the list runs empty, every fragment of the packet has been acknowledged. */
  lemma LastOfPacket(m: Model, o: Options, a: nat)
    requires CoreInv(m, o) && a in m.live && m.live[a].id.pkt in Acknowledge(m, a).done
    ensures AllAcked(m.acked + {a}, m.sent, m.handed, m.live[a].id.pkt)
  {
    hide TxCount, LiveLogged, IsAcked, AckedAfter, Sampled, Handed, SomeRepeated, LogHanded, SwapRemove, IndexOf,
         Accounted, CountGreaterAck;
    CountedLive(m.live, a);
    var p := m.live[a].id.pkt;
    var s := m.pkts[p].unacked;
    SentLive(m.live, m.sent, a);
    AckedOneMore(m.acked, m.sent, a);
    assert ListLive(m.live, p, s);
    SwapRemoveList(s, IndexOf(s, a));
    assert forall x :: x in s ==> x == a;
  }

  lemma AcknowledgeKeepsInv(m: Model, o: Options, a: nat)
    requires CoreInv(m, o) && a in m.live
    ensures CoreInv(Acknowledge(m, a), o)
  {
    hide LiveLogged, LogHanded, CountsBounded, AcksLogged, AcksSettle, AcksCounted, Partition,
         ListsLive, ListsNonEmpty, Covered, FlagsRetx, Accounted, Sampled;
    AcknowledgeLog(m, o, a);
    AcknowledgeAcks(m, o, a);
    AcknowledgeLists(m, o, a);
    AcknowledgeListed(m, o, a);
    AcknowledgeCovered(m, o, a);
    AcknowledgeAccounted(m, o, a);
  }
}
