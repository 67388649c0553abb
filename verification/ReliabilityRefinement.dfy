/** How the maps and vectors of `LpReliability`, keyed by 64-bit TxSequences, represent
    the model with unbounded transmission numbers. */
module ReliabilityRefinement {
  import opened Basics
  import opened LpPackets
  import opened SendWindow
  import opened ReliabilityModel
  import opened ReliabilityRuns

  datatype UnackedFrag = UnackedFrag(pkt: LpPacket, sendTime: int, retxCount: nat, nGreaterSeqAcks: nat, netPkt: nat)

  /** The record of a fragment that is sent again under a new TxSequence. */
  function Again(f: UnackedFrag, txSeq: Sequence, now: int): UnackedFrag {
    UnackedFrag(f.pkt.(txSequence := Some(txSeq)), now, f.retxCount + 1, 0, f.netPkt)
  }

  /** A shared `NetPkt` object; `unackedFrags` holds the keys its iterators point to. */
  datatype NetPktRecord = NetPktRecord(unackedFrags: seq<Sequence>, isInterest: bool, didRetx: bool)

  /** The stored packet is the fragment as handed over, with the TxSequence of its
      latest transmission. */
  ghost predicate FragRefines(f: UnackedFrag, k: Sequence, tx: Tx, handed: Fragments) {
    && Handed(handed, tx.id)
    && f.pkt == handed[tx.id.pkt][tx.id.index].(txSequence := Some(k))
    && f.retxCount == tx.retxCount
    && f.nGreaterSeqAcks == tx.nGreaterSeqAcks
    && f.netPkt == tx.id.pkt
  }

  /** Keys and live transmission numbers are in bijection. */
  ghost predicate Matched(num: map<Sequence, nat>, live: map<nat, Tx>) {
    && (forall k :: k in num ==> num[k] in live)
    && (forall n :: n in live ==> Wrap(n) in num && num[Wrap(n)] == n)
  }

  ghost predicate FragsRefine(unacked: map<Sequence, UnackedFrag>, num: map<Sequence, nat>, live: map<nat, Tx>, handed: Fragments) {
    && unacked.Keys == num.Keys
    && (forall k :: k in num ==> num[k] in live && FragRefines(unacked[k], k, live[num[k]], handed))
  }

  ghost function KeysOf(s: seq<nat>): (t: seq<Sequence>)
    ensures |t| == |s| && forall i :: 0 <= i < |s| ==> t[i] == Wrap(s[i])
  {
    seq(|s|, i requires 0 <= i < |s| => Wrap(s[i]))
  }

  ghost predicate PktsRefine(netPkts: map<nat, NetPktRecord>, pkts: map<nat, NetPkt>) {
    && netPkts.Keys == pkts.Keys
    && forall p :: p in pkts ==> netPkts[p].unackedFrags == KeysOf(pkts[p].unacked) && netPkts[p].didRetx == pkts[p].didRetx
  }

  /** The last TxSequence assigned; before the first it is -1 modulo 2^64. */
  ghost function LastTxSeq(sent: Log): Sequence {
    Wrap(|sent| + TWO64 - 1)
  }

  // ---- the send window in terms of the model ----

  lemma NextTxSeq(last: Sequence, sent: Log)
    requires last == LastTxSeq(sent)
    ensures (last + 1) % TWO64 == Wrap(|sent|)
    ensures forall id :: LastTxSeq(sent + [id]) == Wrap(|sent|)
  {
    assert forall id :: |sent + [id]| + TWO64 - 1 == |sent| + TWO64;
    WrapPeriod(|sent|);
  }

  /** `assignTxSequence` throws exactly when the window spans all 2^64 numbers. */
  lemma ThrowsWhenFull(num: map<Sequence, nat>, first: Option<Sequence>, m: Model)
    requires Window(num, first, |m.sent|) && Matched(num, m.live)
    ensures num != map[] && Wrap(|m.sent|) == first.value <==> WindowFull(m)
  {
    var hi := |m.sent|;
    if WindowFull(m) {
      var n := hi - TWO64;
      WrapPeriod(n);
      assert num[Wrap(n)] == n;
    }
    if num != map[] { FreshUnlessFull(num, first, hi); }
  }

  lemma MatchedInsert(num: map<Sequence, nat>, live: map<nat, Tx>, n: nat, tx: Tx)
    requires Matched(num, live) && Wrap(n) !in num
    ensures Matched(num[Wrap(n) := n], live[n := tx]) && n !in live
  {
  }

  lemma MatchedDelete(num: map<Sequence, nat>, live: map<nat, Tx>, hi: nat, k: Sequence)
    requires Matched(num, live) && Numbered(num, hi) && k in num
    ensures Matched(num - {k}, live - {num[k]})
  {
  }

  /** Looking up a key in the list of a packet finds the right transmission. */
  lemma {:induction false} IndexOfKey(num: map<Sequence, nat>, live: map<nat, Tx>, s: seq<nat>, n: nat)
    requires Matched(num, live) && n in s && forall x :: x in s ==> x in live
    ensures Wrap(n) in KeysOf(s) && IndexOf(KeysOf(s), Wrap(n)) == IndexOf(s, n)
  {
    var t, i := KeysOf(s), IndexOf(s, n);
    assert t[i] == Wrap(n);
    var j := IndexOf(t, Wrap(n));
    assert s[j] in s;
    assert num[Wrap(s[j])] == s[j] && num[Wrap(n)] == n;
  }

  // ---- one step at a time ----

  /** All the state that represents the send side of the model. */
  ghost predicate Linked(unacked: map<Sequence, UnackedFrag>, first: Option<Sequence>, last: Sequence,
                         netPkts: map<nat, NetPktRecord>, num: map<Sequence, nat>, m: Model)
  {
    && Window(num, first, |m.sent|)
    && Matched(num, m.live)
    && FragsRefine(unacked, num, m.live, m.handed)
    && PktsRefine(netPkts, m.pkts)
    && last == LastTxSeq(m.sent)
  }

  lemma LinkedFacts(unacked: map<Sequence, UnackedFrag>, first: Option<Sequence>, last: Sequence,
                    netPkts: map<nat, NetPktRecord>, num: map<Sequence, nat>, m: Model)
    requires Linked(unacked, first, last, netPkts, num, m)
    ensures unacked.Keys == num.Keys && netPkts.Keys == m.pkts.Keys && last == LastTxSeq(m.sent)
  {
  }

  lemma KeysOfAppend(s: seq<nat>, n: nat)
    ensures KeysOf(s + [n]) == KeysOf(s) + [Wrap(n)]
  {
  }

  lemma FragsInsert(unacked: map<Sequence, UnackedFrag>, num: map<Sequence, nat>, live: map<nat, Tx>, handed: Fragments,
                    f: UnackedFrag, n: nat, tx: Tx)
    requires FragsRefine(unacked, num, live, handed) && Wrap(n) !in num && n !in live
    requires FragRefines(f, Wrap(n), tx, handed)
    ensures FragsRefine(unacked[Wrap(n) := f], num[Wrap(n) := n], live[n := tx], handed)
  {
    hide FragRefines;
  }

  /** More fragments handed over do not disturb those already there. */
  lemma FragsHanded(unacked: map<Sequence, UnackedFrag>, num: map<Sequence, nat>, live: map<nat, Tx>, handed: Fragments,
                    handed': Fragments)
    requires FragsRefine(unacked, num, live, handed)
    requires forall id :: Handed(handed, id) ==> Handed(handed', id) && handed'[id.pkt][id.index] == handed[id.pkt][id.index]
    ensures FragsRefine(unacked, num, live, handed')
  {
    forall k | k in num ensures FragRefines(unacked[k], k, live[num[k]], handed') {
      assert FragRefines(unacked[k], k, live[num[k]], handed);
    }
  }

  lemma FragsDelete(unacked: map<Sequence, UnackedFrag>, num: map<Sequence, nat>, live: map<nat, Tx>, handed: Fragments,
                    hi: nat, k: Sequence)
    requires FragsRefine(unacked, num, live, handed) && Matched(num, live) && Numbered(num, hi) && k in num
    ensures FragsRefine(unacked - {k}, num - {k}, live - {num[k]}, handed)
  {
    hide FragRefines;
    MatchedDelete(num, live, hi, k);
  }

  lemma PushRefines(unacked: map<Sequence, UnackedFrag>, first: Option<Sequence>, last: Sequence,
                    netPkts: map<nat, NetPktRecord>, num: map<Sequence, nat>, m: Model, frag: LpPacket, f: UnackedFrag)
    requires Linked(unacked, first, last, netPkts, num, m) && IsOpen(m) && !WindowFull(m)
    requires f == UnackedFrag(frag.(txSequence := Some(Wrap(|m.sent|))), f.sendTime, 0, 0, |m.handed| - 1)
    ensures var p, k := |m.handed| - 1, Wrap(|m.sent|);
      Linked(unacked[k := f], if unacked == map[] then Some(k) else first, k,
             netPkts[p := netPkts[p].(unackedFrags := netPkts[p].unackedFrags + [k])],
             num[k := |m.sent|], Push(m, frag))
  {
    hide FragsRefine, Window, Numbered, IsFirst, Handed;
    var m', p, n, k := Push(m, frag), |m.handed| - 1, |m.sent|, Wrap(|m.sent|);
    var tx := Tx(FragId(p, |m.handed[p]|), 0, 0);
    ThrowsWhenFull(num, first, m);
    assert unacked.Keys == num.Keys by { FragKeys(unacked, num, m.live, m.handed); }
    Insert(num, first, n);
    MatchedInsert(num, m.live, n, tx);
    PushFrags(unacked, num, m, frag, f);
    KeysOfAppend(m.pkts[p].unacked, n);
    NextTxSeq(last, m.sent);
  }

  lemma FragKeys(unacked: map<Sequence, UnackedFrag>, num: map<Sequence, nat>, live: map<nat, Tx>, handed: Fragments)
    requires FragsRefine(unacked, num, live, handed)
    ensures unacked.Keys == num.Keys
    ensures unacked == map[] <==> num == map[]
  {
    assert unacked == map[] <==> unacked.Keys == {};
    assert num == map[] <==> num.Keys == {};
  }

  lemma PushFrags(unacked: map<Sequence, UnackedFrag>, num: map<Sequence, nat>, m: Model, frag: LpPacket, f: UnackedFrag)
    requires FragsRefine(unacked, num, m.live, m.handed) && IsOpen(m) && Wrap(|m.sent|) !in num && |m.sent| !in m.live
    requires f == UnackedFrag(frag.(txSequence := Some(Wrap(|m.sent|))), f.sendTime, 0, 0, |m.handed| - 1)
    ensures var m' := Push(m, frag);
      FragsRefine(unacked[Wrap(|m.sent|) := f], num[Wrap(|m.sent|) := |m.sent|], m'.live, m'.handed)
  {
    hide FragsRefine, Wrap;
    var m', p := Push(m, frag), |m.handed| - 1;
    FragsHanded(unacked, num, m.live, m.handed, m'.handed);
    FragsInsert(unacked, num, m.live, m'.handed, f, |m.sent|, Tx(FragId(p, |m.handed[p]|), 0, 0));
  }

  lemma OpenRefines(unacked: map<Sequence, UnackedFrag>, first: Option<Sequence>, last: Sequence,
                    netPkts: map<nat, NetPktRecord>, num: map<Sequence, nat>, m: Model, isInterest: bool)
    requires Linked(unacked, first, last, netPkts, num, m)
    ensures Linked(unacked, first, last, netPkts[|m.handed| := NetPktRecord([], isInterest, false)], num, Open(m))
  {
    hide FragsRefine, Window, Matched;
    FragsHanded(unacked, num, m.live, m.handed, Open(m).handed);
  }

  lemma OneMoreKey(unacked: map<Sequence, UnackedFrag>, k: Sequence, f: UnackedFrag)
    requires k !in unacked
    ensures |unacked[k := f]| == 1 <==> unacked == map[]
    ensures unacked == map[] ==> MapBegin(unacked[k := f].Keys) == k
  {
    assert unacked[k := f].Keys == unacked.Keys + {k};
    assert |unacked| == |unacked.Keys|;
  }

  // ---- retransmission ----

  lemma RetransmitRefines(unacked: map<Sequence, UnackedFrag>, first: Option<Sequence>, last: Sequence,
                          netPkts: map<nat, NetPktRecord>, num: map<Sequence, nat>, m: Model,
                          k: Sequence, f: UnackedFrag, first': Option<Sequence>)
    requires Linked(unacked, first, last, netPkts, num, m) && !WindowFull(m) && k in num
    requires LiveListed(m.live, m.pkts) && ListsLive(m.live, m.pkts)
    requires var k' := Wrap(|m.sent|);
      f == UnackedFrag(unacked[k].pkt.(txSequence := Some(k')), f.sendTime, unacked[k].retxCount + 1, 0, unacked[k].netPkt)
    requires Window(num[Wrap(|m.sent|) := |m.sent|] - {k}, first', |m.sent| + 1)
    ensures var p, k' := unacked[k].netPkt, Wrap(|m.sent|);
      && p in netPkts && k in netPkts[p].unackedFrags
      && Linked(unacked[k' := f] - {k}, first', k',
                netPkts[p := netPkts[p].(unackedFrags := netPkts[p].unackedFrags[IndexOf(netPkts[p].unackedFrags, k) := k'],
                                        didRetx := true)],
                num[k' := |m.sent|] - {k}, Retransmit(m, num[k]))
  {
    hide FragsRefine, Window, IsFirst, PktsRefine, Handed, ListsLive, IndexOf, FragRefines, LiveListed, Matched;
    var n, k', hi := num[k], Wrap(|m.sent|), |m.sent|;
    KeyOf(num, first, hi, k);
    OneFrag(unacked, num, m.live, m.handed, k);
    ThrowsWhenFull(num, first, m);
    Insert(num, first, hi);
    RetransmitFrags(unacked, num, m, first, k, f);
    RetransmitList(num, m, netPkts, n);
    NextTxSeq(last, m.sent);
  }

  lemma KeyOf(num: map<Sequence, nat>, first: Option<Sequence>, hi: nat, k: Sequence)
    requires Window(num, first, hi) && k in num
    ensures Wrap(num[k]) == k
    ensures num != map[] && first.Some? && first.value in num
  {
  }

  lemma OneFrag(unacked: map<Sequence, UnackedFrag>, num: map<Sequence, nat>, live: map<nat, Tx>, handed: Fragments, k: Sequence)
    requires FragsRefine(unacked, num, live, handed) && k in num
    ensures k in unacked && num[k] in live && FragRefines(unacked[k], k, live[num[k]], handed)
    ensures unacked[k].netPkt == live[num[k]].id.pkt && unacked[k].retxCount == live[num[k]].retxCount
    ensures unacked[k].nGreaterSeqAcks == live[num[k]].nGreaterSeqAcks
  {
  }

  lemma RetransmitFrags(unacked: map<Sequence, UnackedFrag>, num: map<Sequence, nat>, m: Model, first: Option<Sequence>,
                        k: Sequence, f: UnackedFrag)
    requires Matched(num, m.live) && FragsRefine(unacked, num, m.live, m.handed) && LiveListed(m.live, m.pkts)
    requires k in num && Wrap(|m.sent|) !in num && Numbered(num[Wrap(|m.sent|) := |m.sent|], |m.sent| + 1)
    requires k in unacked && f == UnackedFrag(unacked[k].pkt.(txSequence := Some(Wrap(|m.sent|))), f.sendTime,
                              unacked[k].retxCount + 1, 0, unacked[k].netPkt)
    ensures var k', live' := Wrap(|m.sent|), Retransmit(m, num[k]).live;
      && Matched(num[k' := |m.sent|] - {k}, live')
      && FragsRefine(unacked[k' := f] - {k}, num[k' := |m.sent|] - {k}, live', m.handed)
  {
    hide FragsRefine, IndexOf, Wrap, Matched, Numbered;
    var n, k', hi := num[k], Wrap(|m.sent|), |m.sent|;
    OneFrag(unacked, num, m.live, m.handed, k);
    var tx := Tx(m.live[n].id, m.live[n].retxCount + 1, 0);
    MatchedInsert(num, m.live, hi, tx);
    FragsInsert(unacked, num, m.live, m.handed, f, hi, tx);
    var num1, live1 := num[k' := hi], m.live[hi := tx];
    MatchedDelete(num1, live1, hi + 1, k);
    FragsDelete(unacked[k' := f], num1, live1, m.handed, hi + 1, k);
    assert live1 - {n} == (m.live - {n})[hi := tx];
  }

  lemma RetransmitList(num: map<Sequence, nat>, m: Model, netPkts: map<nat, NetPktRecord>, n: nat)
    requires Matched(num, m.live) && PktsRefine(netPkts, m.pkts) && n in m.live
    requires LiveListed(m.live, m.pkts) && ListsLive(m.live, m.pkts)
    ensures var p, k, k' := m.live[n].id.pkt, Wrap(n), Wrap(|m.sent|);
      && p in netPkts && k in netPkts[p].unackedFrags
      && PktsRefine(netPkts[p := netPkts[p].(unackedFrags := netPkts[p].unackedFrags[IndexOf(netPkts[p].unackedFrags, k) := k'],
                                        didRetx := true)],
                    Retransmit(m, n).pkts)
  {
    hide Wrap, IndexOf;
    var p := m.live[n].id.pkt;
    var s := m.pkts[p].unacked;
    assert ListLive(m.live, p, s);
    IndexOfKey(num, m.live, s, n);
    assert KeysOf(s[IndexOf(s, n) := |m.sent|]) == KeysOf(s)[IndexOf(s, n) := Wrap(|m.sent|)];
  }

  // ---- giving up ----

  ghost function KeySet(s: seq<Sequence>): set<Sequence> {
    set k | k in s
  }

  /** Removing the keys of a set of live transmissions removes those transmissions. */
  lemma RemoveKeys(unacked: map<Sequence, UnackedFrag>, num: map<Sequence, nat>, live: map<nat, Tx>, handed: Fragments,
                   hi: nat, s: seq<nat>)
    requires Matched(num, live) && FragsRefine(unacked, num, live, handed) && Numbered(num, hi)
    requires forall n :: n in s ==> n in live
    ensures var keys := KeySet(KeysOf(s));
      && Matched(num - keys, live - (set x | x in s))
      && FragsRefine(unacked - keys, num - keys, live - (set x | x in s), handed)
  {
    hide FragRefines, Wrap;
    var keys, gone := KeySet(KeysOf(s)), set x | x in s;
    forall k | k in num ensures k in keys <==> num[k] in gone {
      if k in keys {
        var i :| 0 <= i < |s| && KeysOf(s)[i] == k;
        assert s[i] in s;
      }
      if num[k] in gone {
        var i :| 0 <= i < |s| && s[i] == num[k];
        assert KeysOf(s)[i] == k;
      }
    }
  }

  lemma DropRefines(unacked: map<Sequence, UnackedFrag>, first: Option<Sequence>, last: Sequence,
                    netPkts: map<nat, NetPktRecord>, num: map<Sequence, nat>, m: Model, k: Sequence, first': Option<Sequence>)
    requires Linked(unacked, first, last, netPkts, num, m) && k in num && k in unacked
    requires LiveListed(m.live, m.pkts) && ListsLive(m.live, m.pkts)
    requires unacked[k].netPkt in netPkts
    requires Window(num - KeySet(netPkts[unacked[k].netPkt].unackedFrags), first', |m.sent|)
    ensures var p := unacked[k].netPkt;
      var keys := KeySet(netPkts[p].unackedFrags);
      Linked(unacked - keys, first', last, netPkts - {p}, num - keys, Drop(m, num[k]))
  {
    hide FragsRefine, Window, IsFirst, Numbered, FragRefines, Matched;
    var p := unacked[k].netPkt;
    OneFrag(unacked, num, m.live, m.handed, k);
    assert Numbered(num, |m.sent|) by { WindowNumbered(num, first, |m.sent|); }
    assert ListLive(m.live, p, m.pkts[p].unacked);
    RemoveKeys(unacked, num, m.live, m.handed, |m.sent|, m.pkts[p].unacked);
  }

  lemma WindowNumbered(num: map<Sequence, nat>, first: Option<Sequence>, hi: nat)
    requires Window(num, first, hi)
    ensures Numbered(num, hi)
  {
  }

  // ---- acknowledgement ----

  lemma SettleRefines(unacked: map<Sequence, UnackedFrag>, first: Option<Sequence>, last: Sequence,
                      netPkts: map<nat, NetPktRecord>, num: map<Sequence, nat>, m: Model, k: Sequence, first': Option<Sequence>)
    requires Linked(unacked, first, last, netPkts, num, m) && k in num && k in unacked
    requires LiveListed(m.live, m.pkts) && ListsLive(m.live, m.pkts)
    requires Window(num - {k}, first', |m.sent|)
    ensures var p := unacked[k].netPkt;
      && p in netPkts && k in netPkts[p].unackedFrags
      && var rest := SwapRemove(netPkts[p].unackedFrags, IndexOf(netPkts[p].unackedFrags, k));
         Linked(unacked - {k}, first', last,
                if rest == [] then netPkts - {p} else netPkts[p := netPkts[p].(unackedFrags := rest)],
                num - {k}, Settle(m, num[k]))
  {
    hide FragsRefine, Window, IsFirst, Numbered, FragRefines, Matched, PktsRefine, IndexOf, SwapRemove, ListsLive;
    OneFrag(unacked, num, m.live, m.handed, k);
    KeyOf(num, first, |m.sent|, k);
    assert Numbered(num, |m.sent|) by { WindowNumbered(num, first, |m.sent|); }
    MatchedDelete(num, m.live, |m.sent|, k);
    FragsDelete(unacked, num, m.live, m.handed, |m.sent|, k);
    SettleList(num, m, netPkts, num[k]);
  }

  lemma SettleList(num: map<Sequence, nat>, m: Model, netPkts: map<nat, NetPktRecord>, n: nat)
    requires Matched(num, m.live) && PktsRefine(netPkts, m.pkts) && n in m.live
    requires LiveListed(m.live, m.pkts) && ListsLive(m.live, m.pkts)
    ensures var p, k := m.live[n].id.pkt, Wrap(n);
      && p in netPkts && k in netPkts[p].unackedFrags
      && var rest := SwapRemove(netPkts[p].unackedFrags, IndexOf(netPkts[p].unackedFrags, k));
         PktsRefine(if rest == [] then netPkts - {p} else netPkts[p := netPkts[p].(unackedFrags := rest)], Settle(m, n).pkts)
  {
    hide Wrap, IndexOf, SwapRemove, KeysOf, Matched;
    var p := m.live[n].id.pkt;
    var s := m.pkts[p].unacked;
    assert ListLive(m.live, p, s);
    IndexOfKey(num, m.live, s, n);
    KeysOfSwapRemove(s, IndexOf(s, n));
  }

  lemma KeysOfSwapRemove(s: seq<nat>, i: nat)
    requires i < |s|
    ensures KeysOf(SwapRemove(s, i)) == SwapRemove(KeysOf(s), i)
    ensures SwapRemove(s, i) == [] <==> SwapRemove(KeysOf(s), i) == []
  {
    hide Wrap;
  }

  // ---- counting an Ack ----

  /** Counting one more transmission, when none lies between `c` and `c'`. */
  lemma CountNext(live: map<nat, Tx>, c: nat, c': nat)
    requires c in live && c < c' && forall n :: n in live && c < n ==> c' <= n
    ensures CountGreaterAck(live, c') == CountGreaterAck(live, c)[c := live[c].(nGreaterSeqAcks := live[c].nGreaterSeqAcks + 1)]
  {
  }

  lemma LostNext(live: map<nat, Tx>, o: Options, c: nat, c': nat)
    requires c in live && c < c' && forall n :: n in live && c < n ==> c' <= n
    ensures var lost := KeysOf(Ascending(LostBy(live, o, c)));
      KeysOf(Ascending(LostBy(live, o, c'))) ==
        if live[c].nGreaterSeqAcks + 1 >= o.seqNumLossThreshold then lost + [Wrap(c)] else lost
  {
    hide Wrap;
    if live[c].nGreaterSeqAcks + 1 >= o.seqNumLossThreshold {
      assert LostBy(live, o, c') == LostBy(live, o, c) + {c};
      AscendingAppend(LostBy(live, o, c), c);
    } else {
      assert LostBy(live, o, c') == LostBy(live, o, c);
    }
  }

  lemma NothingCounted(live: map<nat, Tx>, o: Options, c: nat)
    requires forall n :: n in live ==> c <= n
    ensures CountGreaterAck(live, c) == live
    ensures LostBy(live, o, c) == {}
  {
  }

  lemma CountFrag(unacked: map<Sequence, UnackedFrag>, num: map<Sequence, nat>, live: map<nat, Tx>, handed: Fragments,
                  hi: nat, k: Sequence)
    requires FragsRefine(unacked, num, live, handed) && Numbered(num, hi) && k in num
    ensures k in unacked && num[k] in live
    ensures FragsRefine(unacked[k := unacked[k].(nGreaterSeqAcks := unacked[k].nGreaterSeqAcks + 1)], num,
                        live[num[k] := live[num[k]].(nGreaterSeqAcks := live[num[k]].nGreaterSeqAcks + 1)], handed)
  {
  }

  /** What the vector of a live packet holds. */
  lemma PacketList(unacked: map<Sequence, UnackedFrag>, first: Option<Sequence>, last: Sequence,
                   netPkts: map<nat, NetPktRecord>, num: map<Sequence, nat>, m: Model, k: Sequence)
    requires Linked(unacked, first, last, netPkts, num, m) && k in num && k in unacked
    requires LiveListed(m.live, m.pkts) && ListsLive(m.live, m.pkts)
    ensures var p := unacked[k].netPkt;
      && p in netPkts && p in m.pkts && p == m.live[num[k]].id.pkt
      && k in netPkts[p].unackedFrags && NoDuplicates(netPkts[p].unackedFrags)
      && (forall x :: x in netPkts[p].unackedFrags ==> x in num)
      && (forall x :: x in num ==> (x in netPkts[p].unackedFrags <==> num[x] in m.pkts[p].unacked))
  {
    hide Window, IsFirst, FragsRefine, Wrap;
    OneFrag(unacked, num, m.live, m.handed, k);
    var p := unacked[k].netPkt;
    var s, t := m.pkts[p].unacked, netPkts[p].unackedFrags;
    assert ListLive(m.live, p, s);
    WindowNumbered(num, first, |m.sent|);
    forall x | x in num ensures x in t <==> num[x] in s {
      if x in t {
        var i :| 0 <= i < |t| && t[i] == x;
        assert s[i] in s;
      }
      if num[x] in s {
        var i :| 0 <= i < |s| && s[i] == num[x];
        assert t[i] == x;
      }
    }
    forall x | x in t ensures x in num {
      var i :| 0 <= i < |t| && t[i] == x;
      assert s[i] in s;
    }
    forall i, j | 0 <= i < j < |t| ensures t[i] != t[j] {
      assert s[i] in s && s[j] in s && s[i] != s[j];
    }
  }

  /** Before the first step of the iteration nothing is counted. */
  lemma WindowStart(num: map<Sequence, nat>, first: Option<Sequence>, hi: nat, live: map<nat, Tx>, o: Options, ack: Sequence)
    requires Window(num, first, hi) && Matched(num, live) && ack in num
    ensures first.Some? && first.value in num && num[first.value] <= num[ack]
    ensures CountGreaterAck(live, num[first.value]) == live
    ensures KeysOf(Ascending(LostBy(live, o, num[first.value]))) == []
  {
    hide Wrap;
    var c := num[first.value];
    forall n | n in live ensures c <= n { assert num[Wrap(n)] == n; }
    NothingCounted(live, o, c);
  }

  /** One step of the iteration, at a key before the acknowledged one. */
  lemma CountOne(unacked: map<Sequence, UnackedFrag>, first: Option<Sequence>, num: map<Sequence, nat>, live: map<nat, Tx>,
                 handed: Fragments, hi: nat, k: Sequence, ack: Sequence, o: Options)
    requires Window(num, first, hi) && Matched(num, live) && k in num && ack in num && num[k] < num[ack]
    requires FragsRefine(unacked, num, CountGreaterAck(live, num[k]), handed)
    ensures var next := CyclicNext(num.Keys, k);
      && next in num && num[k] < num[next] <= num[ack]
      && k in unacked
      && var f := unacked[k].(nGreaterSeqAcks := unacked[k].nGreaterSeqAcks + 1);
         && FragsRefine(unacked[k := f], num, CountGreaterAck(live, num[next]), handed)
         && KeysOf(Ascending(LostBy(live, o, num[next]))) ==
              KeysOf(Ascending(LostBy(live, o, num[k])))
              + if f.nGreaterSeqAcks >= o.seqNumLossThreshold then [k] else []
  {
    hide FragsRefine, Wrap, Ascending, LostBy, CyclicNext;
    CyclicOrder(num, first, hi, k);
    var c, next := num[k], CyclicNext(num.Keys, k);
    assert c < num[next] <= num[ack];
    NoneBetween(num, live, k, next);
    CountNext(live, c, num[next]);
    LostNext(live, o, c, num[next]);
    CountFrag(unacked, num, CountGreaterAck(live, c), handed, hi, k);
    OneFrag(unacked, num, CountGreaterAck(live, c), handed, k);
  }

  lemma NoneBetween(num: map<Sequence, nat>, live: map<nat, Tx>, k: Sequence, next: Sequence)
    requires Matched(num, live) && k in num && next in num && num[k] < num[next] && FollowsInOrder(num, k, next)
    ensures num[k] in live
    ensures forall n :: n in live && num[k] < n ==> num[next] <= n
  {
    hide Wrap;
    forall n | n in live && num[k] < n ensures num[next] <= n { assert num[Wrap(n)] == n; }
  }

  lemma CountedKeys(num: map<Sequence, nat>, live: map<nat, Tx>, a: nat)
    requires Matched(num, live)
    ensures Matched(num, CountGreaterAck(live, a)) && CountGreaterAck(live, a).Keys == live.Keys
  {
  }

  lemma SettleFacts(unacked: map<Sequence, UnackedFrag>, first: Option<Sequence>, last: Sequence,
                    netPkts: map<nat, NetPktRecord>, num: map<Sequence, nat>, m: Model, k: Sequence)
    requires Linked(unacked, first, last, netPkts, num, m) && k in num && k in unacked
    requires LiveListed(m.live, m.pkts) && ListsLive(m.live, m.pkts)
    ensures unacked.Keys == num.Keys && Window(num, first, |m.sent|)
    ensures num[k] in m.live && m.live[num[k]].id.pkt in m.pkts && num[k] in m.pkts[m.live[num[k]].id.pkt].unacked
    ensures var p := unacked[k].netPkt;
      && p == m.live[num[k]].id.pkt && p in netPkts && k in netPkts[p].unackedFrags
      && netPkts[p].didRetx == m.pkts[p].didRetx
      && var rest := SwapRemove(netPkts[p].unackedFrags, IndexOf(netPkts[p].unackedFrags, k));
         rest == [] <==> p !in Settle(m, num[k]).pkts
  {
    hide FragsRefine, Window, IsFirst, FragRefines, Matched, IndexOf, ListsLive;
    OneFrag(unacked, num, m.live, m.handed, k);
    KeyOf(num, first, |m.sent|, k);
    FragKeys(unacked, num, m.live, m.handed);
    SettleList(num, m, netPkts, num[k]);
  }
}
