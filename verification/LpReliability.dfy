/** `LpReliability`: reliable sending and receiving of link-layer packets. The send
    side refines `ReliabilityModel`. */
module LpReliabilityService {
  import opened Basics
  import opened LpPackets
  import opened SendWindow
  import opened ReliabilityModel
  import opened ReliabilityProofs
  import opened ReliabilityRuns
  import opened ReliabilityTheorems
  import opened ReliabilityRefinement
  import opened ReliabilityHistory
  import opened ReceiveRecords
  import opened AckPiggyback

  lemma HandOverSteps(m: Model, o: Options, frags: seq<LpPacket>)
    requires Inv(m, o) && Inv(Open(m), o) && IsOpen(Open(m))
    ensures Step(m, o, HandOver(frags)) == if frags == [] then Some(m) else PushAll(Open(m), o, frags)
    ensures |Open(m).sent| == |m.sent| && |Open(m).handed| == |m.handed| + 1 && Open(m).done == m.done
    ensures |m.handed| !in m.done
  {
    hide PushAll, LiveLogged, LogHanded, CountsBounded, AcksLogged, AcksSettle, AcksCounted, ListsNonEmpty, Covered,
         FlagsRetx, Accounted, Sampled, ListsLive, LiveListed, BelowThreshold;
  }

  lemma PushAllFrom(m: Model, o: Options, frags: seq<LpPacket>, i: nat)
    requires Inv(m, o) && IsOpen(m) && i < |frags|
    requires !WindowFull(m) ==> Inv(Push(m, frags[i]), o) && IsOpen(Push(m, frags[i]))
    ensures WindowFull(m) ==> PushAll(m, o, frags[i..]) == None
    ensures !WindowFull(m) ==> PushAll(m, o, frags[i..]) == PushAll(Push(m, frags[i]), o, frags[i + 1..])
    ensures var m' := Push(m, frags[i]);
      |m'.sent| == |m.sent| + 1 && |m'.handed| == |m.handed| && m'.done == m.done
  {
    hide CoreInv, WindowFull;
    assert frags[i..][1..] == frags[i + 1..];
  }

  lemma PushCounts(m: Model, frag: LpPacket)
    requires IsOpen(m)
    ensures var m' := Push(m, frag);
      |m'.handed| == |m.handed| > 0 && m'.done == m.done && m'.samples == m.samples && |m.handed| - 1 in m.pkts
  {
  }

  lemma PushAllNone(m: Model, o: Options, frags: seq<LpPacket>)
    requires Inv(m, o) && IsOpen(m)
    ensures PushAll(m, o, frags[|frags|..]) == Some(m)
  {
    hide CoreInv;
    assert frags[|frags|..] == [];
  }

  class LpReliability {
    const options: Options
    var unackedFrags: map<Sequence, UnackedFrag>
    var firstUnackedFrag: Option<Sequence>  // None is end()
    var lastTxSeqNo: Sequence
    var netPkts: map<nat, NetPktRecord>     // the shared NetPkt objects that are still referenced
    var nNetPkts: nat
    var nAcknowledged: nat
    var nRetransmitted: nat
    var nRetxExhausted: nat
    var rttMeasurements: seq<int>           // durations given to the RTT estimator
    var droppedInterests: seq<nat>          // onDroppedInterest signals
    var resent: seq<LpPacket>               // packets passed to sendLpPacket again

    var ackQueue: seq<Sequence>             // TxSequences to acknowledge
    var recentRecvSeqs: map<Sequence, int>
    var recentRecvSeqsQueue: seq<Sequence>

    ghost var everQueued: seq<Sequence>     // all TxSequences ever queued for acknowledgement
    ghost var attached: seq<seq<Sequence>>  // the Acks attached to each outgoing packet so far
    ghost var model: Model
    ghost var num: map<Sequence, nat>       // the transmission behind each TxSequence
    ghost var sentAt: seq<int>              // when each transmission was made
    ghost var interests: seq<bool>          // which network packets handed over are Interests

    /** The window of TxSequences represents `num`, up to transmission `hi`. */
    ghost predicate WindowOk(hi: nat)
      reads this
    {
      unackedFrags.Keys == num.Keys && Window(num, firstUnackedFrag, hi)
    }

    ghost predicate IsLinked()
      reads this
    {
      Linked(unackedFrags, firstUnackedFrag, lastTxSeqNo, netPkts, num, model)
    }

    ghost predicate CountersOk()
      reads this
    {
      && nNetPkts == |model.handed|
      && nAcknowledged == CountOf(model.done, Acknowledged)
      && nRetransmitted == CountOf(model.done, Retransmitted)
      && nRetxExhausted == CountOf(model.done, RetxExhausted)
      && |rttMeasurements| == |model.samples|
    }

    /** Holds even between an Ack and the handling of the losses it reveals. */
    ghost predicate Consistent()
      reads this
    {
      IsLinked() && CountersOk() && CoreInv(model, options)
    }

    ghost predicate Valid()
      reads this
    {
      IsLinked() && CountersOk() && Inv(model, options)
    }

    /** The send times, and the reports of dropped Interests, are those of the run. */
    ghost predicate HistoryOk()
      reads this
    {
      Recorded(unackedFrags, num, netPkts, model, sentAt, interests, droppedInterests)
    }

    ghost function Left(): Trace
      reads this
    {
      Trace(model, resent, sentAt, droppedInterests)
    }

    /** The records of received Sequences are covered by the queue, and every TxSequence
        ever queued has left on exactly one packet, in order, or is still queued. */
    ghost predicate ReceiveValid()
      reads this
    {
      && QueueCovers(Records())
      && Flatten(attached) + ackQueue == everQueued
    }

    ghost function Records(): Recent
      reads this`recentRecvSeqs, this`recentRecvSeqsQueue
    {
      Recent(recentRecvSeqs, recentRecvSeqsQueue)
    }

    constructor (options: Options)
      ensures Valid() && HistoryOk() && ReceiveValid() && this.options == options && model == Initial
    {
      this.options := options;
      unackedFrags, firstUnackedFrag, lastTxSeqNo := map[], None, TWO64 - 1;
      netPkts, nNetPkts, nAcknowledged, nRetransmitted, nRetxExhausted := map[], 0, 0, 0, 0;
      rttMeasurements, droppedInterests, resent := [], [], [];
      ackQueue, recentRecvSeqs, recentRecvSeqsQueue, everQueued, attached := [], map[], [], [], [];
      model, num, sentAt, interests := Initial, map[], [], [];
      new;
      InitialInv(options);
    }

    /** Throws exactly when the new TxSequence would repeat the window start. */
    method AssignTxSequence() returns (txSeq: Sequence, thrown: bool)
      requires IsLinked()
      modifies this`lastTxSeqNo
      ensures txSeq == lastTxSeqNo == Wrap(|model.sent|)
      ensures thrown <==> WindowFull(model)
      ensures !thrown ==> txSeq !in unackedFrags
    {
      NextTxSeq(lastTxSeqNo, model.sent);
      FragKeys(unackedFrags, num, model.live, model.handed);
      ThrowsWhenFull(num, firstUnackedFrag, model);
      if num != map[] { FreshUnlessFull(num, firstUnackedFrag, |model.sent|); }
      lastTxSeqNo := (lastTxSeqNo + 1) % TWO64;
      txSeq := lastTxSeqNo;
      thrown := unackedFrags != map[] && lastTxSeqNo == firstUnackedFrag.value;
    }

    /** Erases a fragment and advances the window start past it if it was the start. */
    method DeleteUnackedFrag(txSeq: Sequence, ghost hi: nat)
      requires WindowOk(hi) && txSeq in unackedFrags
      modifies this`unackedFrags, this`firstUnackedFrag, this`num
      ensures unackedFrags == old(unackedFrags) - {txSeq} && num == old(num) - {txSeq}
      ensures WindowOk(hi)
    {
      Delete(num, firstUnackedFrag, hi, txSeq);
      KeyOf(num, firstUnackedFrag, hi, txSeq);
      var firstUnackedTxSeq := firstUnackedFrag.value;
      unackedFrags := unackedFrags - {txSeq};
      var next := MapNext(unackedFrags.Keys, txSeq);
      if unackedFrags != map[] && firstUnackedTxSeq == txSeq {
        firstUnackedFrag := if next.None? then Some(MapBegin(unackedFrags.Keys)) else next;
      } else if unackedFrags == map[] {
        firstUnackedFrag := None;
      }
      num := num - {txSeq};
    }

    // ---- sending ----

    /** Stores one fragment of the network packet created last, as a new transmission. */
    method StoreFragment(frag: LpPacket, now: int) returns (out: LpPacket, thrown: bool)
      requires Valid() && IsOpen(model)
      modifies this`unackedFrags, this`firstUnackedFrag, this`lastTxSeqNo, this`netPkts, this`model, this`num
      ensures thrown <==> WindowFull(old(model))
      ensures !thrown ==> Valid() && IsOpen(model) && model == Push(old(model), frag)
      ensures !thrown ==> out == frag.(txSequence := Some(Wrap(|old(model).sent|)))
      ensures !thrown ==> var k := Wrap(|old(model).sent|);
        && nNetPkts > 0 && unackedFrags == old(unackedFrags)[k := UnackedFrag(out, now, 0, 0, nNetPkts - 1)]
        && num == old(num)[k := |old(model).sent|] && SameFlags(old(netPkts), netPkts)
    {
      hide Inv, Linked, CountOf, Wrap, WindowFull, MapBegin, LastTxSeq, SameFlags, Push, IsOpen;
      PushCounts(model, frag);
      LinkedFacts(unackedFrags, firstUnackedFrag, lastTxSeqNo, netPkts, num, model);
      var txSeq;
      txSeq, thrown := AssignTxSequence();
      out := frag.(txSequence := Some(txSeq));
      if thrown { return; }
      var p := nNetPkts - 1;
      var f := UnackedFrag(out, now, 0, 0, p);
      PushRefines(unackedFrags, firstUnackedFrag, LastTxSeq(model.sent), netPkts, num, model, frag, f);
      PushKeepsInv(model, options, frag);
      OneMoreKey(unackedFrags, txSeq, f);
      unackedFrags := unackedFrags[txSeq := f];
      if |unackedFrags| == 1 {
        firstUnackedFrag := Some(MapBegin(unackedFrags.Keys));
      }
      var record := netPkts[p].(unackedFrags := netPkts[p].unackedFrags + [txSeq]);
      SameFlag(netPkts, p, record);
      netPkts := netPkts[p := record];
      num, model := num[txSeq := |model.sent|], Push(model, frag);
    }

    /** Stores the fragments of a network packet for possible retransmission and gives
        each a new TxSequence. */
    method HandleOutgoing(frags: seq<LpPacket>, isInterest: bool, now: int) returns (out: seq<LpPacket>, thrown: bool)
      requires Valid() && HistoryOk() && forall i :: 0 <= i < |frags| ==> frags[i].sequence.Some?
      modifies this`unackedFrags, this`firstUnackedFrag, this`lastTxSeqNo, this`netPkts, this`nNetPkts, this`model, this`num,
               this`sentAt, this`interests
      ensures thrown <==> Step(old(model), options, HandOver(frags)).None?
      ensures !thrown ==> Valid() && Some(model) == Step(old(model), options, HandOver(frags))
      ensures !thrown ==> |out| == |frags| && forall i :: 0 <= i < |frags| ==>
                out[i] == frags[i].(txSequence := Some(Wrap(|old(model).sent| + i)))
      ensures !thrown ==> |old(model).sent| <= |model.sent| && out == Transmissions(model, |old(model).sent|)
      ensures !thrown ==> HistoryOk() && interests == old(interests) + (if frags == [] then [] else [isInterest])
      ensures !thrown ==> old(sentAt) <= sentAt && forall i :: |old(sentAt)| <= i < |sentAt| ==> sentAt[i] == now
    {
      hide Inv, Linked, CountOf, Wrap, WindowFull, Step, PushAll, Open, IsOpen, Recorded, Transmissions;
      out, thrown := [], false;
      OpenKeepsInv(model, options);
      HandOverSteps(model, options, frags);
      if Step(model, options, HandOver(frags)).Some? { HandOverLeaves(model, options, frags); }
      if frags == [] { return; }
      RecordedOpen(unackedFrags, num, netPkts, model, sentAt, interests, droppedInterests, isInterest);
      OpenPacket(isInterest);
      interests := interests + [isInterest];
      out, thrown := StoreFragments(frags, now);
    }

    /** Stores the fragments of the network packet created last. */
    method StoreFragments(frags: seq<LpPacket>, now: int) returns (out: seq<LpPacket>, thrown: bool)
      requires Valid() && HistoryOk() && IsOpen(model)
      modifies this`unackedFrags, this`firstUnackedFrag, this`lastTxSeqNo, this`netPkts, this`model, this`num, this`sentAt
      ensures thrown <==> PushAll(old(model), options, frags).None?
      ensures !thrown ==> Valid() && HistoryOk() && Some(model) == PushAll(old(model), options, frags)
      ensures !thrown ==> |out| == |frags| && forall i :: 0 <= i < |frags| ==>
                out[i] == frags[i].(txSequence := Some(Wrap(|old(model).sent| + i)))
      ensures !thrown ==> old(sentAt) <= sentAt && forall i :: |old(sentAt)| <= i < |sentAt| ==> sentAt[i] == now
    {
      hide Inv, Linked, CountOf, Wrap, WindowFull, PushAll, Push, IsOpen, Recorded, SameFlags;
      out, thrown := [], false;
      ghost var m0 := model;
      assert frags[0..] == frags;
      for i := 0 to |frags|
        invariant Valid() && HistoryOk() && IsOpen(model) && !thrown
        invariant |out| == i && |model.sent| == |m0.sent| + i
        invariant forall j :: 0 <= j < i ==> out[j] == frags[j].(txSequence := Some(Wrap(|m0.sent| + j)))
        invariant PushAll(model, options, frags[i..]) == PushAll(m0, options, frags)
        invariant old(sentAt) <= sentAt && forall i :: |old(sentAt)| <= i < |sentAt| ==> sentAt[i] == now
      {
        if !WindowFull(model) {
          PushKeepsInv(model, options, frags[i]);
        }
        PushAllFrom(model, options, frags, i);
        var f;
        ghost var unacked0, num0, netPkts0, m := unackedFrags, num, netPkts, model;
        f, thrown := StoreFragment(frags[i], now);
        if thrown { return; }
        RecordedPush(unacked0, num0, netPkts0, m, sentAt, interests, droppedInterests, frags[i],
                     UnackedFrag(f, now, 0, 0, nNetPkts - 1), netPkts);
        sentAt := sentAt + [now];
        out := out + [f];
      }
      PushAllNone(model, options, frags);
    }

    method OpenPacket(isInterest: bool)
      requires Valid()
      modifies this`netPkts, this`nNetPkts, this`model
      ensures Valid() && IsOpen(model) && model == Open(old(model))
      ensures netPkts == old(netPkts)[|old(model).handed| := NetPktRecord([], isInterest, false)]
    {
      hide Inv, Linked, CountOf, Wrap, CoreInv;
      OpenKeepsInv(model, options);
      OpenRefines(unackedFrags, firstUnackedFrag, lastTxSeqNo, netPkts, num, model, isInterest);
      netPkts := netPkts[nNetPkts := NetPktRecord([], isInterest, false)];
      nNetPkts := nNetPkts + 1;
      model := Open(model);
    }

    // ---- losses ----

    /** Deletes the fragments of a network packet other than `txSeq`. */
    method DeleteSiblings(list: seq<Sequence>, txSeq: Sequence, ghost hi: nat) returns (removed: seq<Sequence>)
      requires WindowOk(hi) && NoDuplicates(list) && forall k :: k in list ==> k in unackedFrags
      modifies this`unackedFrags, this`firstUnackedFrag, this`num
      ensures WindowOk(hi)
      ensures unackedFrags == old(unackedFrags) - (KeySet(list) - {txSeq})
      ensures num == old(num) - (KeySet(list) - {txSeq})
      ensures KeySet(removed) == KeySet(list) - {txSeq}
    {
      removed := [];
      for i := 0 to |list|
        invariant WindowOk(hi)
        invariant unackedFrags == old(unackedFrags) - (KeySet(list[..i]) - {txSeq})
        invariant num == old(num) - (KeySet(list[..i]) - {txSeq})
        invariant KeySet(removed) == KeySet(list[..i]) - {txSeq}
      {
        hide Window, MapBegin;
        assert list[..i + 1] == list[..i] + [list[i]];
        assert KeySet(list[..i + 1]) == KeySet(list[..i]) + {list[i]};
        if list[i] != txSeq {
          assert list[i] !in list[..i];
          assert KeySet(removed + [list[i]]) == KeySet(removed) + {list[i]};
          removed := removed + [list[i]];
          DeleteUnackedFrag(list[i], hi);
        }
      }
      assert list[..|list|] == list;
    }

    /** Deletes all fragments of a network packet, `txSeq` last. */
    method DeletePacket(list: seq<Sequence>, txSeq: Sequence, ghost hi: nat) returns (removed: seq<Sequence>)
      requires WindowOk(hi) && NoDuplicates(list) && txSeq in list && forall k :: k in list ==> k in unackedFrags
      modifies this`unackedFrags, this`firstUnackedFrag, this`num
      ensures WindowOk(hi)
      ensures unackedFrags == old(unackedFrags) - KeySet(list) && num == old(num) - KeySet(list)
      ensures forall k :: k in removed <==> k in list
    {
      hide Window;
      removed := DeleteSiblings(list, txSeq, hi);
      assert forall k :: k in removed <==> k in KeySet(removed);
      removed := removed + [txSeq];
      DeleteUnackedFrag(txSeq, hi);
    }

    /** The retransmission limit is reached: the whole network packet is dropped. */
    method GiveUp(txSeq: Sequence) returns (removed: seq<Sequence>)
      requires Consistent() && txSeq in num && txSeq in unackedFrags
      requires unackedFrags[txSeq].retxCount >= options.maxRetx
      modifies this`unackedFrags, this`firstUnackedFrag, this`netPkts, this`nRetxExhausted, this`droppedInterests,
               this`model, this`num
      ensures Consistent() && Some(model) == Lose(old(model), options, old(num)[txSeq])
      ensures forall k :: k in removed ==> k in old(num)
      ensures forall k :: k in old(num) ==> (k in removed <==> old(num)[k] !in model.live)
      ensures var p := old(unackedFrags)[txSeq].netPkt;
        && p in old(netPkts) && netPkts == old(netPkts) - {p}
        && droppedInterests == old(droppedInterests) + (if old(netPkts)[p].isInterest then [p] else [])
        && var keys := KeySet(old(netPkts)[p].unackedFrags);
           old(unackedFrags.Keys == num.Keys) && unackedFrags == old(unackedFrags) - keys && num == old(num) - keys
    {
      hide CoreInv, Linked, CountOf, Wrap, Window, MapBegin, LastTxSeq, LiveListed, ListsLive, Lose, Drop;
      PacketOf(txSeq);
      PacketKeys(txSeq);
      LoseForGood(model, options, num[txSeq]);
      var p := unackedFrags[txSeq].netPkt;
      var list := netPkts[p].unackedFrags;
      ghost var m, n, unacked0, first0, num0 := model, num[txSeq], unackedFrags, firstUnackedFrag, num;
      removed := DeletePacket(list, txSeq, |model.sent|);
      nRetxExhausted := nRetxExhausted + 1;
      if netPkts[p].isInterest {
        droppedInterests := droppedInterests + [p];
      }
      DropRefines(unacked0, first0, lastTxSeqNo, netPkts, num0, m, txSeq, firstUnackedFrag);
      DropCounts(m, options, n);
      netPkts := netPkts - {p};  // the last reference to it is gone
      model := Drop(model, n);
    }

    /** The fragment gets a new TxSequence and is sent again. */
    method Resend(txSeq: Sequence, now: int) returns (removed: seq<Sequence>, thrown: bool)
      requires Consistent() && txSeq in num && txSeq in unackedFrags
      requires unackedFrags[txSeq].retxCount < options.maxRetx
      modifies this`unackedFrags, this`firstUnackedFrag, this`lastTxSeqNo, this`netPkts, this`resent, this`model, this`num
      ensures thrown <==> Lose(old(model), options, old(num)[txSeq]).None?
      ensures !thrown ==> Consistent() && Some(model) == Lose(old(model), options, old(num)[txSeq])
      ensures !thrown ==> removed == [txSeq]
      ensures !thrown ==> var k := Wrap(|old(model).sent|);
        && resent == old(resent) + [old(unackedFrags)[txSeq].pkt.(txSequence := Some(k))]
        && unackedFrags == old(unackedFrags)[k := Again(old(unackedFrags)[txSeq], k, now)] - {txSeq}
        && num == old(num)[k := |old(model).sent|] - {txSeq} && SameFlags(old(netPkts), netPkts)
    {
      hide SameFlags, CoreInv, Linked, CountOf, Wrap, Window, MapBegin, LastTxSeq, WindowFull, IndexOf, LiveListed, ListsLive, Lose,
           Retransmit;
      PacketOf(txSeq);
      LoseAgain(model, options, num[txSeq]);
      var txFrag := unackedFrags[txSeq];
      var p := txFrag.netPkt;
      ghost var m, n, unacked0, first0, num0, last0 := model, num[txSeq], unackedFrags, firstUnackedFrag, num, lastTxSeqNo;
      removed := [];
      var newTxSeq;
      newTxSeq, thrown := AssignTxSequence();
      if thrown { return; }
      var newTxFrag := Again(txFrag, newTxSeq, now);
      MoveFragment(txSeq, newTxSeq, newTxFrag);
      var list := netPkts[p].unackedFrags;
      removed := [txSeq];
      resent := resent + [newTxFrag.pkt];
      RetransmitRefines(unacked0, first0, last0, netPkts, num0, m, txSeq, newTxFrag, firstUnackedFrag);
      RetransmitKeepsInv(m, options, n);
      var record := netPkts[p].(unackedFrags := list[IndexOf(list, txSeq) := newTxSeq], didRetx := true);
      SameFlag(netPkts, p, record);
      netPkts := netPkts[p := record];
      model := Retransmit(m, n);
    }

    /** Moves a fragment from its old TxSequence to a new one. */
    method MoveFragment(txSeq: Sequence, newTxSeq: Sequence, frag: UnackedFrag)
      requires WindowOk(|model.sent|) && txSeq in unackedFrags
      requires newTxSeq == Wrap(|model.sent|) && newTxSeq !in unackedFrags
      modifies this`unackedFrags, this`firstUnackedFrag, this`num
      ensures unackedFrags == old(unackedFrags)[newTxSeq := frag] - {txSeq}
      ensures num == old(num)[newTxSeq := |model.sent|] - {txSeq}
      ensures WindowOk(|model.sent| + 1)
    {
      hide MapBegin, MapNext;
      KeyOf(num, firstUnackedFrag, |model.sent|, txSeq);
      FreshUnlessFull(num, firstUnackedFrag, |model.sent|);
      Insert(num, firstUnackedFrag, |model.sent|);
      unackedFrags := unackedFrags[newTxSeq := frag];
      num := num[newTxSeq := |model.sent|];
      DeleteUnackedFrag(txSeq, |model.sent| + 1);
    }

    /** Resends a lost fragment or gives up on its network packet. `removed` are exactly
        the TxSequences whose transmissions are no longer live. */
    method OnLpPacketLost(txSeq: Sequence, now: int) returns (removed: seq<Sequence>, thrown: bool)
      requires Consistent() && HistoryOk() && txSeq in unackedFrags && txSeq in num && num[txSeq] in model.live
      modifies this`unackedFrags, this`firstUnackedFrag, this`lastTxSeqNo, this`netPkts, this`nRetxExhausted,
               this`droppedInterests, this`resent, this`model, this`num, this`sentAt
      ensures thrown <==> Lose(old(model), options, old(num)[txSeq]).None?
      ensures !thrown ==> Consistent() && Some(model) == Lose(old(model), options, old(num)[txSeq])
      ensures !thrown ==> forall k :: k in removed ==> k in old(num)
      ensures !thrown ==> forall k :: k in old(num) ==> (k in removed <==> old(num)[k] !in model.live)
      ensures !thrown ==> HistoryOk() && Leaves(old(Left()), Left(), now)
    {
      hide CoreInv, Linked, CountOf, Wrap, Lose, Transmissions, Recorded, SameFlags, KeySet;
      StoredIsHanded(txSeq);
      if Lose(model, options, num[txSeq]).Some? {
        LossRecords(model, options, num[txSeq]);
      }
      ghost var m, n, unacked0, num0, netPkts0, dropped0 := model, num[txSeq], unackedFrags, num, netPkts, droppedInterests;
      if unackedFrags[txSeq].retxCount >= options.maxRetx {
        thrown := false;
        ghost var p := unackedFrags[txSeq].netPkt;
        removed := GiveUp(txSeq);
        RecordedGiveUp(unacked0, num0, netPkts0, m, sentAt, interests, dropped0, model, p,
                       KeySet(netPkts0[p].unackedFrags));
      } else {
        LostKeys(txSeq);
        removed, thrown := Resend(txSeq, now);
        if !thrown {
          RecordedResend(unacked0, num0, netPkts0, m, sentAt, interests, droppedInterests, model, txSeq,
                         Again(unacked0[txSeq], Wrap(|m.sent|), now), netPkts);
          sentAt := sentAt + [now];
        }
      }
    }

    /** A stored fragment is the one handed over, and its retransmissions are counted as such. */
    lemma StoredIsHanded(txSeq: Sequence)
      requires Consistent() && txSeq in unackedFrags && txSeq in num && num[txSeq] in model.live
      ensures FragRefines(unackedFrags[txSeq], txSeq, model.live[num[txSeq]], model.handed)
    {
      hide CoreInv, CountOf, Wrap, Window, PktsRefine, Matched;
      OneFrag(unackedFrags, num, model.live, model.handed, txSeq);
    }

    /** A retransmission removes one transmission and no other. */
    lemma LostKeys(txSeq: Sequence)
      requires Consistent() && txSeq in num && txSeq in unackedFrags && num[txSeq] in model.live
      requires unackedFrags[txSeq].retxCount < options.maxRetx
      ensures Lose(model, options, num[txSeq]).Some? ==>
        forall k :: k in num ==> (k == txSeq <==> num[k] !in Lose(model, options, num[txSeq]).value.live)
    {
      hide CountOf, LiveLogged, LogHanded, CountsBounded, AcksLogged, AcksSettle, AcksCounted, Partition, FragsRefine,
           ListsNonEmpty, Covered, FlagsRetx, Accounted, Sampled, ListsLive, IsFirst, PktsRefine;
      PacketOf(txSeq);
      FreshNumber(model.live, model.sent);
    }

    // ---- acknowledgements ----

    /** Counts an Ack against every fragment transmitted before the acknowledged one, and
        returns those it lifts to the loss threshold in transmission order. The loop
        iterates the map from the window start, wrapping from end() to begin(). */
    method FindLostLpPackets(ackTxSeq: Sequence) returns (lost: seq<Sequence>)
      requires IsLinked() && ackTxSeq in num
      modifies this`unackedFrags, this`model
      ensures IsLinked()
      ensures old(model).live.Keys == model.live.Keys
      ensures model == old(model).(live := CountGreaterAck(old(model).live, num[ackTxSeq]))
      ensures lost == KeysOf(Ascending(LostBy(old(model).live, options, num[ackTxSeq])))
      ensures SameTimes(old(unackedFrags), unackedFrags)
    {
      hide Wrap, Ascending, LostBy, CountGreaterAck, MapNext, MapBegin, PktsRefine, LastTxSeq, FragsRefine, Matched;
      ghost var live0, a, hi := model.live, num[ackTxSeq], |model.sent|;
      WindowStart(num, firstUnackedFrag, hi, live0, options, ackTxSeq);
      LinkedFacts(unackedFrags, firstUnackedFrag, lastTxSeqNo, netPkts, num, model);
      var keys := unackedFrags.Keys;
      lost := [];
      var it := firstUnackedFrag;
      ghost var at := firstUnackedFrag.value;
      while true
        invariant model == old(model) && unackedFrags.Keys == keys == num.Keys
        invariant at in num && num[at] <= a
        invariant keys != {} && at == if it.Some? then it.value else MapBegin(keys)
        invariant FragsRefine(unackedFrags, num, CountGreaterAck(live0, num[at]), model.handed)
        invariant lost == KeysOf(Ascending(LostBy(live0, options, num[at])))
        invariant SameTimes(old(unackedFrags), unackedFrags)
        decreases a - num[at]
      {
        if it.None? {
          it := Some(MapBegin(keys));
        }
        if it.value == ackTxSeq { break; }
        ghost var next := CyclicNext(keys, it.value);
        CountOne(unackedFrags, firstUnackedFrag, num, live0, model.handed, hi, it.value, ackTxSeq, options);
        var frag := unackedFrags[it.value];
        frag := frag.(nGreaterSeqAcks := frag.nGreaterSeqAcks + 1);
        unackedFrags := unackedFrags[it.value := frag];
        if frag.nGreaterSeqAcks >= options.seqNumLossThreshold {
          lost := lost + [it.value];
        }
        it := MapNext(keys, it.value);
        at := next;
      }
      CountedKeys(num, live0, a);
      model := model.(live := CountGreaterAck(live0, a));
    }

    /** Removes an acknowledged fragment; counts its network packet if that was the last. */
    method OnLpPacketAcknowledged(txSeq: Sequence)
      requires IsLinked() && txSeq in num && txSeq in unackedFrags
      requires LiveListed(model.live, model.pkts) && ListsLive(model.live, model.pkts) && num[txSeq] in model.live
      modifies this`unackedFrags, this`firstUnackedFrag, this`netPkts, this`nAcknowledged, this`nRetransmitted,
               this`model, this`num
      ensures IsLinked() && num == old(num) - {txSeq} && unackedFrags == old(unackedFrags) - {txSeq}
      ensures SameFlags(old(netPkts), netPkts)
      ensures model == Settle(old(model), old(num)[txSeq])
      ensures var p := old(model).live[old(num)[txSeq]].id.pkt;
        && nAcknowledged == old(nAcknowledged) + (if p !in model.pkts && !old(model).pkts[p].didRetx then 1 else 0)
        && nRetransmitted == old(nRetransmitted) + (if p !in model.pkts && old(model).pkts[p].didRetx then 1 else 0)
    {
      hide Wrap, Linked, LastTxSeq, LiveListed, ListsLive, Window, MapBegin, MapNext, IndexOf, SwapRemove, Settle;
      ghost var m, n, unacked0, first0, num0 := model, num[txSeq], unackedFrags, firstUnackedFrag, num;
      SettleFacts(unackedFrags, firstUnackedFrag, lastTxSeqNo, netPkts, num, model, txSeq);
      var p := unackedFrags[txSeq].netPkt;
      var list := netPkts[p].unackedFrags;
      var rest := SwapRemove(list, IndexOf(list, txSeq));
      var didRetx := netPkts[p].didRetx;
      DeleteUnackedFrag(txSeq, |model.sent|);
      SettleRefines(unacked0, first0, lastTxSeqNo, netPkts, num0, m, txSeq, firstUnackedFrag);
      if rest == [] {
        if didRetx {
          nRetransmitted := nRetransmitted + 1;
        } else {
          nAcknowledged := nAcknowledged + 1;
        }
        netPkts := netPkts - {p};  // the last reference to it is gone
      } else {
        netPkts := netPkts[p := netPkts[p].(unackedFrags := rest)];
      }
      model := Settle(m, n);
    }

    /** Handles the losses an Ack revealed. `removed` guards against a TxSequence that went
        away while an earlier loss of the same pass was handled: it holds exactly the
        reported ones that are no longer live. */
    method HandleLosses(lost: seq<Sequence>, now: int, ghost txs: seq<nat>) returns (thrown: bool)
      requires Consistent() && HistoryOk() && lost == KeysOf(txs) && forall n :: n in txs ==> n in model.live
      modifies this`unackedFrags, this`firstUnackedFrag, this`lastTxSeqNo, this`netPkts, this`nRetxExhausted,
               this`droppedInterests, this`resent, this`model, this`num, this`sentAt
      ensures thrown <==> LoseAll(old(model), options, txs).None?
      ensures !thrown ==> Consistent() && Some(model) == LoseAll(old(model), options, txs)
      ensures !thrown ==> HistoryOk() && Leaves(old(Left()), Left(), now)
    {
      hide CoreInv, Linked, CountOf, Wrap, Lose, CountersOk, Leaves, Recorded;
      NoneLeft(now);
      forall j | 0 <= j < |txs| ensures txs[j] < |model.sent| {
        assert txs[j] in txs;
        LiveKey(txs[j]);
      }
      thrown := false;
      var removedLpPackets: set<Sequence> := {};
      for i := 0 to |lost|
        invariant Consistent() && !thrown
        invariant forall j :: i <= j < |lost| ==> (lost[j] !in removedLpPackets <==> txs[j] in model.live)
        invariant forall j :: i <= j < |lost| ==> txs[j] < |model.sent|
        invariant LoseAll(model, options, txs[i..]) == LoseAll(old(model), options, txs)
        invariant HistoryOk() && Leaves(old(Left()), Left(), now)
      {
        assert txs[i..][1..] == txs[i + 1..];
        if lost[i] !in removedLpPackets {
          ghost var m, num0 := model, num;
          LiveKey(txs[i]);
          forall j | i < j < |txs| && txs[j] in model.live
            ensures lost[j] in num && num[lost[j]] == txs[j]
          {
            LiveKey(txs[j]);
          }
          var removedTxSeqs;
          ghost var before := Left();
          removedTxSeqs, thrown := OnLpPacketLost(lost[i], now);
          if thrown { return; }
          LeavesAdd(old(Left()), before, Left(), now);
          LoseEffect(m, options, txs[i]);
          removedLpPackets := removedLpPackets + set k | k in removedTxSeqs;
        }
      }
      assert txs[|txs|..] == [];
    }

    /** Processes one Ack field of an incoming packet. */
    method ProcessAck(ackTxSeq: Sequence, now: int) returns (thrown: bool)
      requires Valid() && HistoryOk()
      modifies this`unackedFrags, this`firstUnackedFrag, this`lastTxSeqNo, this`netPkts, this`nAcknowledged,
               this`nRetransmitted, this`nRetxExhausted, this`rttMeasurements, this`droppedInterests, this`resent,
               this`model, this`num, this`sentAt
      ensures thrown <==> Step(old(model), options, AckArrives(ackTxSeq)).None?
      ensures !thrown ==> Valid() && Some(model) == Step(old(model), options, AckArrives(ackTxSeq))
      ensures !thrown ==> HistoryOk() && Leaves(old(Left()), Left(), now)
      ensures rttMeasurements == old(rttMeasurements) + old(Measured(ackTxSeq, now))
    {
      hide Linked, CountOf, Wrap, Lose, Inv, CoreInv, Acknowledge, LoseAll, Ack, Ascending, LostBy, Step, CountersOk,
           Leaves, Recorded;
      AckedKey(ackTxSeq);
      NoneLeft(now);
      thrown := false;
      if ackTxSeq !in unackedFrags { return; }
      ghost var m, a := model, num[ackTxSeq];
      AckParts(m, options, a);
      ghost var before := Left();
      var lostLpPackets := TakeAck(ackTxSeq, now);
      ghost var between := Left();
      thrown := HandleLosses(lostLpPackets, now, Ascending(LostBy(m.live, options, a)));
      if !thrown { LeavesAdd(before, between, Left(), now); }
      AckKeepsInv(m, options, a);
    }

    /** The RTT an Ack measures: on a fragment never repeated, the time since its transmission. */
    ghost function Measured(ackTxSeq: Sequence, now: int): seq<int>
      reads this
    {
      if ackTxSeq in unackedFrags && unackedFrags[ackTxSeq].retxCount == 0
         && ackTxSeq in num && num[ackTxSeq] < |sentAt|
      then [now - sentAt[num[ackTxSeq]]] else []
    }

    /** Measures RTT only on a fragment that was never repeated. */
    method MeasureRtt(ackTxSeq: Sequence, now: int)
      requires HistoryOk() && ackTxSeq in unackedFrags
      modifies this`rttMeasurements
      ensures |sentAt| == |model.sent|
      ensures rttMeasurements == old(rttMeasurements) + old(Measured(ackTxSeq, now))
      ensures |rttMeasurements| == |old(rttMeasurements)| + if unackedFrags[ackTxSeq].retxCount == 0 then 1 else 0
    {
      if unackedFrags[ackTxSeq].retxCount == 0 {
        rttMeasurements := rttMeasurements + [now - unackedFrags[ackTxSeq].sendTime];
      }
    }

    lemma NoneLeft(now: int)
      requires HistoryOk()
      ensures Leaves(Left(), Left(), now)
    {
      LeavesNothing(Left(), now);
    }

    /** Measures RTT, counts the Ack against earlier fragments and settles its own. */
    method TakeAck(ackTxSeq: Sequence, now: int) returns (lost: seq<Sequence>)
      requires Valid() && HistoryOk() && ackTxSeq in unackedFrags && ackTxSeq in num && num[ackTxSeq] in model.live
      modifies this`unackedFrags, this`firstUnackedFrag, this`netPkts, this`nAcknowledged,
               this`nRetransmitted, this`rttMeasurements, this`model, this`num
      ensures HistoryOk() && Leaves(old(Left()), Left(), now)
      ensures rttMeasurements == old(rttMeasurements) + old(Measured(ackTxSeq, now))
      ensures LiveListed(old(model).live, old(model).pkts)
      ensures Consistent() && model == Acknowledge(old(model), old(num)[ackTxSeq])
      ensures lost == KeysOf(Ascending(LostBy(old(model).live, options, old(num)[ackTxSeq])))
    {
      hide Linked, CountOf, Wrap, Lose, Inv, CoreInv, CountGreaterAck, Settle, Acknowledge, LoseAll, Ack, Ascending, LostBy,
           LiveListed, ListsLive, Step, SameFlags, SameTimes, Leaves, Recorded, Measured;
      AckedKey(ackTxSeq);
      ghost var m, a := model, num[ackTxSeq];
      AckParts(m, options, a);
      AckLists(m, num, options, a);
      MeasureRtt(ackTxSeq, now);
      AckLeavesNothing(Left(), options, a, now);
      ghost var unacked0, num0, netPkts0 := unackedFrags, num, netPkts;
      LinkedFacts(unackedFrags, firstUnackedFrag, lastTxSeqNo, netPkts, num, model);
      lost := FindLostLpPackets(ackTxSeq);
      LinkedFacts(unackedFrags, firstUnackedFrag, lastTxSeqNo, netPkts, num, model);
      ghost var unacked1 := unackedFrags;
      OnLpPacketAcknowledged(ackTxSeq);
      RecordedAck(unacked0, num0, netPkts0, m, sentAt, interests, droppedInterests, options, a, unacked1, ackTxSeq,
                  netPkts);
    }

    /** The retransmission timer of a live transmission expires. */
    method OnRtoExpired(txSeq: Sequence, now: int) returns (thrown: bool)
      requires Valid() && HistoryOk() && txSeq in unackedFrags && txSeq in num && num[txSeq] in model.live
      modifies this`unackedFrags, this`firstUnackedFrag, this`lastTxSeqNo, this`netPkts, this`nRetxExhausted,
               this`droppedInterests, this`resent, this`model, this`num, this`sentAt
      ensures thrown <==> Step(old(model), options, RtoExpires(old(num)[txSeq])).None?
      ensures !thrown ==> Valid() && Some(model) == Step(old(model), options, RtoExpires(old(num)[txSeq]))
      ensures !thrown ==> HistoryOk() && Leaves(old(Left()), Left(), now)
    {
      hide Linked, CountOf, Wrap, Lose, CoreInv, BelowThreshold, Leaves, Recorded;
      LoseKeepsInv(model, options, num[txSeq]);
      var removed;
      removed, thrown := OnLpPacketLost(txSeq, now);
    }

    // ---- receiving ----

    /** Looks a Sequence up among those recently received and records it. */
    method CheckDuplicate(pktSequence: Sequence, now: int, rto: int) returns (isDuplicate: bool)
      requires ReceiveValid()
      modifies this`recentRecvSeqs, this`recentRecvSeqsQueue
      ensures ReceiveValid()
      ensures isDuplicate == IsDuplicate(old(Records()), Receipt(pktSequence, now, rto))
      ensures Records() == Record(old(Records()), Receipt(pktSequence, now, rto))
    {
      RecordCovers(Records(), Receipt(pktSequence, now, rto));
      isDuplicate := pktSequence in recentRecvSeqs;
      while |recentRecvSeqsQueue| > 0
        invariant Expire(Records(), now, rto) == Expire(old(Records()), now, rto)
        decreases |recentRecvSeqsQueue|
      {
        var front := recentRecvSeqsQueue[0];
        if front !in recentRecvSeqs {
          recentRecvSeqs := recentRecvSeqs[front := EPOCH];
        }
        if !(now > recentRecvSeqs[front] + rto) { break; }
        recentRecvSeqs := recentRecvSeqs - {front};
        recentRecvSeqsQueue := recentRecvSeqsQueue[1..];
      }
      if pktSequence !in recentRecvSeqs {
        recentRecvSeqs := recentRecvSeqs[pktSequence := now];
      }
      recentRecvSeqsQueue := recentRecvSeqsQueue + [pktSequence];
    }

    /** Processes the Acks of an incoming packet in order, then queues an Ack for its
        fragment. Returns whether the packet is new. */
    method ProcessIncomingPacket(pkt: LpPacket, now: int, rto: int) returns (isNew: bool, thrown: bool)
      requires Valid() && HistoryOk() && ReceiveValid()
      modifies this
      ensures !thrown ==> HistoryOk() && Leaves(old(Left()), Left(), now)
      ensures thrown <==> Run(old(model), options, AckEvents(pkt.acks)).None?
      ensures !thrown ==> Valid() && ReceiveValid() && Some(model) == Run(old(model), options, AckEvents(pkt.acks))
      ensures !thrown ==> var queues := pkt.fragment.Some? && pkt.txSequence.Some?;
        && everQueued == old(everQueued) + (if queues then [pkt.txSequence.value] else [])
        && attached == old(attached)
        && (if queues && pkt.sequence.Some?
            then var x := Receipt(pkt.sequence.value, now, rto);
              isNew == !IsDuplicate(old(Records()), x) && Records() == Record(old(Records()), x)
            else isNew && Records() == old(Records()))
    {
      hide Linked, CountOf, Inv, Run, QueueCovers, Flatten, Record, Leaves, Recorded;
      isNew := true;
      thrown := ProcessAcks(pkt.acks, now);
      if !thrown && pkt.fragment.Some? && pkt.txSequence.Some? {
        ackQueue := ackQueue + [pkt.txSequence.value];
        everQueued := everQueued + [pkt.txSequence.value];
        if pkt.sequence.Some? {
          var isDuplicate := CheckDuplicate(pkt.sequence.value, now, rto);
          isNew := !isDuplicate;
        }
      }
    }

    method ProcessAcks(acks: seq<Sequence>, now: int) returns (thrown: bool)
      requires Valid() && HistoryOk()
      modifies this`unackedFrags, this`firstUnackedFrag, this`lastTxSeqNo, this`netPkts, this`nAcknowledged,
               this`nRetransmitted, this`nRetxExhausted, this`rttMeasurements, this`droppedInterests, this`resent,
               this`model, this`num, this`sentAt
      ensures !thrown ==> HistoryOk() && Leaves(old(Left()), Left(), now)
      ensures thrown <==> Run(old(model), options, AckEvents(acks)).None?
      ensures !thrown ==> Valid() && Some(model) == Run(old(model), options, AckEvents(acks))
    {
      hide Linked, CountOf, Inv, Step, CountersOk, Leaves, Recorded;
      NoneLeft(now);
      thrown := false;
      assert acks[0..] == acks && acks[|acks|..] == [];
      for i := 0 to |acks|
        invariant Valid() && !thrown
        invariant Run(model, options, AckEvents(acks[i..])) == Run(old(model), options, AckEvents(acks))
        invariant HistoryOk() && Leaves(old(Left()), Left(), now)
      {
        ghost var before := Left();
        assert AckEvents(acks[i..])[1..] == AckEvents(acks[i + 1..]);
        assert AckEvents(acks[i..])[0] == AckArrives(acks[i]);
        thrown := ProcessAck(acks[i], now);
        if thrown { return; }
        LeavesAdd(old(Left()), before, Left(), now);
      }
    }

    // ---- acknowledging ----

    /** Attaches queued Acks in order while they fit. */
    method Piggyback(pkt: LpPacket, mtu: int) returns (out: LpPacket)
      requires ReceiveValid() && !IsBare(pkt)
      modifies this`ackQueue, this`attached
      ensures ReceiveValid()
      ensures var k := NumAcks(|old(ackQueue)|, RemainingSpace(pkt, mtu));
        && out == WithAcks(pkt, old(ackQueue)[..k])
        && ackQueue == old(ackQueue)[k..]
        && attached == old(attached) + [old(ackQueue)[..k]]
    {
      hide WireSize, Flatten, QueueCovers, NumAcks;
      var pktSize := WireSize(pkt);
      var reservedSpace := SizeOfVarNumber(MAX_NDN_PACKET_SIZE) - SizeOfVarNumber(pktSize);
      var remainingSpace := (if mtu == MTU_UNLIMITED then MAX_NDN_PACKET_SIZE else mtu) - reservedSpace;
      remainingSpace := remainingSpace - pktSize;
      var acks := TakeAcks(remainingSpace);
      FlattenAppend(attached, acks);
      attached := attached + [acks];
      out := WithAcks(pkt, acks);
    }

    method TakeAcks(space: int) returns (acks: seq<Sequence>)
      modifies this`ackQueue
      ensures var k := NumAcks(|old(ackQueue)|, space);
        acks == old(ackQueue)[..k] && ackQueue == old(ackQueue)[k..]
    {
      acks := [];
      var remainingSpace := space;
      while |ackQueue| > 0
        invariant old(ackQueue) == acks + ackQueue
        invariant NumAcks(|old(ackQueue)|, space) == |acks| + NumAcks(|ackQueue|, remainingSpace)
        decreases |ackQueue|
      {
        if ACK_SIZE > remainingSpace { break; }
        acks := acks + [ackQueue[0]];
        ackQueue := ackQueue[1..];
        remainingSpace := remainingSpace - ACK_SIZE;
      }
    }

    /** The idle Ack timer: IDLE packets are sent until every queued Ack has left. The
        loop ends for every effective MTU of at least 16, in particular from MIN_MTU on. */
    method SendIdlePackets(mtu: int) returns (sent: seq<LpPacket>)
      requires ReceiveValid() && (mtu == MTU_UNLIMITED || mtu >= 16)
      modifies this`ackQueue, this`attached
      ensures ReceiveValid() && ackQueue == [] && Flatten(attached) == everQueued
      ensures forall p :: p in sent ==> WireSize(p) <= IdleLimit(mtu)
      ensures AllAcks(sent) == old(ackQueue)
    {
      hide WireSize, Flatten, QueueCovers, HeaderSize, FragmentSize, RemainingSpace, AllAcks;
      assert !IsBare(EmptyPacket);
      sent := [];
      NoAcks();
      while |ackQueue| > 0
        invariant ReceiveValid() && everQueued == old(everQueued)
        invariant forall p :: p in sent ==> WireSize(p) <= IdleLimit(mtu)
        invariant AllAcks(sent) + ackQueue == old(ackQueue)
        decreases |ackQueue|
      {
        IdleProgress(|ackQueue|, mtu);
        IdleFits(ackQueue[..NumAcks(|ackQueue|, RemainingSpace(EmptyPacket, mtu))], mtu);
        var p := Piggyback(EmptyPacket, mtu);
        AllAcksAppend(sent, p);
        sent := sent + [p];
      }
    }

    /** An Ack is for a live transmission exactly when its TxSequence is in the map. */
    lemma AckedKey(ackTxSeq: Sequence)
      requires Valid()
      ensures ackTxSeq in unackedFrags <==> ackTxSeq in num
      ensures ackTxSeq in num ==> num[ackTxSeq] in model.live
      ensures ackTxSeq in num ==> unackedFrags[ackTxSeq].retxCount == model.live[num[ackTxSeq]].retxCount
      ensures Step(model, options, AckArrives(ackTxSeq)) ==
        if ackTxSeq in num then Ack(model, options, num[ackTxSeq]) else Some(model)
    {
      hide CountOf, CoreInv, PktsRefine, Ack, Wrap, Lose, PushAll;
      LinkedFacts(unackedFrags, firstUnackedFrag, lastTxSeqNo, netPkts, num, model);
      if ackTxSeq in num {
        OneFrag(unackedFrags, num, model.live, model.handed, ackTxSeq);
        KeyOf(num, firstUnackedFrag, |model.sent|, ackTxSeq);
        assert HasKey(model.live, ackTxSeq, num[ackTxSeq]);
      }
      assert forall n :: HasKey(model.live, ackTxSeq, n) ==> ackTxSeq in num && num[ackTxSeq] == n;
    }

    lemma LiveKey(n: nat)
      requires Consistent() && n in model.live
      ensures Wrap(n) in num && Wrap(n) in unackedFrags && num[Wrap(n)] == n && n < |model.sent|
    {
      hide CountOf, LogHanded, CountsBounded, AcksLogged, AcksSettle, AcksCounted, Partition, FragsRefine, LiveListed,
           ListsNonEmpty, Covered, FlagsRetx, Accounted, Sampled, ListsLive, IsFirst, PktsRefine, Latest, TxCount;
      LinkedFacts(unackedFrags, firstUnackedFrag, lastTxSeqNo, netPkts, num, model);
    }

    lemma PacketOf(txSeq: Sequence)
      requires Consistent() && txSeq in num && txSeq in unackedFrags
      ensures var p := unackedFrags[txSeq].netPkt;
        && WindowOk(|model.sent|)
        && num[txSeq] in model.live && unackedFrags[txSeq].retxCount == model.live[num[txSeq]].retxCount
        && p in netPkts && p in model.pkts && p == model.live[num[txSeq]].id.pkt
        && txSeq in netPkts[p].unackedFrags
        && LiveListed(model.live, model.pkts) && ListsLive(model.live, model.pkts)
    {
      hide CountOf, LiveLogged, LogHanded, CountsBounded, AcksLogged, AcksSettle, AcksCounted, Partition,
           ListsNonEmpty, Covered, FlagsRetx, Accounted, Sampled, LiveListed, ListsLive, Window;
      OneFrag(unackedFrags, num, model.live, model.handed, txSeq);
      PacketList(unackedFrags, firstUnackedFrag, lastTxSeqNo, netPkts, num, model, txSeq);
      LinkedFacts(unackedFrags, firstUnackedFrag, lastTxSeqNo, netPkts, num, model);
    }

    lemma PacketKeys(txSeq: Sequence)
      requires Consistent() && txSeq in num && txSeq in unackedFrags
      ensures unackedFrags[txSeq].netPkt in netPkts && num[txSeq] in model.live
      ensures var list := netPkts[unackedFrags[txSeq].netPkt].unackedFrags;
        && txSeq in list && NoDuplicates(list)
        && (forall x :: x in list ==> x in unackedFrags && x in num)
        && (forall x :: x in num ==> (x in list <==> num[x] !in Drop(model, num[txSeq]).live))
    {
      hide CountOf, LiveLogged, LogHanded, CountsBounded, AcksLogged, AcksSettle, AcksCounted, Partition,
           ListsNonEmpty, Covered, FlagsRetx, Accounted, Sampled, LiveListed, ListsLive, Window, FragsRefine;
      PacketOf(txSeq);
      PacketList(unackedFrags, firstUnackedFrag, lastTxSeqNo, netPkts, num, model, txSeq);
      LinkedFacts(unackedFrags, firstUnackedFrag, lastTxSeqNo, netPkts, num, model);
    }
  }

  ghost function AckEvents(acks: seq<Sequence>): seq<Event> {
    seq(|acks|, i requires 0 <= i < |acks| => AckArrives(acks[i]))
  }

  function Flatten(s: seq<seq<Sequence>>): seq<Sequence> {
    if s == [] then [] else Flatten(s[..|s| - 1]) + s[|s| - 1]
  }

  lemma FlattenAppend(s: seq<seq<Sequence>>, t: seq<Sequence>)
    ensures Flatten(s + [t]) == Flatten(s) + t
  {
    assert (s + [t])[..|s|] == s;
  }

  function AllAcks(s: seq<LpPacket>): seq<Sequence> {
    if s == [] then [] else AllAcks(s[..|s| - 1]) + s[|s| - 1].acks
  }

  lemma NoAcks()
    ensures AllAcks([]) == []
  {
  }

  lemma AllAcksAppend(s: seq<LpPacket>, p: LpPacket)
    ensures AllAcks(s + [p]) == AllAcks(s) + p.acks
  {
    assert (s + [p])[..|s|] == s;
  }

  /** The MTU, and from 65548 and 2^32 + 12 on the octets that the TLV-LENGTH of an IDLE packet
      takes beyond those reserved for it. */
  function IdleLimit(mtu: int): int {
    Limit(mtu) + if mtu < 65548 then 0 else if mtu < 0x1_0000_000C then 2 else 6
  }

  lemma IdleFits(acks: seq<Sequence>, mtu: int)
    requires mtu == MTU_UNLIMITED || mtu >= 16
    requires |acks| > 0 ==> ACK_SIZE * |acks| <= RemainingSpace(EmptyPacket, mtu)
    ensures WireSize(WithAcks(EmptyPacket, acks)) <= IdleLimit(mtu)
  {
    SizeWithAcks(EmptyPacket, acks);
    assert HeaderSize(EmptyPacket) + FragmentSize(EmptyPacket) == 0;
    IdleSize(|acks|, mtu);
  }

  lemma IdleSize(k: nat, mtu: int)
    requires (mtu == MTU_UNLIMITED || mtu >= 16) && (k > 0 ==> ACK_SIZE * k <= Limit(mtu) - 4)
    ensures LpSize(ACK_SIZE * k) <= IdleLimit(mtu)
  {
  }

  /** A loss with retransmissions left, as seen by the counters. */
  lemma LoseAgain(m: Model, o: Options, n: nat)
    requires CoreInv(m, o) && n in m.live && m.live[n].retxCount < o.maxRetx
    ensures m.live[n].id.pkt in m.pkts && n in m.pkts[m.live[n].id.pkt].unacked
    ensures Lose(m, o, n) == if WindowFull(m) then None else Some(Retransmit(m, n))
    ensures var m' := Retransmit(m, n);
      m'.done == m.done && m'.handed == m.handed && m'.samples == m.samples
  {
    hide LiveLogged, LogHanded, CountsBounded, AcksLogged, AcksSettle, AcksCounted, Partition,
         ListsNonEmpty, Covered, FlagsRetx, Accounted, Sampled, ListsLive;
  }

  /** A loss without retransmissions left, as seen by the counters. */
  lemma LoseForGood(m: Model, o: Options, n: nat)
    requires CoreInv(m, o) && n in m.live && m.live[n].retxCount >= o.maxRetx
    ensures m.live[n].id.pkt in m.pkts
    ensures Lose(m, o, n) == Some(Drop(m, n)) && CoreInv(Drop(m, n), o)
    ensures var m' := Drop(m, n);
      m'.handed == m.handed && m'.samples == m.samples && m'.sent == m.sent
    ensures var p := m.live[n].id.pkt;
      p !in m.done && Drop(m, n).done == m.done[p := RetxExhausted]
  {
    hide LiveLogged, LogHanded, CountsBounded, AcksLogged, AcksSettle, AcksCounted,
         ListsNonEmpty, Covered, FlagsRetx, Accounted, Sampled, ListsLive;
    DropKeepsInv(m, o, n);
  }

  /** The parts of an acknowledgement, as seen by the counters. */
  lemma AckParts(m: Model, o: Options, a: nat)
    requires Inv(m, o) && a in m.live
    ensures LiveListed(m.live, m.pkts) && ListsLive(m.live, m.pkts)
    ensures var m' := Acknowledge(m, a);
      && CoreInv(m', o)
      && Ack(m, o, a) == LoseAll(m', o, Ascending(LostBy(m.live, o, a)))
      && m'.handed == m.handed
      && |m'.samples| == |m.samples| + (if m.live[a].retxCount == 0 then 1 else 0)
      && (forall n :: n in Ascending(LostBy(m.live, o, a)) ==> n in m'.live)
      && var p, d := m.live[a].id.pkt, m.pkts[m.live[a].id.pkt].didRetx;
         && CountOf(m'.done, Acknowledged) == CountOf(m.done, Acknowledged) + (if p !in m'.pkts && !d then 1 else 0)
         && CountOf(m'.done, Retransmitted) == CountOf(m.done, Retransmitted) + (if p !in m'.pkts && d then 1 else 0)
         && CountOf(m'.done, RetxExhausted) == CountOf(m.done, RetxExhausted)
  {
    hide CountOf, LiveLogged, LogHanded, CountsBounded, AcksLogged, AcksSettle, AcksCounted,
         ListsNonEmpty, Covered, FlagsRetx, Accounted, Sampled, ListsLive, IndexOf, SwapRemove, CountGreaterAck, LoseAll,
         BelowThreshold;
    AcknowledgeKeepsInv(m, o, a);
    CountedLive(m.live, a);
    AscendingSorted(LostBy(m.live, o, a));
    var p := m.live[a].id.pkt;
    forall x { CountOneMore(m.done, p, if m.pkts[p].didRetx then Retransmitted else Acknowledged, x); }
  }

  /** Counting leaves the lists alone, so the acknowledged fragment can be settled. */
  lemma AckLists(m: Model, num: map<Sequence, nat>, o: Options, a: nat)
    requires Inv(m, o) && a in m.live
    ensures var live' := CountGreaterAck(m.live, a);
      && a in live' && live'[a] == m.live[a]
      && LiveListed(live', m.pkts) && ListsLive(live', m.pkts)
      && Acknowledge(m, a) == Settle(m.(live := live'), a)
  {
    hide CountOf, LiveLogged, LogHanded, CountsBounded, AcksLogged, AcksSettle, AcksCounted, Partition,
         ListsNonEmpty, Covered, FlagsRetx, Accounted, Sampled, Settle, BelowThreshold;
    CountedLive(m.live, a);
    var live' := CountGreaterAck(m.live, a);
    forall p | p in m.pkts ensures ListLive(live', p, m.pkts[p].unacked) {
      assert ListLive(m.live, p, m.pkts[p].unacked);
    }
  }

  /** The counters after a network packet is given up on. */
  lemma DropCounts(m: Model, o: Options, n: nat)
    requires CoreInv(m, o) && n in m.live
    ensures var done' := Drop(m, n).done;
      && CountOf(done', Acknowledged) == CountOf(m.done, Acknowledged)
      && CountOf(done', Retransmitted) == CountOf(m.done, Retransmitted)
      && CountOf(done', RetxExhausted) == CountOf(m.done, RetxExhausted) + 1
  {
    hide CountOf, LiveLogged, LogHanded, CountsBounded, AcksLogged, AcksSettle, AcksCounted,
         ListsNonEmpty, Covered, FlagsRetx, Accounted, Sampled, ListsLive;
    forall x { CountOneMore(m.done, m.live[n].id.pkt, RetxExhausted, x); }
  }
}
