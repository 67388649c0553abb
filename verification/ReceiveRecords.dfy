/** The record of recently received Sequences that suppresses duplicates. */
module ReceiveRecords {
  import opened Basics

  /** `m_recentRecvSeqs` and `m_recentRecvSeqsQueue`. */
  datatype Recent = Recent(times: map<Sequence, int>, queue: seq<Sequence>)

  /** A received packet: its Sequence, the clock and the RTO in force. */
  datatype Receipt = Receipt(seqNo: Sequence, now: int, rto: int)

  /** Reading a missing key of `m_recentRecvSeqs` inserts the epoch. */
  const EPOCH := 0

  function Touch(times: map<Sequence, int>, s: Sequence): (t: map<Sequence, int>)
    ensures s in t
  {
    if s in times then times else times[s := EPOCH]
  }

  /** Records whose turn has come in the queue expire after the RTO. */
  function Expire(r: Recent, now: int, rto: int): Recent
    decreases |r.queue|
  {
    if r.queue == [] then r
    else
      var front := r.queue[0];
      var times := Touch(r.times, front);
      if now > times[front] + rto
      then Expire(Recent(times - {front}, r.queue[1..]), now, rto)
      else Recent(times, r.queue)
  }

  function Record(r: Recent, x: Receipt): Recent {
    var e := Expire(r, x.now, x.rto);
    Recent(if x.seqNo in e.times then e.times else e.times[x.seqNo := x.now], e.queue + [x.seqNo])
  }

  predicate IsDuplicate(r: Recent, x: Receipt) {
    x.seqNo in r.times
  }

  function RecordAll(r: Recent, xs: seq<Receipt>): Recent
    decreases |xs|
  {
    if xs == [] then r else RecordAll(Record(r, xs[0]), xs[1..])
  }

  // ---- the queue covers the records ----

  ghost predicate QueueCovers(r: Recent) {
    forall s :: s in r.times ==> s in r.queue
  }

  lemma {:induction false} ExpireCovers(r: Recent, now: int, rto: int)
    requires QueueCovers(r)
    ensures QueueCovers(Expire(r, now, rto))
    decreases |r.queue|
  {
    if r.queue != [] {
      var front := r.queue[0];
      var times := Touch(r.times, front);
      if now > times[front] + rto {
        forall s | s in times - {front} ensures s in r.queue[1..] {
          assert s in r.queue;
        }
        ExpireCovers(Recent(times - {front}, r.queue[1..]), now, rto);
      }
    }
  }

  lemma RecordCovers(r: Recent, x: Receipt)
    requires QueueCovers(r)
    ensures QueueCovers(Record(r, x))
  {
    ExpireCovers(r, x.now, x.rto);
    var e, r' := Expire(r, x.now, x.rto), Record(r, x);
    forall s | s in r'.times ensures s in r'.queue {
      if s == x.seqNo { assert r'.queue[|e.queue|] == s; } else { assert s in e.queue; }
    }
  }

  // ---- only repeats are flagged ----

  lemma {:induction false} ExpireShrinks(r: Recent, now: int, rto: int)
    ensures forall s :: s in Expire(r, now, rto).queue ==> s in r.queue
    decreases |r.queue|
  {
    if r.queue != [] {
      var front := r.queue[0];
      var times := Touch(r.times, front);
      if now > times[front] + rto {
        ExpireShrinks(Recent(times - {front}, r.queue[1..]), now, rto);
      }
    }
  }

  /** Starting from nothing, a Sequence is flagged only if it was received before. */
  lemma {:induction false} FlaggedWasReceived(xs: seq<Receipt>, x: Receipt)
    requires IsDuplicate(RecordAll(Recent(map[], []), xs), x)
    ensures exists i :: 0 <= i < |xs| && xs[i].seqNo == x.seqNo
  {
    var r := Recent(map[], []);
    RecordedWasReceived(r, xs);
    assert x.seqNo in RecordAll(r, xs).queue;
  }

  lemma {:induction false} RecordedWasReceived(r: Recent, xs: seq<Receipt>)
    requires QueueCovers(r)
    ensures QueueCovers(RecordAll(r, xs))
    ensures forall s :: s in RecordAll(r, xs).queue ==> s in r.queue || exists i :: 0 <= i < |xs| && xs[i].seqNo == s
    decreases |xs|
  {
    if xs != [] {
      RecordCovers(r, xs[0]);
      ExpireShrinks(r, xs[0].now, xs[0].rto);
      var r1, tail := Record(r, xs[0]), xs[1..];
      RecordedWasReceived(r1, tail);
      forall s | s in RecordAll(r, xs).queue && s !in r.queue
        ensures exists i :: 0 <= i < |xs| && xs[i].seqNo == s
      {
        if s in r1.queue {
          assert xs[0].seqNo == s;
        } else {
          var i :| 0 <= i < |tail| && tail[i].seqNo == s;
          assert xs[i + 1].seqNo == s;
        }
      }
    }
  }

  // ---- every repeat in time is flagged ----

  lemma {:induction false} ExpireKeeps(r: Recent, now: int, rto: int, s: Sequence)
    requires s in r.times && now <= r.times[s] + rto
    ensures s in Expire(r, now, rto).times && Expire(r, now, rto).times[s] == r.times[s]
    decreases |r.queue|
  {
    if r.queue != [] {
      var front := r.queue[0];
      var times := Touch(r.times, front);
      if now > times[front] + rto {
        ExpireKeeps(Recent(times - {front}, r.queue[1..]), now, rto, s);
      }
    }
  }

  /** A record made at time t outlives every packet processed no later than t plus the
      RTO in force then, repeats of the same Sequence included. */
  lemma {:induction false} RecordSurvives(r: Recent, xs: seq<Receipt>, s: Sequence, t: int)
    requires s in r.times && r.times[s] == t
    requires forall i :: 0 <= i < |xs| ==> xs[i].now <= t + xs[i].rto
    ensures s in RecordAll(r, xs).times && RecordAll(r, xs).times[s] == t
    decreases |xs|
  {
    if xs != [] {
      ExpireKeeps(r, xs[0].now, xs[0].rto, s);
      RecordSurvives(Record(r, xs[0]), xs[1..], s, t);
    }
  }

  /** So after a new Sequence is received at time t, every repeat is flagged as long as
      no packet in between was processed later than t plus its RTO. */
  lemma RepeatFlagged(r: Recent, first: Receipt, xs: seq<Receipt>, repeated: Receipt)
    requires first.seqNo !in Expire(r, first.now, first.rto).times && repeated.seqNo == first.seqNo
    requires forall i :: 0 <= i < |xs| ==> xs[i].now <= first.now + xs[i].rto
    ensures IsDuplicate(RecordAll(Record(r, first), xs), repeated)
  {
    RecordSurvives(Record(r, first), xs, first.seqNo, first.now);
  }

  /** A record whose time has passed is forgotten once it reaches the front. */
  lemma {:induction false} FrontIsFresh(r: Recent, now: int, rto: int)
    ensures var e := Expire(r, now, rto);
      e.queue != [] ==> e.queue[0] in e.times && now <= e.times[e.queue[0]] + rto
    decreases |r.queue|
  {
    if r.queue != [] {
      var front := r.queue[0];
      var times := Touch(r.times, front);
      if now > times[front] + rto {
        FrontIsFresh(Recent(times - {front}, r.queue[1..]), now, rto);
      }
    }
  }
}
