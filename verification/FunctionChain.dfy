/** A chain of functions between a producer and a consumer. Each function, on an Interest
    for segment 0, passes the Interest on without its own name, fetches the whole content,
    transforms it, and publishes the result under the function list it was asked with. */
module FunctionChain {
  import opened Basics
  import opened Tlv
  import opened NameComponents
  import opened Names
  import opened NameUri
  import opened Segmentation
  import opened UriText

  // ---- one transfer between neighbours ----

  /** What a receiver holds while the segments in `pending` are still to come. */
  ghost predicate Holds(buffer: map<nat, Data>, store: seq<Data>, pending: set<nat>) {
    && (forall i :: i in buffer <==> 0 <= i < |store| && i !in pending)
    && forall i :: i in buffer ==> buffer[i] == store[i]
  }

  /** The names by which a name is asked for in segments survive the URIs they pass. */
  ghost predicate IsContentName(name: Name, alternate: bool) {
    name != [] && ValidName(name) && AllShortest(name, alternate)
  }

  lemma HoldsAll(buffer: map<nat, Data>, store: seq<Data>)
    requires Holds(buffer, store, {})
    ensures |buffer| == |store| && InOrder(buffer) == Contents(store)
  {
    InOrderOfStore(buffer, store, 0);
    assert store[0..] == store;
    CountKeys(buffer.Keys, |store|);
  }

  lemma {:induction false} CountKeys(keys: set<nat>, n: nat)
    requires forall i :: i in keys <==> 0 <= i < n
    ensures |keys| == n
  {
    if n == 0 {
      assert keys == {};
    } else {
      CountKeys(keys - {n - 1}, n - 1);
    }
  }

  lemma HoldsSome(buffer: map<nat, Data>, store: seq<Data>, pending: set<nat>)
    requires Holds(buffer, store, pending) && pending != {}
    requires forall i :: i in pending ==> i < |store|
    ensures |buffer| != |store|
  {
    var all := buffer.Keys + pending;
    CountKeys(all, |store|);
    assert buffer.Keys !! pending;
    assert |all| == |buffer.Keys| + |pending|;
  }

  lemma HoldsNext(buffer: map<nat, Data>, store: seq<Data>, pending: set<nat>, k: nat)
    requires Holds(buffer, store, pending) && k in pending && k < |store|
    ensures Holds(buffer[k := store[k]], store, pending - {k})
  {
  }

  lemma SegmentIsData(d: Data, i: nat, n: nat, name: Name, functions: Name, freshness: nat)
    requires IsSegment(d, i, n, name, functions, freshness) && name != [] && ValidName(name)
    ensures IsSegmentData(d) && SegmentOf(d) == i && ToSegment(d.finalBlock) == Some(n - 1)
  {
    hide FromNumber, ToNumber;
    SegmentNumber(i);
    SegmentNumber(n - 1);
    assert d.name[|d.name| - 1] == Segment(i);
  }

  lemma ContentNameParts(d: Data, i: nat, n: nat, name: Name, functions: Name, freshness: nat, alternate: bool)
    requires IsSegment(d, i, n, name, functions, freshness) && IsContentName(name, alternate)
    ensures NormalName(d.name[..|d.name| - 2], alternate) + [Normal(d.name[|d.name| - 2], alternate)] == name
  {
    hide FromNumber, Normal, IsShortest;
    var m := |name| - 1;
    assert d.name[..|d.name| - 2] == name[..m] && d.name[|d.name| - 2] == name[m];
    NormalNameExactly(name[..m], alternate);
    NormalExactly(name[m], alternate);
    assert name == name[..m] + [name[m]];
  }

  /** Either the content is complete or the buffer holds what is not pending. */
  ghost predicate Progress(buffer: map<nat, Data>, done: Option<bytes>, store: seq<Data>, pending: set<nat>) {
    if pending == {} then done == Some(Contents(store)) && buffer == map[] else Holds(buffer, store, pending)
  }

  /** Taking in a segment that makes `buffer` what the receiver holds. */
  lemma ProgressAfter(buffer: map<nat, Data>, after: map<nat, Data>, done: Option<bytes>, store: seq<Data>,
                      pending: set<nat>)
    requires Holds(buffer, store, pending) && forall i :: i in pending ==> i < |store|
    requires if |buffer| == |store| then after == map[] && done == Some(InOrder(buffer))
             else after == buffer && done == None
    ensures Progress(after, done, store, pending)
  {
    hide InOrder, Contents, Holds;
    if pending == {} {
      HoldsAll(buffer, store);
    } else {
      HoldsSome(buffer, store, pending);
    }
  }

  /** The Data for segment 0 arrives. */
  method FetchFirst(receiver: Receiver, interest: Interest, store: seq<Data>, ghost name: Name, ghost freshness: nat)
    returns (interests: seq<Interest>, done: Option<bytes>)
    requires 0 < |store| < TWO64 && IsSegment(store[0], 0, |store|, name, interest.functions, freshness)
    requires IsContentName(name, receiver.alternate) && receiver.receiveBuffer == map[]
    modifies receiver
    ensures interests == Followers(name, interest.functions, interest.mustBeFresh, |store| - 1)
    ensures receiver.incomingFinalBlockNumber == |store| - 1
    ensures Progress(receiver.receiveBuffer, done, store, Rest(|store|))
  {
    hide FromNumber, ToNumber, NormalName, Normal, InOrder, Contents, IsContentName, IsSegment, IsSegmentData, Progress,
         Rest, SegmentOf, Followers;
    NameIsContent(name, receiver.alternate);
    SegmentIsData(store[0], 0, |store|, name, interest.functions, freshness);
    ContentNameParts(store[0], 0, |store|, name, interest.functions, freshness, receiver.alternate);
    interests, done := receiver.OnData(interest, store[0]);
    ghost var first: map<nat, Data> := map[0 := store[0]];
    assert Holds(first, store, Rest(|store|));
    ProgressAfter(first, receiver.receiveBuffer, done, store, Rest(|store|));
  }

  /** The Data for one of the pending segments arrives. */
  method FetchNext(receiver: Receiver, interest: Interest, store: seq<Data>, k: nat, ghost pending: set<nat>,
                   ghost name: Name, ghost freshness: nat)
    returns (done: Option<bytes>)
    requires 0 < k < |store| && k in pending && (forall i :: i in pending ==> i < |store|)
    requires IsSegment(store[k], k, |store|, name, interest.functions, freshness)
    requires name != [] && ValidName(name)
    requires receiver.incomingFinalBlockNumber == |store| - 1 && Holds(receiver.receiveBuffer, store, pending)
    modifies receiver
    ensures receiver.incomingFinalBlockNumber == |store| - 1
    ensures Progress(receiver.receiveBuffer, done, store, pending - {k})
  {
    hide FromNumber, ToNumber, NormalName, Normal, InOrder, Contents, IsSegment, IsSegmentData, Progress, SegmentOf,
         Holds, Followers;
    SegmentIsData(store[k], k, |store|, name, interest.functions, freshness);
    HoldsNext(receiver.receiveBuffer, store, pending, k);
    ghost var buffer := receiver.receiveBuffer[k := store[k]];
    var none;
    none, done := receiver.OnData(interest, store[k]);
    ProgressAfter(buffer, receiver.receiveBuffer, done, store, pending - {k});
  }

  /** Who answers an Interest for a segment: a producer that checks the name, or a function
      that, but for segment 0, only looks at the segment number. */
  datatype Upstream = AtProducer(fullNameSize: nat) | AtFunction

  /** `onInterest` where it answers at once, and segment 0 where a function puts it later. */
  function Answer(up: Upstream, store: seq<Data>, interest: Interest): Option<Data>
    requires interest.name != []
  {
    var segment := ToSegment(interest.name[|interest.name| - 1]);
    if segment == None || segment.value >= |store| then None
    else if up.AtProducer? && |interest.name| != up.fullNameSize + 1 then None
    else Some(store[segment.value])
  }

  /** What is answered is the segment that was asked for, and at the producer only under a
      name with one component more than the content's. */
  lemma AnswerExactly(up: Upstream, store: seq<Data>, interest: Interest, d: Data)
    requires interest.name != []
    ensures Answer(up, store, interest) == Some(d) <==>
      && (up.AtProducer? ==> |interest.name| == up.fullNameSize + 1)
      && exists i :: 0 <= i < |store| && store[i] == d && ToSegment(interest.name[|interest.name| - 1]) == Some(i)
  {
    hide ToNumber;
  }

  lemma AnswerIsSegment(up: Upstream, store: seq<Data>, interest: Interest, name: Name, i: nat)
    requires i < |store| < TWO64 && interest.name == name + [Segment(i)]
    requires up.AtProducer? ==> up.fullNameSize == |name|
    ensures Answer(up, store, interest) == Some(store[i])
  {
    hide FromNumber, ToNumber;
    SegmentNumber(i);
  }

  /** A receiver asks for segment 0 and then for the others, which come in any order. Every
      Data satisfies the Interest it answers, and the content is rebuilt as published. */
  method Fetch(receiver: Receiver, interest: Interest, up: Upstream, store: seq<Data>,
               ghost name: Name, ghost freshness: nat)
    returns (content: bytes)
    requires store != [] && Publishes(store, name, interest.functions, freshness, Contents(store))
    requires IsContentName(name, receiver.alternate) && (up.AtProducer? ==> up.fullNameSize == |name|)
    requires receiver.receiveBuffer == map[]
    requires interest.name == name + [Segment(0)] && (interest.mustBeFresh ==> freshness > 0)
    modifies receiver
    ensures content == Contents(store) && receiver.receiveBuffer == map[]
  {
    hide FromNumber, ToNumber, InOrder, Contents, IsContentName, Holds, Answer;
    NameIsContent(name, receiver.alternate);
    AnswerIsSegment(up, store, interest, name, 0);
    var data := Answer(up, store, interest).value;
    assert IsSegment(data, 0, |store|, name, interest.functions, freshness);
    assert Matches(interest, data);
    var interests, done := FetchFirst(receiver, interest, store, name, freshness);
    var pending := Rest(|store|);
    while pending != {}
      invariant forall i :: i in pending ==> 0 < i < |store|
      invariant receiver.incomingFinalBlockNumber == |store| - 1
      invariant Progress(receiver.receiveBuffer, done, store, pending)
      decreases |pending|
    {
      if forall x :: x !in pending { assert false; }
      var k :| k in pending;
      AnswerIsSegment(up, store, interests[k - 1], name, k);
      data := Answer(up, store, interests[k - 1]).value;
      assert IsSegment(data, k, |store|, name, interest.functions, freshness);
      assert Matches(interests[k - 1], data);
      done := FetchNext(receiver, interests[k - 1], store, k, pending, name, freshness);
      pending := pending - {k};
    }
    return done.value;
  }

  lemma NameIsContent(name: Name, alternate: bool)
    requires IsContentName(name, alternate)
    ensures name != [] && ValidName(name)
  {
  }

  /** The segments after the first of `n`. */
  function Rest(n: nat): (s: set<nat>)
    ensures forall i :: i in s <==> 0 < i < n
    ensures n > 1 ==> s != {}
  {
    if n <= 1 then {} else
      var s := Rest(n - 1) + {n - 1};
      assert n - 1 in s;
      s
  }

  // ---- the programs ----

  type file = b: bytes | |b| < TWO64 witness []

  class Producer {
    const fullContentName: Name   // the prefix and the file name, which is read as a URI
    const maxSegmentSize: nat
    const freshness: nat
    const content: file
    var store: Option<seq<Data>>  // None: the constructor throws or does not return

    ghost predicate Valid()
      reads this
    {
      && (store.Some? <==> FreeSpace(maxSegmentSize, fullContentName, None) > 0)
      && (store.Some? ==> Publishes(store.value, fullContentName, [], freshness, content))
      && (store.Some? ==> (store.value == [] <==> content == []))
    }

    constructor (prefix: Name, loadFilename: text, content: file, maxSegmentSize: nat, freshness: nat)
      requires ParseName(loadFilename).Some?
      ensures Valid() && fullContentName == prefix + ParseName(loadFilename).value && this.content == content
      ensures this.maxSegmentSize == maxSegmentSize && this.freshness == freshness
      ensures store.Some? <==> NameOctets(fullContentName, None) + 298 < maxSegmentSize
      ensures store.Some? ==> FillsSegments(store.value, maxSegmentSize, fullContentName, None)
    {
      hide ParseName, NameOctets, FreeSpace;
      var filename := ReadName(loadFilename);
      fullContentName := prefix + filename.value;
      this.content, this.maxSegmentSize, this.freshness := content, maxSegmentSize, freshness;
      store := None;
      new;
      FreeSpaceOnWire(maxSegmentSize, fullContentName, None);
      store := PopulateStore(fullContentName, [], freshness, content, FreeSpace(maxSegmentSize, fullContentName, None));
    }
  }

  class Func {
    const funcName: Name
    const program: file -> file   // what the node does to a file
    const maxSegmentSize: nat
    const freshness: nat
    const receiver: Receiver
    var store: seq<Data>

    constructor (funcName: Name, program: file -> file, maxSegmentSize: nat, freshness: nat, alternate: bool)
      ensures this.funcName == funcName && this.program == program && this.maxSegmentSize == maxSegmentSize
      ensures this.freshness == freshness && store == [] && fresh(receiver)
      ensures receiver.alternate == alternate && receiver.receiveBuffer == map[]
    {
      this.funcName, this.program, this.maxSegmentSize, this.freshness := funcName, program, maxSegmentSize, freshness;
      store := [];
      receiver := new Receiver(alternate);
    }

    /** `onInterest` for segment 0: the Interest to pass on. */
    method Forward(interest: Interest) returns (r: Interest)
      requires ValidName(interest.functions)
      ensures r == interest.(functions := if interest.functions == [] then []
                                          else NormalName(interest.functions[1..], receiver.alternate))
    {
      var functions := RemoveHeadFunction(interest.functions, receiver.alternate);
      return interest.(functions := functions.value);
    }

    /** The end of `onData`: runs the program and publishes its output under this function's
        name before those already executed. False where there is no segment 0 to put. */
    method Finish(name: Name, content: file, executed: Name) returns (ok: bool)
      requires ValidName(funcName)
      modifies this`store
      ensures var functions := NormalName(funcName, receiver.alternate) + executed;
        && (ok <==> FreeSpace(maxSegmentSize, name, Some(functions)) > 0 && program(content) != [])
        && (ok ==> store != [] && Publishes(store, name, functions, freshness, program(content)))
        && (ok ==> FillsSegments(store, maxSegmentSize, name, Some(functions)))
    {
      hide NormalName, ParseName, NameText, NameOctets, FreeSpace;
      ReadWritten(funcName, receiver.alternate);
      var own := ReadName(NameText(funcName, receiver.alternate));
      var functions := own.value + executed;
      FreeSpaceOnWire(maxSegmentSize, name, Some(functions));
      var s := PopulateStore(name, functions, freshness, program(content),
                             FreeSpace(maxSegmentSize, name, Some(functions)));
      if s == None {
        return false;
      }
      store := s.value;
      return store != [];
    }
  }

  // ---- the chain ----

  type Programs = seq<file -> file>

  /** Programs applied one to the output of the next: the last one first. */
  ghost function Compose(ps: Programs, content: file): file {
    if ps == [] then content else ps[0](Compose(ps[1..], content))
  }

  /** What the chain computes. */
  ghost function Apply(nodes: seq<Func>, content: file): file {
    Compose(ProgramsOf(nodes), content)
  }

  ghost function ProgramsOf(nodes: seq<Func>): Programs {
    if nodes == [] then [] else [nodes[0].program] + ProgramsOf(nodes[1..])
  }

  lemma ApplyFirst(nodes: seq<Func>, content: file)
    requires nodes != []
    ensures Apply(nodes, content) == nodes[0].program(Apply(nodes[1..], content))
  {
    assert ProgramsOf(nodes)[1..] == ProgramsOf(nodes[1..]);
  }

  // ---- the order of a list of functions ----

  /** Programs applied in the order they are listed. */
  ghost function ComposeAsListed(ps: Programs, content: file): file {
    if ps == [] then content else ComposeAsListed(ps[1..], ps[0](content))
  }

  ghost function Reversed(ps: Programs): Programs {
    if ps == [] then [] else Reversed(ps[1..]) + [ps[0]]
  }

  lemma {:induction false} ComposeLast(ps: Programs, last: file -> file, content: file)
    ensures Compose(ps + [last], content) == Compose(ps, last(content))
    ensures ComposeAsListed(ps + [last], content) == last(ComposeAsListed(ps, content))
    decreases |ps|
  {
    if ps == [] {
      assert [last][1..] == [];
      assert ps + [last] == [last];
    } else {
      assert (ps + [last])[1..] == ps[1..] + [last];
      ComposeLast(ps[1..], last, content);
      ComposeLast(ps[1..], last, ps[0](content));
    }
  }

  /** To have functions applied in an order, a consumer lists them the other way round. */
  lemma {:induction false} ListedOrderIsReversed(ps: Programs, content: file)
    ensures Compose(Reversed(ps), content) == ComposeAsListed(ps, content)
    decreases |ps|
  {
    if ps != [] {
      ComposeLast(Reversed(ps[1..]), ps[0], content);
      ListedOrderIsReversed(ps[1..], ps[0](content));
    }
  }

  /** Two nodes, each of which writes a file of its own whatever it is given: the result is
      the file of the first one listed, where the listed order would leave that of the second. */
  lemma ListedOrderFails(a: Func, b: Func, content: file)
    requires forall x :: a.program(x) == [1]
    requires forall x :: b.program(x) == [2]
    ensures Apply([a, b], content) == [1]
    ensures ComposeAsListed(ProgramsOf([a, b]), content) == [2]
  {
    ApplyFirst([a, b], content);
    assert [a, b][1..] == [b] && [b][1..] == [];
    assert ProgramsOf([b]) == [b.program] + ProgramsOf([]);
    assert ProgramsOf([a, b]) == [a.program] + [b.program];
    ComposeLast([a.program], b.program, content);
  }

  /** Programs that write 1 if listed first and 2 if listed later. */
  ghost function Writers(n: nat): (ps: Programs)
    ensures |ps| == n
  {
    seq(n, i requires 0 <= i < n => if i == 0 then (x: file) => [1] else (x: file) => [2])
  }

  lemma WritersDiffer(n: nat)
    requires n >= 2
    ensures Compose(Writers(n), []) == [1] && ComposeAsListed(Writers(n), []) == [2]
  {
    var ps := Writers(n);
    var init := ps[..n - 1];
    assert ps == init + [ps[n - 1]];
    ComposeLast(init, ps[n - 1], []);
  }

  /** The listed order is the order of application for all programs and contents exactly
      for lists of at most one function. */
  lemma ListedOrderHoldsExactly(n: nat)
    ensures (forall ps: Programs, content: file :: |ps| == n ==> Compose(ps, content) == ComposeAsListed(ps, content))
            <==> n <= 1
  {
    if n <= 1 {
      forall ps: Programs, content: file | |ps| == n
        ensures Compose(ps, content) == ComposeAsListed(ps, content)
      {
        if n == 1 {
          assert ps[1..] == [];
        }
      }
    } else {
      WritersDiffer(n);
      assert Compose(Writers(n), []) != ComposeAsListed(Writers(n), []);
    }
  }

  /** When a function publishes under the list it was asked with: its name is put before the
      list it passed on, so that must be one component, the first of the list, and the others
      must survive the URI they pass through. */
  lemma PublishesAsAskedExactly(funcName: Name, asked: Name, alternate: bool)
    requires asked != []
    ensures NormalName(funcName, alternate) + NormalName(asked[1..], alternate) == asked <==>
      |funcName| == 1 && NormalName(funcName, alternate) == [asked[0]] && AllShortest(asked[1..], alternate)
  {
    hide NormalName, IsShortest;
    NormalNameExactly(asked[1..], alternate);
    var own, rest := NormalName(funcName, alternate), NormalName(asked[1..], alternate);
    if own + rest == asked {
      assert |own| == 1;
      assert own == (own + rest)[..1] && rest == (own + rest)[1..];
    } else if own == [asked[0]] {
      assert asked == [asked[0]] + asked[1..];
    }
  }

  // ---- a request ----

  /** Room for content in the segments at every hop, something to put in them, and fresh
      Data where that is asked for. */
  ghost predicate ChainOk(nodes: seq<Func>, producer: Producer, functions: Name, mustBeFresh: bool) {
    if nodes == [] then
      && FreeSpace(producer.maxSegmentSize, producer.fullContentName, None) > 0
      && producer.content != [] && (mustBeFresh ==> producer.freshness > 0)
    else
      && functions != [] && ChainOk(nodes[1..], producer, functions[1..], mustBeFresh)
      && FreeSpace(nodes[0].maxSegmentSize, producer.fullContentName, Some(functions)) > 0
      && Apply(nodes, producer.content) != [] && (mustBeFresh ==> nodes[0].freshness > 0)
  }

  /** The nodes stand in the order of a list of functions, one component each. */
  ghost predicate ServeInOrder(nodes: seq<Func>, functions: Name, alternate: bool)
  {
    && |nodes| == |functions| && ValidName(functions) && AllShortest(functions, alternate)
    && forall i :: 0 <= i < |nodes| ==> nodes[i].funcName == [functions[i]] && nodes[i].receiver.alternate == alternate
  }

  ghost predicate Distinct(nodes: seq<Func>) {
    forall i, j :: 0 <= i < j < |nodes| ==> nodes[i] != nodes[j] && nodes[i].receiver != nodes[j].receiver
  }

  ghost function Receivers(nodes: seq<Func>): set<Receiver> {
    set n | n in nodes :: n.receiver
  }

  ghost predicate Idle(nodes: seq<Func>)
    reads Receivers(nodes)
  {
    forall r :: r in Receivers(nodes) ==> r.receiveBuffer == map[]
  }

  /** Every function publishes the result of the functions from it on, under exactly the
      list it was asked with. */
  ghost predicate AllPublish(nodes: seq<Func>, name: Name, functions: Name, content: file)
    requires |functions| == |nodes|
    reads nodes
  {
    nodes == [] ||
    (Publishes(nodes[0].store, name, functions, nodes[0].freshness, Apply(nodes, content))
     && AllPublish(nodes[1..], name, functions[1..], content))
  }

  lemma TailServes(nodes: seq<Func>, functions: Name, alternate: bool)
    requires ServeInOrder(nodes, functions, alternate) && Distinct(nodes) && nodes != []
    ensures ServeInOrder(nodes[1..], functions[1..], alternate) && Distinct(nodes[1..])
    ensures |functions| == |nodes| && ValidName(functions) && nodes[0].funcName == [functions[0]]
    ensures nodes[0].receiver.alternate == alternate
    ensures NormalName(functions[1..], alternate) == functions[1..]
    ensures NormalName([functions[0]], alternate) + functions[1..] == functions
    ensures nodes[0] !in nodes[1..] && nodes[0].receiver !in Receivers(nodes[1..])
    ensures Receivers(nodes[1..]) + {nodes[0].receiver} == Receivers(nodes)
  {
    hide NormalName, IsShortest;
    NormalNameExactly(functions[1..], alternate);
    NormalNameExactly([functions[0]], alternate);
    assert functions == [functions[0]] + functions[1..];
  }

  lemma NoneLeft(functions: Name, alternate: bool)
    requires ServeInOrder([], functions, alternate)
    ensures functions == []
  {
  }

  /** Whether a function with this output can answer. */
  ghost predicate HopOk(node: Func, name: Name, functions: Name, mustBeFresh: bool, output: file) {
    FreeSpace(node.maxSegmentSize, name, Some(functions)) > 0 && output != [] && (mustBeFresh ==> node.freshness > 0)
  }

  lemma ChainStep(nodes: seq<Func>, producer: Producer, functions: Name, mustBeFresh: bool)
    requires nodes != [] && functions != []
    ensures ChainOk(nodes, producer, functions, mustBeFresh) <==>
      ChainOk(nodes[1..], producer, functions[1..], mustBeFresh)
      && HopOk(nodes[0], producer.fullContentName, functions, mustBeFresh, nodes[0].program(Apply(nodes[1..], producer.content)))
    ensures Apply(nodes, producer.content) == nodes[0].program(Apply(nodes[1..], producer.content))
  {
    hide FreeSpace;
    ApplyFirst(nodes, producer.content);
  }

  /** One function: fetches what its upstream publishes, and publishes its own result. */
  method Hop(node: Func, interest: Interest, forward: Interest, up: Upstream, upstream: seq<Data>,
             name: Name, ghost freshness: nat, ghost content: file)
    returns (r: Option<seq<Data>>)
    requires upstream != [] && Publishes(upstream, name, forward.functions, freshness, content)
    requires IsContentName(name, node.receiver.alternate) && (up.AtProducer? ==> up.fullNameSize == |name|)
    requires forward.name == name + [Segment(0)] && (forward.mustBeFresh ==> freshness > 0)
    requires ValidName(node.funcName) && node.receiver.receiveBuffer == map[]
    requires interest.functions == NormalName(node.funcName, node.receiver.alternate) + forward.functions
    modifies node, node.receiver
    ensures node.receiver.receiveBuffer == map[]
    ensures r.Some? <==> HopOk(node, name, interest.functions, interest.mustBeFresh, node.program(content))
    ensures r.Some? ==> r.value == node.store != []
                        && Publishes(node.store, name, interest.functions, node.freshness, node.program(content))
  {
    hide FreeSpace, FromNumber, NormalName, IsContentName, Contents;
    assert upstream[0].functions == forward.functions by {
      assert IsSegment(upstream[0], 0, |upstream|, name, forward.functions, freshness);
    }
    var got := Fetch(node.receiver, forward, up, upstream, name, freshness);
    var ok := node.Finish(name, got, upstream[0].functions);
    if !ok || (interest.mustBeFresh && node.freshness == 0) {
      return None;
    }
    return Some(node.store);
  }

  /** An Interest for segment 0 reaches the first of the nodes, or the producer when none is
      left. Gives what is then published there; None when the chain gets stuck. */
  method Ask(nodes: seq<Func>, producer: Producer, interest: Interest, ghost alternate: bool)
    returns (r: Option<seq<Data>>)
    requires producer.Valid()
    requires IsContentName(producer.fullContentName, alternate) && interest.name == producer.fullContentName + [Segment(0)]
    requires ServeInOrder(nodes, interest.functions, alternate) && Distinct(nodes) && Idle(nodes)
    modifies nodes, Receivers(nodes)
    ensures Idle(nodes)
    ensures r.Some? <==> ChainOk(nodes, producer, interest.functions, interest.mustBeFresh)
    ensures r.Some? ==> r.value != [] && AllPublish(nodes, producer.fullContentName, interest.functions, producer.content)
    ensures r.Some? ==> Publishes(r.value, producer.fullContentName, interest.functions, Freshness(nodes, producer),
                                  Apply(nodes, producer.content))
    ensures r.Some? ==> (interest.mustBeFresh ==> Freshness(nodes, producer) > 0)
    decreases |nodes|
  {
    hide FreeSpace, FromNumber, NormalName, IsContentName, Contents, IsSegment, Publishes, HopOk, ServeInOrder, Distinct;
    if nodes == [] {
      NoneLeft(interest.functions, alternate);
      if producer.store == None || producer.store.value == [] || (interest.mustBeFresh && producer.freshness == 0) {
        return None;
      }
      return producer.store;
    }
    TailServes(nodes, interest.functions, alternate);
    ChainStep(nodes, producer, interest.functions, interest.mustBeFresh);
    var node := nodes[0];
    var forward := node.Forward(interest);
    var upstream := Ask(nodes[1..], producer, forward, alternate);
    if upstream == None {
      return None;
    }
    var up := if |nodes| == 1 then AtProducer(|producer.fullContentName|) else AtFunction;
    r := Hop(node, interest, forward, up, upstream.value, producer.fullContentName, Freshness(nodes[1..], producer),
             Apply(nodes[1..], producer.content));
  }

  ghost function Freshness(nodes: seq<Func>, producer: Producer): nat {
    if nodes == [] then producer.freshness else nodes[0].freshness
  }

  class Consumer {
    const contentName: Name
    const funcName: Name
    const mustBeFresh: bool
    const receiver: Receiver
    var output: Option<bytes>  // the file written, if any

    constructor (contentName: Name, funcName: Name, mustBeFresh: bool, alternate: bool)
      ensures this.contentName == contentName && this.funcName == funcName && this.mustBeFresh == mustBeFresh
      ensures fresh(receiver) && receiver.alternate == alternate && receiver.receiveBuffer == map[] && output == None
    {
      this.contentName, this.funcName, this.mustBeFresh, output := contentName, funcName, mustBeFresh, None;
      receiver := new Receiver(alternate);
    }

    /** Asks for the content under the list of functions. The file written is the content
        with the functions applied, the last of the list first; it is written exactly when
        no hop gets stuck, and then every hop has published under the list it was asked with. */
    method Run(nodes: seq<Func>, producer: Producer)
      requires producer.Valid()
      requires contentName == producer.fullContentName && IsContentName(contentName, receiver.alternate)
      requires ServeInOrder(nodes, funcName, receiver.alternate) && Distinct(nodes) && Idle(nodes)
      requires receiver !in Receivers(nodes) && receiver.receiveBuffer == map[] && output == None
      modifies this`output, receiver, nodes, Receivers(nodes)
      ensures output == if ChainOk(nodes, producer, funcName, mustBeFresh)
                       then Some(Apply(nodes, producer.content)) else None
      ensures output.Some? ==> AllPublish(nodes, contentName, funcName, producer.content)
      ensures Idle(nodes) && receiver.receiveBuffer == map[]
    {
      hide ChainOk, FromNumber, IsContentName, Contents, IsSegment, FreeSpace, Apply, NormalName, IsShortest;
      var interest := Interest(contentName + [Segment(0)], funcName, mustBeFresh);
      var store := Ask(nodes, producer, interest, receiver.alternate);
      if store == None {
        return;
      }
      var up := if nodes == [] then AtProducer(|producer.fullContentName|) else AtFunction;
      var content := Fetch(receiver, interest, up, store.value, contentName, Freshness(nodes, producer));
      output := Some(content);
    }
  }
}
