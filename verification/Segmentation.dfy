/** Segmented content as the function-chaining programs publish and fetch it. The
    producer and every function publish with `populateStore`; every function and the
    consumer fetch with `onData`. */
module Segmentation {
  import opened Basics
  import LpPackets
  import opened Tlv
  import opened NameComponents
  import opened Names
  import opened NameUri
  import SendWindow
  import InterestCodec

  datatype Interest = Interest(name: Name, functions: Name, mustBeFresh: bool)

  datatype Data = Data(name: Name, functions: Name, freshness: nat, finalBlock: Component, content: bytes)

  /** `matchesDataWFunction` for an Interest that cannot be a prefix and names no digest. */
  predicate Matches(i: Interest, d: Data) {
    i.functions == d.functions && i.name == d.name && (i.mustBeFresh ==> d.freshness > 0)
  }

  function Segment(n: uint64): Component {
    FromNumber(SEGMENT, TypedConvention, n)
  }

  /** `toSegment` with the default decoding of both conventions. */
  function ToSegment(c: Component): Option<nat> {
    ToNumber(SEGMENT, true, true, c)
  }

  lemma SegmentNumber(n: uint64)
    ensures ToSegment(Segment(n)) == Some(n) && Valid(Segment(n))
  {
    NumberRoundTrip(SEGMENT, TypedConvention, true, true, n);
  }

  /** A segment number is a number in a component of type 33, or after a zero octet in a
      Generic one. */
  lemma SegmentExactly(c: Component, n: nat)
    ensures ToSegment(c) == Some(n) <==>
      || (c.typ == 33 && |c.value| in {1, 2, 4, 8} && Value(c.value) == n)
      || (c.typ == 8 && |c.value| in {2, 3, 5, 9} && c.value[0] == 0 && Value(c.value[1..]) == n)
  {
    hide Value;
  }

  // ---- room in a segment ----

  const SIGNATURE_SIZE := 32
  const DEFAULT_KEY_LOCATOR_SIZE := 256
  const DEFAULT_SAFETY_OFFSET := 10
  const NAME_TYPE := 7

  function ComponentsSize(n: Name): nat {
    if n == [] then 0 else LpPackets.ElementSize(n[0].typ, |n[0].value|) + ComponentsSize(n[1..])
  }

  function NameSize(n: Name): nat {
    LpPackets.ElementSize(NAME_TYPE, ComponentsSize(n))
  }

  /** `freeSpaceForContent`; the producer counts no function name. */
  function FreeSpace(maxSegmentSize: nat, name: Name, functions: Option<Name>): int {
    maxSegmentSize - NameSize(name) - (if functions.Some? then NameSize(functions.value) else 0)
    - SIGNATURE_SIZE - DEFAULT_KEY_LOCATOR_SIZE - DEFAULT_SAFETY_OFFSET
  }

  /** Sizes are those of the encoded names. */
  lemma NameSizeOnWire(n: Name)
    ensures NameSize(n) == |InterestCodec.NameBlock(n).raw|
  {
    ComponentsSizeOnWire(n);
  }

  lemma {:induction false} ComponentsSizeOnWire(n: Name)
    ensures ComponentsSize(n) == |InterestCodec.NameValue(n)|
  {
    if n != [] {
      ComponentsSizeOnWire(n[1..]);
      assert InterestCodec.ComponentBlocks(n)[1..] == InterestCodec.ComponentBlocks(n[1..]);
    }
  }

  /** The octets of the encoded name, at a function also those of the encoded list. */
  function NameOctets(name: Name, functions: Option<Name>): nat {
    |InterestCodec.NameBlock(name).raw| + if functions.Some? then |InterestCodec.NameBlock(functions.value).raw| else 0
  }

  /** A segment, the names it is published under and 298 octets for the signature fit the
      largest segment; every segment but the last fills it. */
  ghost predicate FillsSegments(store: seq<Data>, maxSegmentSize: nat, name: Name, functions: Option<Name>) {
    forall i :: 0 <= i < |store| ==>
      var size := |store[i].content| + NameOctets(name, functions) + 298;
      size <= maxSegmentSize && (i < |store| - 1 ==> size == maxSegmentSize)
  }

  lemma FreeSpaceOnWire(maxSegmentSize: nat, name: Name, functions: Option<Name>)
    ensures FreeSpace(maxSegmentSize, name, functions) == maxSegmentSize - NameOctets(name, functions) - 298
  {
    NameSizeOnWire(name);
    if functions.Some? { NameSizeOnWire(functions.value); }
  }

  // ---- publishing ----

  ghost function Contents(store: seq<Data>): bytes {
    if store == [] then [] else store[0].content + Contents(store[1..])
  }

  lemma {:induction false} ContentsAppend(store: seq<Data>, d: Data)
    ensures Contents(store + [d]) == Contents(store) + d.content
  {
    if store == [] {
      assert store + [d] == [d];
      assert [d][1..] == [];
    } else {
      assert (store + [d])[1..] == store[1..] + [d];
      ContentsAppend(store[1..], d);
    }
  }

  /** The Data that carries segment `i` of `n`. */
  ghost predicate IsSegment(d: Data, i: nat, n: nat, name: Name, functions: Name, freshness: nat) {
    && i < n < TWO64
    && d.name == name + [Segment(i)] && d.functions == functions && d.freshness == freshness
    && d.finalBlock == Segment(n - 1)
  }

  /** A store publishes a content under a name and a function list. */
  ghost predicate Publishes(store: seq<Data>, name: Name, functions: Name, freshness: nat, content: bytes) {
    && Contents(store) == content
    && |store| < TWO64
    && forall i :: 0 <= i < |store| ==> IsSegment(store[i], i, |store|, name, functions, freshness)
  }

  /** Data of different names, segments or function lists never satisfy the same Interest, and
      what was published without freshness does not satisfy one that must be fresh. */
  lemma NeverConfused(interest: Interest, d: Data, i: nat, n: nat, name: Name, functions: Name, freshness: nat,
                      d': Data, i': nat, n': nat, name': Name, functions': Name, freshness': nat)
    requires IsSegment(d, i, n, name, functions, freshness) && IsSegment(d', i', n', name', functions', freshness')
    requires Matches(interest, d) && Matches(interest, d')
    ensures i == i' && name == name' && functions == functions'
    ensures interest.mustBeFresh ==> freshness > 0
  {
    hide FromNumber;
    var a, b := name + [Segment(i)], name' + [Segment(i')];
    assert a[|a| - 1] == Segment(i) && b[|b| - 1] == Segment(i');
    assert name == a[..|a| - 1] && name' == b[..|b| - 1];
    SegmentNumber(i);
    SegmentNumber(i');
  }

  /** `populateStore`: reads the file piece by piece into Data, then sets the final
      block of all. Without free space the source throws, or with none left reads
      nothing for ever: None. An empty or unreadable file gives no segment at all. */
  method PopulateStore(name: Name, functions: Name, freshness: nat, file: bytes, freeSpace: int)
    returns (r: Option<seq<Data>>)
    requires |file| < TWO64
    ensures r.Some? <==> freeSpace > 0
    ensures r.Some? ==> Publishes(r.value, name, functions, freshness, file)
    ensures r.Some? ==> (r.value == [] <==> file == [])
    ensures r.Some? ==> forall i :: 0 <= i < |r.value| ==> 0 < |r.value[i].content| <= freeSpace
    ensures r.Some? ==> forall i :: 0 <= i < |r.value| - 1 ==> |r.value[i].content| == freeSpace
  {
    hide FromNumber;
    if freeSpace <= 0 {
      return None;
    }
    var store := ReadSegments(name, functions, freshness, file, freeSpace);
    if store == [] {
      return Some(store);
    }
    store := SetFinalBlock(store, Segment(|store| - 1));
    return Some(store);
  }

  /** The loop that reads the file. */
  method ReadSegments(name: Name, functions: Name, freshness: nat, file: bytes, freeSpace: nat)
    returns (store: seq<Data>)
    requires |file| < TWO64 && freeSpace > 0
    ensures |store| <= |file| && (store == [] <==> file == []) && Contents(store) == file
    ensures forall i :: 0 <= i < |store| ==>
      0 < |store[i].content| <= freeSpace && store[i].name == name + [Segment(i)]
      && store[i].functions == functions && store[i].freshness == freshness
    ensures forall i :: 0 <= i < |store| - 1 ==> |store[i].content| == freeSpace
  {
    hide FromNumber;
    store := [];
    var pos, good := 0, true;
    while good
      invariant 0 <= pos <= |file| && (!good ==> pos == |file|)
      invariant |store| <= pos
      invariant (store == [] <==> pos == 0) && Contents(store) == file[..pos]
      invariant forall i :: 0 <= i < |store| ==>
        0 < |store[i].content| <= freeSpace && store[i].name == name + [Segment(i)]
        && store[i].functions == functions && store[i].freshness == freshness
      invariant forall i :: 0 <= i < |store| && (good || i < |store| - 1) ==> |store[i].content| == freeSpace
      decreases |file| - pos, good
    {
      var nCharsRead := if freeSpace < |file| - pos then freeSpace else |file| - pos;
      good := nCharsRead == freeSpace;
      if nCharsRead > 0 {
        var data := Data(name + [Segment(|store|)], functions, freshness, Segment(0), file[pos..pos + nCharsRead]);
        ContentsAppend(store, data);
        assert file[..pos] + file[pos..pos + nCharsRead] == file[..pos + nCharsRead];
        store := store + [data];
      }
      pos := pos + nCharsRead;
    }
    assert file[..pos] == file;
  }

  /** The loop that sets the final block of all Data. */
  method SetFinalBlock(unsigned: seq<Data>, finalBlockId: Component) returns (store: seq<Data>)
    ensures |store| == |unsigned| && Contents(store) == Contents(unsigned)
    ensures forall i :: 0 <= i < |store| ==> store[i] == unsigned[i].(finalBlock := finalBlockId)
  {
    store := unsigned;
    var i := 0;
    while i < |store|
      invariant 0 <= i <= |store| == |unsigned|
      invariant forall j :: 0 <= j < |store| ==>
        store[j] == if j < i then unsigned[j].(finalBlock := finalBlockId) else unsigned[j]
    {
      store := store[i := store[i].(finalBlock := finalBlockId)];
      i := i + 1;
    }
    SameContents(unsigned, store);
  }

  lemma {:induction false} SameContents(a: seq<Data>, b: seq<Data>)
    requires |a| == |b| && forall i :: 0 <= i < |a| ==> a[i].content == b[i].content
    ensures Contents(a) == Contents(b)
  {
    if a != [] {
      SameContents(a[1..], b[1..]);
    }
  }

  // ---- fetching ----

  /** The contents of Data by segment number, least first. */
  ghost function InOrder(m: map<nat, Data>): bytes
    decreases |m|
  {
    if m == map[] then []
    else
      var k := SendWindow.Least(m.Keys);
      assert k in m;
      m[k].content + InOrder(m - {k})
  }

  /** The segments from `lo` on, in order, are the rest of the content. */
  lemma {:induction false} InOrderOfStore(m: map<nat, Data>, store: seq<Data>, lo: nat)
    requires lo <= |store| && forall i :: i in m <==> lo <= i < |store|
    requires forall i :: i in m ==> m[i] == store[i]
    ensures InOrder(m) == Contents(store[lo..])
    decreases |store| - lo
  {
    if lo == |store| {
      assert m == map[];
    } else {
      assert lo in m.Keys;
      assert SendWindow.Least(m.Keys) == lo;
      InOrderOfStore(m - {lo}, store, lo + 1);
      assert store[lo..][1..] == store[lo + 1..];
    }
  }

  /** Data that an Interest of these programs can bring: the name ends in a file name and
      a segment number, and there is a final block number that `i <= final` can exceed. */
  predicate IsSegmentData(d: Data) {
    && |d.name| >= 2 && ValidName(d.name) && ToSegment(d.name[|d.name| - 1]).Some?
    && ToSegment(d.finalBlock).Some? && ToSegment(d.finalBlock).value < TWO64 - 1
  }

  function SegmentOf(d: Data): nat
    requires IsSegmentData(d)
  {
    ToSegment(d.name[|d.name| - 1]).value
  }

  /** The Interests for the segments after the first. */
  ghost function Followers(prefix: Name, functions: Name, mustBeFresh: bool, final: nat): seq<Interest>
    requires final < TWO64
  {
    seq(final, i requires 0 <= i < final => Interest(prefix + [Segment(i + 1)], functions, mustBeFresh))
  }

  class Receiver {
    var prefix: Name
    var filename: Name
    var incomingFinalBlockNumber: nat
    var receiveBuffer: map<nat, Data>
    const alternate: bool  // which URI format the environment selects

    constructor (alternate: bool)
      ensures receiveBuffer == map[] && this.alternate == alternate
    {
      prefix, filename, incomingFinalBlockNumber, receiveBuffer := [], [], 0, map[];
      this.alternate := alternate;
    }

    /** The final block number once `data` is taken in. */
    ghost function FinalAfter(data: Data): nat
      requires IsSegmentData(data)
      reads this
    {
      if SegmentOf(data) == 0 then ToSegment(data.finalBlock).value else incomingFinalBlockNumber
    }

    /** `onData`: keeps the segment, asks for the others on segment 0, and once as many
        are there as the final block number says, gives out the content in order. */
    method OnData(interest: Interest, data: Data) returns (interests: seq<Interest>, content: Option<bytes>)
      requires IsSegmentData(data)
      modifies this
      ensures var buffer := old(receiveBuffer)[SegmentOf(data) := data];
        if |buffer| == incomingFinalBlockNumber + 1 then receiveBuffer == map[] && content == Some(InOrder(buffer))
        else receiveBuffer == buffer && content == None
      ensures incomingFinalBlockNumber == old(FinalAfter(data))
      ensures SegmentOf(data) > 0 ==> interests == [] && prefix == old(prefix) && filename == old(filename)
      ensures SegmentOf(data) == 0 ==>
        && prefix == NormalName(data.name[..|data.name| - 2], alternate)
        && filename == [Normal(data.name[|data.name| - 2], alternate)]
        && interests == Followers(prefix + filename, interest.functions, interest.mustBeFresh,
                                  incomingFinalBlockNumber)
    {
      hide NormalName, Normal, ToNumber, FromNumber, InOrder, ParseName, NameText, ComponentText;
      var segment := ToSegment(data.name[|data.name| - 1]).value;
      receiveBuffer := receiveBuffer[segment := data];
      interests := [];
      if segment == 0 {
        var n := |data.name|;
        PrefixText(data.name[..n - 2], alternate);
        var p := ReadName(JoinText(data.name[..n - 2], alternate));
        prefix := p.value;
        ReadOneComponent(data.name[n - 2], alternate);
        var f := ReadName(ComponentText(data.name[n - 2], alternate));
        filename := f.value;
        incomingFinalBlockNumber := ToSegment(data.finalBlock).value;
        interests := AskForOthers(interest);
      }
      content := None;
      if |receiveBuffer| == incomingFinalBlockNumber + 1 {
        var c := ReassembleSegments();
        content := Some(c);
      }
    }

    /** The loop of `onData` that asks for the segments after the first. */
    method AskForOthers(interest: Interest) returns (interests: seq<Interest>)
      requires incomingFinalBlockNumber < TWO64
      ensures interests == Followers(prefix + filename, interest.functions, interest.mustBeFresh, incomingFinalBlockNumber)
    {
      hide FromNumber;
      interests := [];
      var i := 1;
      while i <= incomingFinalBlockNumber
        invariant 1 <= i <= incomingFinalBlockNumber + 1 && |interests| == i - 1
        invariant forall j :: 0 <= j < i - 1 ==>
          interests[j] == Interest(prefix + filename + [Segment(j + 1)], interest.functions, interest.mustBeFresh)
      {
        var name := prefix + filename + [Segment(i)];
        interests := interests + [Interest(name, interest.functions, interest.mustBeFresh)];
        i := i + 1;
      }
    }

    /** `reassembleSegments`: appends the contents in the order of the map. */
    method ReassembleSegments() returns (contentBuffer: bytes)
      modifies this`receiveBuffer
      ensures contentBuffer == InOrder(old(receiveBuffer)) && receiveBuffer == map[]
    {
      contentBuffer := [];
      var rest := receiveBuffer;
      while |rest| > 0
        invariant receiveBuffer == old(receiveBuffer) && contentBuffer + InOrder(rest) == InOrder(receiveBuffer)
        decreases |rest|
      {
        SendWindow.LeastExists(rest.Keys);
        var k :| k in rest.Keys && forall x :: x in rest.Keys ==> k <= x;
        assert k == SendWindow.Least(rest.Keys);
        contentBuffer := contentBuffer + rest[k].content;
        rest := rest - {k};
      }
      assert rest == map[] && contentBuffer + [] == contentBuffer;
      receiveBuffer := map[];
    }
  }

  /** `getPrefix` writes the components of a name after slashes; nothing for none. */
  lemma PrefixText(n: Name, alternate: bool)
    requires ValidName(n)
    ensures ParseName(JoinText(n, alternate)) == Some(NormalName(n, alternate))
  {
    hide ComponentText, ParseComponents, ParseComponent, Find;
    if n == [] {
      ReadNothing();
    } else {
      ReadWritten(n, alternate);
    }
  }

  /** A file name is read from the URI of one component without a slash. */
  lemma ReadOneComponent(c: Component, alternate: bool)
    requires Valid(c)
    ensures ParseName(ComponentText(c, alternate)) == Some([Normal(c, alternate)])
  {
    hide ComponentText, ParseComponents, ParseComponent, Find, Normal;
    var s := ComponentText(c, alternate);
    ComponentTextIsOne(c, alternate);
    ComponentRoundTrip(c, alternate);
    FindUnique(s, ':', |s|);
    assert WithoutScheme(s) == s;
    ReadFirst(s, [], Normal(c, alternate));
    EmptyText(alternate);
    assert s + [] == s && s[0] != '/';
    assert [Normal(c, alternate)] + [] == [Normal(c, alternate)];
  }
}
