/** The octets of an `lp::Packet`, which the size arithmetic of the link service stands for. */
module LpEncoding {
  import opened Basics
  import opened LpPackets
  import opened Tlv
  import opened Blocks

  // ---- the fields ----

  function SequenceField(typ: nat, field: Option<Sequence>): seq<Block> {
    if field.Some? then [MakeBlock(typ, BigEndian(field.value, 8))] else []
  }

  function IntegerField(typ: nat, field: Option<uint64>): seq<Block> {
    if field.Some? then [MakeBlock(typ, NonNegativeInteger(field.value))] else []
  }

  function AckFields(acks: seq<Sequence>): seq<Block> {
    if acks == [] then [] else [MakeBlock(836, BigEndian(acks[0], 8))] + AckFields(acks[1..])
  }

  function OtherFields(headers: seq<Element>): seq<Block> {
    if headers == [] then [] else [MakeBlock(headers[0].typ, headers[0].value)] + OtherFields(headers[1..])
  }

  function Headers(p: LpPacket): seq<Block> {
    SequenceField(81, p.sequence) + (IntegerField(82, p.fragIndex) + (IntegerField(83, p.fragCount)
    + (SequenceField(840, p.txSequence) + (AckFields(p.acks) + (IntegerField(832, p.congestionMark)
    + OtherFields(p.headers))))))
  }

  function FragmentField(p: LpPacket): seq<Block> {
    if p.fragment.Some? then [MakeBlock(80, p.fragment.value)] else []
  }

  /** A packet with its fields in some order: the network packet alone if there is no other
      field, else a block of type 100 around all fields. */
  ghost predicate IsEncoding(p: LpPacket, wire: bytes) {
    if Headers(p) == [] && p.fragment.Some? then wire == p.fragment.value
    else exists fields :: multiset(fields) == multiset(Headers(p) + FragmentField(p))
                          && wire == MakeBlock(100, JoinRaw(fields)).raw
  }

  // ---- sizes ----

  ghost function Total(bs: multiset<Block>): nat {
    if bs == multiset{} then 0 else var b :| b in bs; |b.raw| + Total(bs - multiset{b})
  }

  lemma {:induction false} TotalWithout(bs: multiset<Block>, b: Block)
    requires b in bs
    ensures Total(bs) == |b.raw| + Total(bs - multiset{b})
    decreases |bs|
  {
    var c :| c in bs && Total(bs) == |c.raw| + Total(bs - multiset{c});
    if c != b {
      TotalWithout(bs - multiset{c}, b);
      TotalWithout(bs - multiset{b}, c);
      assert bs - multiset{c} - multiset{b} == bs - multiset{b} - multiset{c};
    }
  }

  /** The octets of blocks one after another do not depend on their order. */
  lemma {:induction false} JoinedTotal(bs: seq<Block>)
    ensures |JoinRaw(bs)| == Total(multiset(bs))
  {
    if bs != [] {
      JoinedTotal(bs[1..]);
      assert bs == [bs[0]] + bs[1..];
      TotalWithout(multiset(bs), bs[0]);
      assert multiset(bs) - multiset{bs[0]} == multiset(bs[1..]);
    }
  }

  lemma {:induction false} JoinedSum(a: seq<Block>, b: seq<Block>)
    ensures |JoinRaw(a + b)| == |JoinRaw(a)| + |JoinRaw(b)|
  {
    if a == [] {
      assert a + b == b;
    } else {
      assert (a + b)[1..] == a[1..] + b;
      JoinedSum(a[1..], b);
    }
  }

  lemma OneField(b: Block)
    ensures |JoinRaw([b])| == |b.raw| && |JoinRaw([])| == 0
  {
    assert [b][1..] == [];
  }

  lemma SequenceFieldOctets(typ: nat, field: Option<Sequence>)
    ensures |JoinRaw(SequenceField(typ, field))| == SequenceFieldSize(typ, field)
    ensures SequenceField(typ, field) == [] <==> field == None
  {
    if field.Some? {
      OneField(MakeBlock(typ, BigEndian(field.value, 8)));
    }
  }

  lemma IntegerFieldOctets(typ: nat, field: Option<uint64>)
    ensures |JoinRaw(IntegerField(typ, field))| == IntegerFieldSize(typ, field)
    ensures IntegerField(typ, field) == [] <==> field == None
  {
    if field.Some? {
      OneField(MakeBlock(typ, NonNegativeInteger(field.value)));
    }
  }

  lemma {:induction false} AckFieldsOctets(acks: seq<Sequence>)
    ensures |JoinRaw(AckFields(acks))| == ACK_SIZE * |acks|
    ensures AckFields(acks) == [] <==> acks == []
  {
    if acks != [] {
      AckFieldsOctets(acks[1..]);
      var b := MakeBlock(836, BigEndian(acks[0], 8));
      OneField(b);
      JoinedSum([b], AckFields(acks[1..]));
    }
  }

  lemma {:induction false} OtherFieldsOctets(headers: seq<Element>)
    ensures |JoinRaw(OtherFields(headers))| == HeadersSize(headers)
    ensures OtherFields(headers) == [] <==> headers == []
  {
    if headers != [] {
      OtherFieldsOctets(headers[1..]);
      var b := MakeBlock(headers[0].typ, headers[0].value);
      OneField(b);
      JoinedSum([b], OtherFields(headers[1..]));
    }
  }

  lemma HeadersOctets(p: LpPacket)
    ensures |JoinRaw(Headers(p))| == HeaderSize(p)
    ensures Headers(p) == [] <==> p.(fragment := None) == EmptyPacket
  {
    hide JoinRaw, SequenceField, IntegerField, AckFields, OtherFields, SequenceFieldSize, IntegerFieldSize, HeadersSize;
    var f6 := OtherFields(p.headers);
    var f5 := IntegerField(832, p.congestionMark) + f6;
    var f4 := AckFields(p.acks) + f5;
    var f3 := SequenceField(840, p.txSequence) + f4;
    var f2 := IntegerField(83, p.fragCount) + f3;
    var f1 := IntegerField(82, p.fragIndex) + f2;
    SequenceFieldOctets(81, p.sequence);
    IntegerFieldOctets(82, p.fragIndex);
    IntegerFieldOctets(83, p.fragCount);
    SequenceFieldOctets(840, p.txSequence);
    AckFieldsOctets(p.acks);
    IntegerFieldOctets(832, p.congestionMark);
    OtherFieldsOctets(p.headers);
    JoinedSum(SequenceField(81, p.sequence), f1);
    JoinedSum(IntegerField(82, p.fragIndex), f2);
    JoinedSum(IntegerField(83, p.fragCount), f3);
    JoinedSum(SequenceField(840, p.txSequence), f4);
    JoinedSum(AckFields(p.acks), f5);
    JoinedSum(IntegerField(832, p.congestionMark), f6);
  }

  /** `WireSize` is the number of octets of every encoding of the packet. */
  lemma SizeOnWire(p: LpPacket, wire: bytes)
    requires IsEncoding(p, wire)
    ensures |wire| == WireSize(p)
  {
    hide JoinRaw, Headers, HeaderSize, Total;
    HeadersOctets(p);
    if Headers(p) != [] || p.fragment.None? {
      var fields :| multiset(fields) == multiset(Headers(p) + FragmentField(p))
                    && wire == MakeBlock(100, JoinRaw(fields)).raw;
      JoinedTotal(fields);
      JoinedTotal(Headers(p) + FragmentField(p));
      JoinedSum(Headers(p), FragmentField(p));
      FragmentOctets(p);
    }
  }

  lemma FragmentOctets(p: LpPacket)
    ensures |JoinRaw(FragmentField(p))| == FragmentSize(p)
  {
    if p.fragment.Some? {
      OneField(MakeBlock(80, p.fragment.value));
    }
  }
}
