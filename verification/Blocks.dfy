/** TLV blocks: reading and writing them as octets. A block keeps the octets it came in. */
module Blocks {
  import opened Basics
  import opened LpPackets
  import opened Tlv

  datatype Block = Block(typ: nat, value: bytes, raw: bytes)

  const TYPE_MAX := 0xFFFF_FFFF

  /** A block as the encoder makes it. */
  function MakeBlock(typ: nat, value: bytes): Block {
    Block(typ, value, VarNumber(typ) + (VarNumber(|value|) + value))
  }

  /** The block at the front and what follows it; None where reading throws. */
  function ParseBlock(s: bytes): Option<(Block, bytes)> {
    match ReadVarNumber(s)
    case None => None
    case Some((typ, afterType)) =>
      if typ == 0 || typ > TYPE_MAX then None
      else
        match ReadVarNumber(afterType)
        case None => None
        case Some((length, afterLength)) =>
          if length > |afterLength| then None
          else
            ReadIsShorter(s);
            ReadIsShorter(afterType);
            var rest := afterLength[length..];
            Some((Block(typ, afterLength[..length], s[..|s| - |rest|]), rest))
  }

  lemma ReadIsShorter(s: bytes)
    ensures match ReadVarNumber(s) case None => true case Some((n, rest)) => |rest| < |s|
  {
  }

  lemma ParseIsShorter(s: bytes)
    ensures match ParseBlock(s) case None => true
            case Some((b, rest)) => |rest| < |s| && b.raw + rest == s && |b.value| < |b.raw|
  {
    match ReadVarNumber(s)
    case None =>
    case Some((typ, afterType)) =>
      ReadSuffix(s);
      ReadIsShorter(s);
      ReadSuffix(afterType);
      ReadIsShorter(afterType);
  }

  /** `parse`: the blocks an octet string is made of. */
  function ParseBlocks(s: bytes): Option<seq<Block>>
    decreases |s|
  {
    if s == [] then Some([])
    else
      ParseIsShorter(s);
      match ParseBlock(s)
      case None => None
      case Some((b, rest)) =>
        match ParseBlocks(rest)
        case None => None
        case Some(bs) => Some([b] + bs)
  }

  function JoinRaw(bs: seq<Block>): bytes {
    if bs == [] then [] else bs[0].raw + JoinRaw(bs[1..])
  }

  // ---- reading what was written ----

  lemma ReadSuffix(s: bytes)
    ensures match ReadVarNumber(s) case None => true
            case Some((n, rest)) => |rest| <= |s| && s[|s| - |rest|..] == rest
  {
  }

  lemma ReadExtend(s: bytes, x: bytes)
    requires ReadVarNumber(s).Some?
    ensures ReadVarNumber(s + x) == Some((ReadVarNumber(s).value.0, ReadVarNumber(s).value.1 + x))
  {
    hide Value;
    if s[0] < 253 {
      SliceExtend(s, x, 1, 1);
    } else {
      SliceExtend(s, x, 1, 1 + if s[0] == 253 then 2 else if s[0] == 254 then 4 else 8);
    }
  }

  lemma SliceExtend(s: bytes, x: bytes, i: nat, j: nat)
    requires i <= j <= |s|
    ensures (s + x)[i..j] == s[i..j] && (s + x)[j..] == s[j..] + x
  {
  }

  /** A block that reads back from its own octets. */
  predicate WellFormed(b: Block) {
    ParseBlock(b.raw) == Some((b, []))
  }

  lemma ParseExtend(s: bytes, x: bytes)
    requires ParseBlock(s).Some?
    ensures ParseBlock(s + x) == Some((ParseBlock(s).value.0, ParseBlock(s).value.1 + x))
  {
    hide ReadVarNumber;
    var (typ, afterType) := ReadVarNumber(s).value;
    ReadExtend(s, x);
    ReadIsShorter(s);
    var (length, afterLength) := ReadVarNumber(afterType).value;
    ReadExtend(afterType, x);
    ReadIsShorter(afterType);
    var rest := afterLength[length..];
    assert (afterLength + x)[..length] == afterLength[..length];
    assert (afterLength + x)[length..] == rest + x;
    assert (s + x)[..|s| - |rest|] == s[..|s| - |rest|];
  }

  lemma {:induction false} ParseJoin(bs: seq<Block>)
    requires forall i :: 0 <= i < |bs| ==> WellFormed(bs[i])
    ensures ParseBlocks(JoinRaw(bs)) == Some(bs)
  {
    hide ParseBlock;
    if bs != [] {
      var rest := JoinRaw(bs[1..]);
      ParseJoin(bs[1..]);
      assert WellFormed(bs[0]);
      ParseExtend(bs[0].raw, rest);
      ParseIsShorter(bs[0].raw);
      assert [] + rest == rest;
      assert bs == [bs[0]] + bs[1..];
    }
  }

  lemma MadeIsWellFormed(typ: nat, value: bytes)
    requires 0 < typ <= TYPE_MAX && |value| < TWO64
    ensures WellFormed(MakeBlock(typ, value))
  {
    hide ReadVarNumber, VarNumberOf;
    var s := VarNumber(|value|) + value;
    VarNumberRead(typ, SizeOfVarNumber(typ), s);
    VarNumberRead(|value|, SizeOfVarNumber(|value|), value);
    assert value[..|value|] == value && value[|value|..] == [];
    assert MakeBlock(typ, value).raw[..|MakeBlock(typ, value).raw|] == MakeBlock(typ, value).raw;
  }

  /** The octets a number was read from read the same before anything. */
  lemma HeadReads(s: bytes, x: bytes)
    requires ReadVarNumber(s).Some?
    ensures var (n, rest) := ReadVarNumber(s).value;
      |rest| < |s| && s == s[..|s| - |rest|] + rest && ReadVarNumber(s[..|s| - |rest|] + x) == Some((n, x))
  {
    var (n, rest) := ReadVarNumber(s).value;
    var head := s[..|s| - |rest|];
    if s[0] < 253 {
      assert (head + x)[1..] == x;
    } else {
      var k := if s[0] == 253 then 2 else if s[0] == 254 then 4 else 8;
      assert (head + x)[1..1 + k] == s[1..1 + k] && (head + x)[1 + k..] == x;
    }
  }

  lemma ReadBack(b: Block, h1: bytes, h2: bytes)
    requires 0 < b.typ <= TYPE_MAX && b.raw == h1 + (h2 + b.value)
    requires ReadVarNumber(h1 + (h2 + b.value)) == Some((b.typ, h2 + b.value))
    requires ReadVarNumber(h2 + b.value) == Some((|b.value|, b.value))
    ensures WellFormed(b)
  {
    hide ReadVarNumber;
    assert b.value[..|b.value|] == b.value && b.value[|b.value|..] == [];
    assert b.raw[..|b.raw|] == b.raw;
  }

  /** What reading a block leaves behind does not matter for the block. */
  lemma ParsedIsWellFormed(s: bytes)
    requires ParseBlock(s).Some?
    ensures WellFormed(ParseBlock(s).value.0)
  {
    hide ReadVarNumber, WellFormed;
    var (b, rest) := ParseBlock(s).value;
    var (typ, afterType) := ReadVarNumber(s).value;
    var (length, afterLength) := ReadVarNumber(afterType).value;
    ReadIsShorter(s);
    ReadIsShorter(afterType);
    var h1, h2 := s[..|s| - |afterType|], afterType[..|afterType| - |afterLength|];
    HeadReads(afterType, b.value);
    HeadReads(s, h2 + b.value);
    assert afterLength == b.value + rest;
    assert s == h1 + (h2 + (b.value + rest)) == h1 + (h2 + b.value) + rest;
    assert b.raw == h1 + (h2 + b.value);
    ReadBack(b, h1, h2);
  }

  /** The octets of a block: its type and length, each in a size that can be read, and its value. */
  ghost predicate IsWritten(b: Block, typeSize: nat, lengthSize: nat) {
    && Readable(b.typ, typeSize) && Readable(|b.value|, lengthSize)
    && b.raw == VarNumberOf(b.typ, typeSize) + (VarNumberOf(|b.value|, lengthSize) + b.value)
  }

  /** A block is read exactly where its octets stand, and only with a type from 1 to 2^32 - 1. */
  lemma ParsesExactly(s: bytes, b: Block, rest: bytes)
    ensures ParseBlock(s) == Some((b, rest)) <==>
      1 <= b.typ <= 0xFFFF_FFFF && s == b.raw + rest && exists k, l :: IsWritten(b, k, l)
  {
    if ParseBlock(s) == Some((b, rest)) {
      ParseWritten(s);
    }
    if 1 <= b.typ <= 0xFFFF_FFFF && s == b.raw + rest && exists k, l :: IsWritten(b, k, l) {
      var k, l :| IsWritten(b, k, l);
      WrittenParses(b, k, l, rest);
    }
  }

  lemma ParseWritten(s: bytes)
    requires ParseBlock(s).Some?
    ensures var (b, rest) := ParseBlock(s).value;
      s == b.raw + rest && exists k, l :: IsWritten(b, k, l)
  {
    hide ReadVarNumber, VarNumberOf, Readable;
    var (b, rest) := ParseBlock(s).value;
    ParseIsShorter(s);
    var k := VarNumberReadOnly(s);
    var (typ, afterType) := ReadVarNumber(s).value;
    var l := VarNumberReadOnly(afterType);
    var (length, afterLength) := ReadVarNumber(afterType).value;
    var h, g := VarNumberOf(typ, k), VarNumberOf(length, l);
    assert afterLength == b.value + rest;
    assert s == h + (g + (b.value + rest)) == (h + (g + b.value)) + rest;
    assert b.raw == (b.raw + rest)[..|b.raw|] == ((h + (g + b.value)) + rest)[..|b.raw|];
    assert b.raw == h + (g + b.value);
    assert IsWritten(b, k, l);
  }

  lemma WrittenParses(b: Block, k: nat, l: nat, rest: bytes)
    requires 1 <= b.typ <= 0xFFFF_FFFF && IsWritten(b, k, l)
    ensures ParseBlock(b.raw + rest) == Some((b, rest))
  {
    hide ReadVarNumber, VarNumberOf, Readable;
    var g := VarNumberOf(|b.value|, l) + b.value;
    VarNumberRead(b.typ, k, g);
    VarNumberRead(|b.value|, l, b.value);
    ReadBack(b, VarNumberOf(b.typ, k), VarNumberOf(|b.value|, l));
    ParseExtend(b.raw, rest);
    assert [] + rest == rest;
  }

  lemma {:induction false} ParsedAreWellFormed(s: bytes)
    requires ParseBlocks(s).Some?
    ensures forall i :: 0 <= i < |ParseBlocks(s).value| ==> WellFormed(ParseBlocks(s).value[i])
    ensures JoinRaw(ParseBlocks(s).value) == s
    decreases |s|
  {
    hide ParseBlock, WellFormed;
    if s != [] {
      ParseIsShorter(s);
      ParsedIsWellFormed(s);
      var (b, rest) := ParseBlock(s).value;
      ParsedAreWellFormed(rest);
      assert ([b] + ParseBlocks(rest).value)[1..] == ParseBlocks(rest).value;
    }
  }
}
