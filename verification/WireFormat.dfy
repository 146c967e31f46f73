/** Base-128 varints, tags and fixed-width words: the byte-level rules that the
    generated messages and the unknown-field set share (Protocol Buffers
    Encoding, "Base 128 Varints", "Signed Integers", "Message Structure"). */
module WireFormat {
  import opened Basics

  newtype byte = b: int | 0 <= b < 0x100
  type uint32 = v: int | 0 <= v < 0x1_0000_0000
  type uint64 = v: int | 0 <= v < 0x1_0000_0000_0000_0000
  newtype int32 = v: int | -0x8000_0000 <= v < 0x8000_0000

  const TWO_32 := 0x1_0000_0000
  const TWO_64 := 0x1_0000_0000_0000_0000
  const INT_MAX := 0x7FFF_FFFF
  const MAX_VARINT_BYTES := 10
  const MAX_FIELD_NUMBER := 0x1FFF_FFFF

  /** A cast to uint32, and one to uint64. */
  function Low32(v: nat): (u: uint32)
    ensures v < TWO_32 ==> u == v
  {
    v % 0x1_0000_0000
  }

  function Low64(v: nat): (u: uint64)
    ensures v < TWO_64 ==> u == v
  {
    v % 0x1_0000_0000_0000_0000
  }

  lemma LowOfSum(a: nat, k: nat)
    ensures Low32(a + 0x1_0000_0000 * k) == Low32(a)
  {
  }

  lemma LowTwice(v: nat)
    ensures Low32(Low64(v)) == Low32(v)
  {
    LowOfSum(Low64(v), 0x1_0000_0000 * (v / 0x1_0000_0000_0000_0000));
  }

  lemma Assoc(a: seq<byte>, b: seq<byte>, c: seq<byte>)
    ensures (a + b) + c == a + (b + c)
  {
  }

  // ----- Varints -----------------------------------------------------------

  /** The varint encoding: seven bits a byte, least significant group first. */
  function Varint(v: nat): (s: seq<byte>)
    ensures |s| >= 1
  {
    if v < 128 then [v as byte] else [(128 + v % 128) as byte] + Varint(v / 128)
  }

  /** The outcome of reading one varint: the value before it is cut to the
      reader's width, and the number of bytes it took. */
  datatype VarintRead = Malformed | Read(value: nat, length: nat)

  /** Reads at most `limit` bytes; running out of bytes or of limit is malformed. */
  function ReadVarint(s: seq<byte>, limit: nat): (r: VarintRead)
    ensures r.Read? ==> 1 <= r.length <= |s| && r.length <= limit
  {
    if limit == 0 || s == [] then Malformed
    else if s[0] < 128 then Read(s[0] as nat, 1)
    else match ReadVarint(s[1..], limit - 1)
      case Malformed => Malformed
      case Read(v, n) => Read((s[0] - 128) as nat + 128 * v, n + 1)
  }

  lemma {:induction false} VarintRoundTrip(v: nat, rest: seq<byte>, limit: nat)
    requires |Varint(v)| <= limit
    ensures ReadVarint(Varint(v) + rest, limit) == Read(v, |Varint(v)|)
  {
    if v >= 128 {
      VarintRoundTrip(v / 128, rest, limit - 1);
      assert (Varint(v) + rest)[1..] == Varint(v / 128) + rest;
    }
  }

  function Pow128(k: nat): (p: nat)
    ensures p >= 1
  {
    if k == 0 then 1 else 128 * Pow128(k - 1)
  }

  /** The length of an encoding is the number of base-128 digits. */
  lemma {:induction false} VarintLength(v: nat, k: nat)
    requires k >= 1
    ensures |Varint(v)| <= k <==> v < Pow128(k)
  {
    if v >= 128 && k > 1 {
      VarintLength(v / 128, k - 1);
    } else if v < 128 {
      Pow128Monotone(1, k);
    }
  }

  lemma {:induction false} Pow128Monotone(j: nat, k: nat)
    requires j <= k
    ensures Pow128(j) <= Pow128(k)
  {
    if j < k {
      Pow128Monotone(j, k - 1);
    }
  }

  lemma Varint64Fits(v: uint64)
    ensures |Varint(v)| <= MAX_VARINT_BYTES
    ensures v < TWO_32 ==> |Varint(v)| <= 5
    ensures v < 128 ==> Varint(v) == [v as byte]
  {
    VarintLength(v, 10);
    VarintLength(v, 5);
    assert Pow128(5) == 0x8_0000_0000;
    assert Pow128(10) == Pow128(5) * 0x8_0000_0000 by {
      assert Pow128(6) == 0x400_0000_0000;
      assert Pow128(8) == 0x100_0000_0000_0000;
    }
  }

  lemma Regroup(d: nat, e: nat, a: nat, b: nat)
    ensures d * (e * a + b) == (d * e) * a + d * b
  {
    assert d * (e * a + b) == d * (e * a) + d * b;
    assert d * (e * a) == (d * e) * a;
  }

  lemma RemainderFits(d: nat, e: nat, b: nat, r: nat)
    requires b < e && r < d
    ensures d * b + r < d * e
  {
    assert d * b + d == d * (b + 1);
    assert d * (b + 1) <= d * e;
  }

  lemma MultipleIsFar(d: nat, x: int)
    ensures x >= 1 ==> d * x >= d
    ensures x <= -1 ==> d * x + d <= 0
  {
    if x >= 1 {
      assert d * x == d + d * (x - 1);
    } else {
      assert d * x == d * (x + 1) - d;
    }
  }

  lemma QuotientIs(v: nat, d: nat, q: nat, r: nat)
    requires v == d * q + r && r < d
    ensures v / d == q
  {
    var x := q - v / d;
    assert d * x == d * q - d * (v / d);
    MultipleIsFar(d, x);
  }

  lemma Digits(v: nat, d: nat, e: nat, q: nat, r: nat, a: nat, b: nat)
    requires v == d * q + r && r < d && q == e * a + b && b < e
    ensures v == (d * e) * a + (d * b + r) && d * b + r < d * e
  {
    Regroup(d, e, a, b);
    RemainderFits(d, e, b, r);
  }

  /** Dividing by d * e is dividing by d and then by e. */
  lemma DivideTwice(v: nat, d: nat, e: nat)
    requires d > 0 && e > 0
    ensures d * e > 0 && v / (d * e) == v / d / e
  {
    var q, r := v / d, v % d;
    var a, b := q / e, q % e;
    Digits(v, d, e, q, r, a, b);
    QuotientIs(v, d * e, a, d * b + r);
  }

  /** What a varint is: the value's digits to base 128, least first, every byte but the
      last with its high bit set. */
  lemma {:induction false} VarintDigits(v: nat, i: nat)
    requires i < |Varint(v)|
    ensures Varint(v)[i] as nat == v / Pow128(i) % 128 + if i < |Varint(v)| - 1 then 128 else 0
  {
    if i > 0 {
      VarintDigits(v / 128, i - 1);
      DivideTwice(v, 128, Pow128(i - 1));
    }
  }

  /** What is read: the digits that the low seven bits of the bytes are, up to the first
      byte whose high bit is clear. */
  lemma {:induction false} ReadVarintDigits(s: seq<byte>, limit: nat, i: nat)
    requires ReadVarint(s, limit).Read? && i < ReadVarint(s, limit).length
    ensures var r := ReadVarint(s, limit);
      && r.value < Pow128(r.length) && r.value / Pow128(i) % 128 == s[i] as nat % 128
      && (s[i] < 128 <==> i == r.length - 1)
  {
    var r := ReadVarint(s, limit);
    if s[0] >= 128 {
      var rest := ReadVarint(s[1..], limit - 1);
      ReadVarintDigits(s[1..], limit - 1, if i == 0 then 0 else i - 1);
      if i > 0 {
        DivideTwice(r.value, 128, Pow128(i - 1));
        assert r.value / 128 == rest.value;
      }
    }
  }

  /** A varint that is cut short is malformed. */
  lemma {:induction false} TruncatedVarint(v: nat, k: nat, limit: nat)
    requires k < |Varint(v)|
    ensures ReadVarint(Varint(v)[..k], limit).Malformed?
  {
    if k > 0 && limit > 0 {
      TruncatedVarint(v / 128, k - 1, limit - 1);
      assert Varint(v)[..k][1..] == Varint(v / 128)[..k - 1];
    }
  }

  /** A written varint of any width reads back, whatever follows it. */
  lemma VarintReadsBack(v: uint64, rest: seq<byte>)
    ensures ReadVarint(Varint(v) + rest, MAX_VARINT_BYTES) == Read(v, |Varint(v)|)
  {
    Varint64Fits(v);
    VarintRoundTrip(v, rest, MAX_VARINT_BYTES);
  }

  lemma Drop(a: seq<byte>, b: seq<byte>)
    ensures (a + b)[|a|..] == b
  {
  }

  /** An int32 goes on the wire as its 64-bit sign extension. */
  function SignExtend(v: int32): (u: uint64)
  {
    if v < 0 then v as int + TWO_64 else v as int
  }

  function ToInt32(v: uint32): (i: int32)
  {
    if v < 0x8000_0000 then v as int32 else (v - TWO_32) as int32
  }

  lemma SignExtendRoundTrip(v: int32)
    ensures ToInt32(Low32(SignExtend(v))) == v
  {
    if v < 0 {
      assert SignExtend(v) == (v as int + 0x1_0000_0000) + 0xFFFF_FFFF * 0x1_0000_0000;
    }
  }

  /** An int32 read from a varint of any size is the value modulo 2^32. */
  lemma Int32IsModulo(v: nat)
    ensures (v - ToInt32(Low32(v)) as int) % 0x1_0000_0000 == 0
  {
  }

  // ----- Sizes -------------------------------------------------------------

  /** floor(log2(v)), what Bits::Log2FloorNonZero returns. */
  function Log2Floor(v: nat): (l: nat)
    requires v > 0
  {
    if v == 1 then 0 else 1 + Log2Floor(v / 2)
  }

  lemma {:induction false} Log2Bounds(v: nat, k: nat)
    requires v > 0
    ensures Log2Floor(v) < k <==> v < Pow2(k)
  {
    if v > 1 && k > 0 {
      Log2Bounds(v / 2, k - 1);
    } else if v == 1 {
      if k > 0 { assert Pow2(k) == 2 * Pow2(k - 1); }
    }
  }

  /** `v | 1`, which the original takes so that zero has a logarithm. */
  function WithLowBit(v: nat): (w: nat)
  {
    if v % 2 == 0 then v + 1 else v
  }

  /** CodedOutputStream::VarintSize64: a multiplication and a shift in place of
      the division by seven. */
  function VarintSize(v: uint64): (n: nat)
  {
    (Log2Floor(WithLowBit(v)) * 9 + 73) / 64
  }

  lemma Pow2Plus7(j: nat)
    ensures Pow2(j + 7) == 128 * Pow2(j)
  {
    assert Pow2(j + 2) == 4 * Pow2(j);
    assert Pow2(j + 4) == 4 * Pow2(j + 2);
    assert Pow2(j + 6) == 4 * Pow2(j + 4);
  }

  lemma {:induction false} Pow2Is128(k: nat)
    ensures Pow2(7 * k) == Pow128(k)
  {
    if k > 0 {
      Pow2Is128(k - 1);
      Pow2Plus7(7 * (k - 1));
    }
  }

  /** The low bit does not matter, since 128^k is even. */
  lemma LowBitKeepsBelow(v: nat, k: nat)
    requires k > 0
    ensures WithLowBit(v) < Pow128(k) <==> v < Pow128(k)
  {
    assert Pow128(k) == 128 * Pow128(k - 1);
  }

  /** The length of a varint is the least k with v < 128^k. */
  lemma Log2OfVarint(v: uint64)
    ensures var n := |Varint(v)|; 7 * (n - 1) <= Log2Floor(WithLowBit(v)) < 7 * n
  {
    var n := |Varint(v)|;
    BelowPow128(v, n);
    if n > 1 { BelowPow128(v, n - 1); }
  }

  lemma BelowPow128(v: uint64, k: nat)
    requires k > 0
    ensures Log2Floor(WithLowBit(v)) < 7 * k <==> |Varint(v)| <= k
  {
    VarintLength(v, k);
    LowBitKeepsBelow(v, k);
    Pow2Is128(k);
    Log2Bounds(WithLowBit(v), 7 * k);
  }

  /** The shift-and-multiply size is the exact encoded length. */
  lemma VarintSizeIsLength(v: uint64)
    ensures VarintSize(v) == |Varint(v)|
  {
    Varint64Fits(v);
    Log2OfVarint(v);
    SizeOfLog2(Log2Floor(WithLowBit(v)), |Varint(v)|);
  }

  lemma SizeOfLog2(l: nat, n: nat)
    requires 1 <= n <= 10 && 7 * (n - 1) <= l < 7 * n
    ensures (l * 9 + 73) / 64 == n
  {
  }

  /** CodedOutputStream::VarintSize32SignExtended. */
  function Int32Size(v: int32): (n: nat)
  {
    if v < 0 then 10 else VarintSize(v as int)
  }

  lemma Int32SizeIsLength(v: int32)
    ensures Int32Size(v) == |Varint(SignExtend(v))|
  {
    VarintSizeIsLength(SignExtend(v));
    if v < 0 {
      VarintLength(SignExtend(v), 9);
      assert Pow128(8) == 0x100_0000_0000_0000 by {
        assert Pow128(4) == 0x1000_0000;
        assert Pow128(6) == 0x400_0000_0000;
      }
      Varint64Fits(SignExtend(v));
    }
  }

  // ----- Tags --------------------------------------------------------------

  const WIRETYPE_VARINT := 0
  const WIRETYPE_FIXED64 := 1
  const WIRETYPE_LENGTH_DELIMITED := 2
  const WIRETYPE_START_GROUP := 3
  const WIRETYPE_END_GROUP := 4
  const WIRETYPE_FIXED32 := 5

  function MakeTag(number: nat, wireType: nat): (t: uint32)
    requires number <= MAX_FIELD_NUMBER && wireType < 8
    ensures t / 8 == number && t % 8 == wireType
  {
    number * 8 + wireType
  }

  /** A tag and the unread bytes after it. Tag 0 means "no more fields": the end
      of the input, a literal zero tag, or a tag that is not a varint. */
  datatype TagRead = TagRead(tag: uint32, rest: seq<byte>)

  /** CodedInputStream::ReadTag on a flat buffer. A malformed tag leaves the
      position alone when ten bytes were in reach and otherwise drains the buffer. */
  function ReadTag(s: seq<byte>): (r: TagRead)
    ensures |r.rest| <= |s|
    ensures r.tag != 0 ==> |r.rest| < |s|
  {
    match ReadVarint(s, MAX_VARINT_BYTES)
    case Read(v, n) => TagRead(Low32(v), s[n..])
    case Malformed => TagRead(0, if |s| >= MAX_VARINT_BYTES then s else [])
  }

  lemma ReadTagOfVarint(tag: uint32, rest: seq<byte>)
    ensures ReadTag(Varint(tag) + rest) == TagRead(tag, rest)
  {
    VarintReadsBack(tag, rest);
    Drop(Varint(tag), rest);
  }

  lemma TruncatedTag(tag: uint32, k: nat)
    requires k < |Varint(tag)|
    ensures ReadTag(Varint(tag)[..k]).tag == 0
  {
    TruncatedVarint(tag, k, MAX_VARINT_BYTES);
  }

  // ----- Fixed-width words -------------------------------------------------

  function LittleEndian(v: nat, n: nat): (s: seq<byte>)
    ensures |s| == n
  {
    if n == 0 then [] else [(v % 256) as byte] + LittleEndian(v / 256, n - 1)
  }

  function FromLittleEndian(s: seq<byte>): nat
  {
    if s == [] then 0 else s[0] as nat + 256 * FromLittleEndian(s[1..])
  }

  function Pow256(k: nat): (p: nat)
    ensures p >= 1
  {
    if k == 0 then 1 else 256 * Pow256(k - 1)
  }

  lemma {:induction false} FromLittleEndianBound(s: seq<byte>)
    ensures FromLittleEndian(s) < Pow256(|s|)
  {
    if s != [] {
      FromLittleEndianBound(s[1..]);
    }
  }

  /** Fixed-width words, as ReadLittleEndian32 and ReadLittleEndian64 read them. */
  function Word32(s: seq<byte>): uint32
    requires |s| == 4
  {
    FromLittleEndianBound(s);
    WordBounds();
    FromLittleEndian(s)
  }

  function Word64(s: seq<byte>): uint64
    requires |s| == 8
  {
    FromLittleEndianBound(s);
    WordBounds();
    FromLittleEndian(s)
  }

  lemma WordBounds()
    ensures Pow256(4) == TWO_32 && Pow256(8) == TWO_64
  {
    assert Pow256(2) == 0x1_0000;
    assert Pow256(4) == TWO_32;
    assert Pow256(6) == 0x1_0000_0000_0000;
  }

  lemma {:induction false} LittleEndianRoundTrip(v: nat, n: nat)
    requires v < Pow256(n)
    ensures FromLittleEndian(LittleEndian(v, n)) == v
  {
    if n > 0 {
      LittleEndianRoundTrip(v / 256, n - 1);
      assert LittleEndian(v, n)[1..] == LittleEndian(v / 256, n - 1);
    }
  }

  /** Little endian: the digits to base 256, least first. */
  lemma {:induction false} LittleEndianDigits(v: nat, n: nat, i: nat)
    requires i < n
    ensures LittleEndian(v, n)[i] as nat == v / Pow256(i) % 256
  {
    if i > 0 {
      LittleEndianDigits(v / 256, n - 1, i - 1);
      DivideTwice(v, 256, Pow256(i - 1));
    }
  }
}
