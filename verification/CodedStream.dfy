/** The two ends of a flat buffer: a reader that advances through unread bytes,
    and writers that fill an array in place and return the position after the
    last byte written. */
module CodedStream {
  import opened WireFormat
  import opened UnknownFields

  // ----- Reading -----------------------------------------------------------

  /** An int32 field's value and the bytes after it. */
  datatype Int32Read = NoInt32 | Int32(value: int32, rest: seq<byte>)

  /** WireFormatLite::ReadPrimitive for TYPE_INT32: the low 32 bits, reinterpreted. */
  function ReadInt32(s: seq<byte>): (r: Int32Read)
    ensures r.Int32? ==> |r.rest| < |s|
  {
    match ReadVarint(s, MAX_VARINT_BYTES)
    case Malformed => NoInt32
    case Read(v, n) => Int32(ToInt32(Low32(v)), s[n..])
  }

  lemma ReadInt32RoundTrip(v: int32, rest: seq<byte>)
    ensures ReadInt32(Varint(SignExtend(v)) + rest) == Int32(v, rest)
  {
    VarintReadsBack(SignExtend(v), rest);
    SignExtendRoundTrip(v);
    Drop(Varint(SignExtend(v)), rest);
  }

  /** An int32 is read where an unknown varint would be skipped, and is its low 32 bits. */
  lemma SkippedInt32(s: seq<byte>, tag: uint32, budget: nat)
    requires tag % 8 == WIRETYPE_VARINT
    ensures var k := SkipField(s, tag, budget);
      if !k.ok then ReadInt32(s) == NoInt32
      else |k.fields| == 1 && k.fields[0].VarintField? && ReadInt32(s) == Int32(ToInt32(Low32(k.fields[0].varint)), k.rest)
  {
    match ReadVarint(s, MAX_VARINT_BYTES)
    case Malformed =>
    case Read(v, _) => LowTwice(v);
  }

  /** The elements of a packed field: varints until the bytes run out. */
  datatype Packed = Packed(ok: bool, values: seq<int32>)

  function ReadPackedValues(s: seq<byte>): (r: Packed)
    decreases |s|
  {
    if s == [] then Packed(true, [])
    else match ReadInt32(s)
      case NoInt32 => Packed(false, [])
      case Int32(v, rest) => var p := ReadPackedValues(rest); Packed(p.ok, [v] + p.values)
  }

  /** ReadPackedPrimitive: a size that fits an int, and then the elements inside
      it. A size past the end of the buffer is not an error: the limit that is
      pushed cannot move beyond the one already in force, the buffer's own end. */
  datatype PackedRead = NoSize | Elements(inside: seq<byte>, rest: seq<byte>)

  function ReadPackedSize(s: seq<byte>): (r: PackedRead)
    ensures r.Elements? ==> |r.rest| < |s|
  {
    match ReadVarint(s, MAX_VARINT_BYTES)
    case Malformed => NoSize
    case Read(v, n) =>
      var size := Low64(v);
      if size > INT_MAX then NoSize
      else if size > |s| - n then Elements(s[n..], [])
      else Elements(s[n..n + size], s[n + size..])
  }

  /** A reader over a flat buffer. `budget` is the recursion limit, 100 unless the
      caller changes it; the skipping methods pass down what is left of it. After a
      failed read the position is of no account: the parse has failed. */
  class CodedInputStream {
    var rest: seq<byte>
    var legitimateEnd: bool
    var lastTag: uint32
    const budget: nat

    constructor (bytes: seq<byte>, budget: nat)
      ensures rest == bytes && this.budget == budget && !legitimateEnd
    {
      this.rest, legitimateEnd, lastTag := bytes, false, 0;
      this.budget := budget;
    }

    // ----- Varints -----------------------------------------------------------

    /** ReadVarint64Slow, before the value is cut to 64 bits: bytes until one has its
        high bit clear. */
    method ReadVarintBytes() returns (ok: bool, value: nat)
      modifies this`rest
      ensures |rest| <= |old(rest)|
      ensures ok ==> ReadVarint(old(rest), MAX_VARINT_BYTES) == Read(value, |old(rest)| - |rest|)
      ensures ok ==> rest == old(rest)[|old(rest)| - |rest|..]
      ensures !ok ==> ReadVarint(old(rest), MAX_VARINT_BYTES).Malformed?
      ensures !ok && |old(rest)| < MAX_VARINT_BYTES ==> rest == []
    {
      value := 0;
      var count := 0;
      while true
        invariant 0 <= count <= MAX_VARINT_BYTES && count <= |old(rest)| && rest == old(rest)[count..]
        invariant ReadVarint(old(rest), MAX_VARINT_BYTES) == Shifted(ReadVarint(rest, MAX_VARINT_BYTES - count), value, count)
        decreases |rest|
      {
        if count == MAX_VARINT_BYTES || rest == [] { return false, 0; }
        ShiftedByte(rest, MAX_VARINT_BYTES - count, value, count);
        var b := rest[0];
        value := value + Placed(b, count);
        rest := rest[1..];
        count := count + 1;
        if b < 0x80 { return true, value; }
      }
    }

    method ReadVarint32() returns (ok: bool, value: uint32)
      modifies this`rest
      ensures |rest| <= |old(rest)|
      ensures match ReadVarint(old(rest), MAX_VARINT_BYTES)
              case Malformed => !ok
              case Read(v, n) => ok && value == Low32(v) && rest == old(rest)[n..]
    {
      var v;
      ok, v := ReadVarintBytes();
      value := Low32(v);
    }

    method ReadVarint64() returns (ok: bool, value: uint64)
      modifies this`rest
      ensures |rest| <= |old(rest)|
      ensures match ReadVarint(old(rest), MAX_VARINT_BYTES)
              case Malformed => !ok
              case Read(v, n) => ok && value == Low64(v) && rest == old(rest)[n..]
    {
      var v;
      ok, v := ReadVarintBytes();
      value := Low64(v);
    }

    method ReadVarintSizeAsInt() returns (ok: bool, size: nat)
      modifies this`rest
      ensures |rest| <= |old(rest)|
      ensures match ReadVarint(old(rest), MAX_VARINT_BYTES)
              case Malformed => !ok
              case Read(v, n) => ok == (Low64(v) <= INT_MAX) && size == Low64(v) && rest == old(rest)[n..]
    {
      ok, size := ReadVarint64();
      ok := ok && size <= INT_MAX;
    }

    // ----- Tags --------------------------------------------------------------

    method ReadTag() returns (tag: uint32)
      modifies this
      ensures TagRead(tag, rest) == WireFormat.ReadTag(old(rest)) && lastTag == tag
      ensures legitimateEnd == (old(legitimateEnd) || old(rest) == [])
    {
      if rest != [] && rest[0] < 0x80 {
        tag := rest[0] as uint32;
        rest := rest[1..];
      } else {
        tag := ReadTagFallback();
      }
      lastTag := tag;
    }

    /** ReadTagWithCutoffNoLastTag; `known` says whether the tag is at or below the
        cutoff. For a tag of zero in two bytes it may say yes. */
    method ReadTagWithCutoff(cutoff: uint32) returns (tag: uint32, known: bool)
      modifies this`rest, this`legitimateEnd
      ensures TagRead(tag, rest) == WireFormat.ReadTag(old(rest))
      ensures legitimateEnd == (old(legitimateEnd) || old(rest) == [])
      ensures tag != 0 ==> (known <==> tag <= cutoff)
      ensures tag == 0 && cutoff < 0x80 ==> !known
    {
      if rest != [] {
        if 0 < rest[0] < 0x80 {
          tag := rest[0] as uint32;
          rest := rest[1..];
          return tag, cutoff >= 0x7F || tag <= cutoff;
        }
        if cutoff >= 0x80 && |rest| > 1 && rest[0] >= 0x80 && rest[1] < 0x80 {
          TwoByteTag(rest);
          tag := 0x80 * rest[1] as int + (rest[0] as int - 0x80);
          rest := rest[2..];
          return tag, cutoff >= 0x3FFF || tag <= cutoff;
        }
      }
      tag := ReadTagFallback();
      known := (if tag == 0 then TWO_32 - 1 else tag - 1) < cutoff;
    }

    /** Whatever the fast paths leave: when a varint is sure to end inside the buffer,
        a malformed one leaves the position alone; otherwise it takes the bytes there
        are. */
    method ReadTagFallback() returns (tag: uint32)
      modifies this`rest, this`legitimateEnd
      ensures TagRead(tag, rest) == WireFormat.ReadTag(old(rest))
      ensures legitimateEnd == (old(legitimateEnd) || old(rest) == [])
    {
      var start := rest;
      if |rest| >= MAX_VARINT_BYTES || (rest != [] && rest[|rest| - 1] < 0x80) {
        if rest[0] == 0 {
          rest := rest[1..];
          return 0;
        }
        var ok, v := ReadVarint32();
        if !ok {
          rest := start;
          if |start| < MAX_VARINT_BYTES { EndedVarint(start, MAX_VARINT_BYTES); }
          return 0;
        }
        return v;
      }
      if rest == [] {
        legitimateEnd := true;
        return 0;
      }
      var ok, v := ReadVarintBytes();
      return if ok then Low32(v) else 0;
    }

    /** ExpectTag for a one-byte tag: consumes it if it comes next. */
    method ExpectTag(expected: uint32) returns (found: bool)
      requires expected < 128
      modifies this`rest
      ensures found <==> old(rest) != [] && old(rest)[0] as int == expected
      ensures rest == if found then old(rest)[1..] else old(rest)
    {
      found := rest != [] && rest[0] as int == expected;
      if found {
        rest := rest[1..];
      }
    }

    // ----- Values ------------------------------------------------------------

    method ReadInt32Value() returns (ok: bool, value: int32)
      modifies this`rest
      ensures |rest| <= |old(rest)|
      ensures ReadInt32(old(rest)) == if ok then Int32(value, rest) else NoInt32
    {
      var v;
      ok, v := ReadVarint32();
      value := ToInt32(v);
    }

    /** WireFormatLite::ReadBytes into a string that holds `before`: what the string
        holds afterwards, also when the read fails. */
    method ReadStringValue(before: seq<byte>) returns (ok: bool, contents: seq<byte>)
      modifies this`rest
      ensures |rest| <= |old(rest)|
      ensures var b := ReadBytes(old(rest));
              && ok == b.Bytes?
              && contents == (if b.Bytes? || b.Truncated? then b.data else before)
              && (ok ==> rest == b.rest)
    {
      var length;
      ok, length := ReadVarint32();
      if !ok { return false, before; }
      ok, contents := ReadString(before, length);
    }

    /** ReadString: `size` is a 32-bit length, negative as an int from 2^31 on. */
    method ReadString(before: seq<byte>, size: uint32) returns (ok: bool, contents: seq<byte>)
      modifies this`rest
      ensures ok <==> size <= INT_MAX && size <= |old(rest)|
      ensures contents == if size > INT_MAX then before else if size > |old(rest)| then old(rest) else old(rest)[..size]
      ensures rest == if size > INT_MAX then old(rest) else if size > |old(rest)| then [] else old(rest)[size..]
    {
      if size > INT_MAX { return false, before; }
      if size > |rest| {
        contents, rest := rest, [];
        return false, contents;
      }
      contents, rest := rest[..size], rest[size..];
      ok := true;
    }

    /** ReadLittleEndian32 and ReadLittleEndian64, the bytes of the word. */
    method ReadRaw(n: nat) returns (ok: bool, word: seq<byte>)
      modifies this`rest
      ensures ok <==> n <= |old(rest)|
      ensures if ok then word == old(rest)[..n] && rest == old(rest)[n..] else rest == old(rest)
    {
      if |rest| < n { return false, []; }
      word, rest := rest[..n], rest[n..];
      ok := true;
    }

    // ----- Skipping ----------------------------------------------------------

    /** WireFormat::SkipField, appending what it keeps to `unknown`. */
    method SkipUnknown(tag: uint32, unknown: seq<UnknownField>) returns (ok: bool, kept: seq<UnknownField>)
      modifies this
      ensures |rest| <= |old(rest)|
      ensures var k := SkipField(old(rest), tag, budget);
              ok == k.ok && kept == unknown + k.fields && (ok ==> rest == k.rest && legitimateEnd == old(legitimateEnd))
    {
      ok, kept := SkipFieldInto(tag, budget, unknown);
    }

    method SkipFieldInto(tag: uint32, depth: nat, unknown: seq<UnknownField>) returns (ok: bool, kept: seq<UnknownField>)
      modifies this
      ensures |rest| <= |old(rest)|
      ensures var k := SkipField(old(rest), tag, depth);
              ok == k.ok && kept == unknown + k.fields && (ok ==> rest == k.rest && legitimateEnd == old(legitimateEnd))
      decreases |rest|, depth, 1
    {
      match tag % 8 {
        case 0 => ok, kept := SkipVarint(tag, depth, unknown);
        case 1 => ok, kept := SkipFixed(tag, 8, depth, unknown);
        case 2 => ok, kept := SkipBytes(tag, depth, unknown);
        case 3 => ok, kept := SkipGroup(tag, depth, unknown);
        case 5 => ok, kept := SkipFixed(tag, 4, depth, unknown);
        case _ => ok, kept := false, unknown;
      }
    }

    method SkipVarint(tag: uint32, ghost depth: nat, unknown: seq<UnknownField>) returns (ok: bool, kept: seq<UnknownField>)
      requires tag % 8 == WIRETYPE_VARINT
      modifies this`rest
      ensures |rest| <= |old(rest)|
      ensures var k := SkipField(old(rest), tag, depth);
              ok == k.ok && kept == unknown + k.fields && (ok ==> rest == k.rest && legitimateEnd == old(legitimateEnd))
    {
      var value;
      ok, value := ReadVarint64();
      kept := if ok then unknown + [VarintField(tag / 8, value)] else unknown;
    }

    method SkipFixed(tag: uint32, n: nat, ghost depth: nat, unknown: seq<UnknownField>)
      returns (ok: bool, kept: seq<UnknownField>)
      requires (tag % 8 == WIRETYPE_FIXED32 && n == 4) || (tag % 8 == WIRETYPE_FIXED64 && n == 8)
      modifies this`rest
      ensures |rest| <= |old(rest)|
      ensures var k := SkipField(old(rest), tag, depth);
              ok == k.ok && kept == unknown + k.fields && (ok ==> rest == k.rest && legitimateEnd == old(legitimateEnd))
    {
      var word;
      ok, word := ReadRaw(n);
      if !ok { return false, unknown; }
      kept := unknown + [if n == 4 then Fixed32Field(tag / 8, Word32(word)) else Fixed64Field(tag / 8, Word64(word))];
    }

    /** A string cut short by the end of the bytes is kept all the same. */
    method SkipBytes(tag: uint32, ghost depth: nat, unknown: seq<UnknownField>) returns (ok: bool, kept: seq<UnknownField>)
      requires tag % 8 == WIRETYPE_LENGTH_DELIMITED
      modifies this`rest
      ensures |rest| <= |old(rest)|
      ensures var k := SkipField(old(rest), tag, depth);
              ok == k.ok && kept == unknown + k.fields && (ok ==> rest == k.rest && legitimateEnd == old(legitimateEnd))
    {
      var length, data;
      ok, length := ReadVarint32();
      if !ok { return false, unknown; }
      SliceOfRest(old(rest), |old(rest)| - |rest|, length);
      ok, data := ReadString([], length);
      kept := unknown + [BytesField(tag / 8, data)];
    }

    method SkipGroup(tag: uint32, depth: nat, unknown: seq<UnknownField>) returns (ok: bool, kept: seq<UnknownField>)
      requires tag % 8 == WIRETYPE_START_GROUP
      modifies this
      ensures |rest| <= |old(rest)|
      ensures var k := SkipField(old(rest), tag, depth);
              ok == k.ok && kept == unknown + k.fields && (ok ==> rest == k.rest && legitimateEnd == old(legitimateEnd))
      decreases |rest|, depth, 0
    {
      if depth == 0 { return false, unknown; }
      var fields;
      ok, fields := SkipMessageInto(depth - 1);
      ok := ok && lastTag == MakeTag(tag / 8, WIRETYPE_END_GROUP);
      kept := unknown + [GroupField(tag / 8, fields)];
    }

    /** WireFormat::SkipMessage: what it keeps of the fields of one group. */
    method SkipMessageInto(depth: nat) returns (ok: bool, kept: seq<UnknownField>)
      modifies this
      ensures |rest| <= |old(rest)|
      ensures var m := SkipMessage(old(rest), depth);
              ok == m.ok && kept == m.fields && (ok ==> rest == m.rest && lastTag == m.lastTag)
      ensures ok && lastTag != 0 ==> legitimateEnd == old(legitimateEnd)
      decreases |rest|, depth, 2
    {
      kept := [];
      while true
        invariant |rest| <= |old(rest)| && legitimateEnd == old(legitimateEnd)
        invariant SkipMessage(old(rest), depth) == Prefixed(kept, SkipMessage(rest, depth))
        decreases |rest|
      {
        ghost var start := rest;
        var tag := ReadTag();
        SkipMessageTurn(kept, start, tag, rest, depth);
        if tag == 0 || tag % 8 == WIRETYPE_END_GROUP { return true, kept; }
        ok, kept := SkipFieldInto(tag, depth, kept);
        if !ok { return; }
      }
    }
  }

  function Prefixed(kept: seq<UnknownField>, m: Skip): Skip
  {
    m.(fields := kept + m.fields)
  }

  /** One turn of SkipMessage's loop. */
  lemma SkipMessageTurn(kept: seq<UnknownField>, s: seq<byte>, tag: uint32, body: seq<byte>, depth: nat)
    requires WireFormat.ReadTag(s) == TagRead(tag, body)
    ensures Prefixed(kept, SkipMessage(s, depth))
         == if tag == 0 || tag % 8 == WIRETYPE_END_GROUP then Skip(true, kept, body, tag)
            else
              var f := SkipField(body, tag, depth);
              if f.ok then Prefixed(kept + f.fields, SkipMessage(f.rest, depth)) else Skip(false, kept + f.fields, f.rest, 0)
  {
    if tag == 0 || tag % 8 == WIRETYPE_END_GROUP {
      assert kept + [] == kept;
    } else {
      var f := SkipField(body, tag, depth);
      if f.ok {
        var m := SkipMessage(f.rest, depth);
        assert kept + (f.fields + m.fields) == (kept + f.fields) + m.fields;
      }
    }
  }

  lemma SliceOfRest(s: seq<byte>, n: nat, k: nat)
    ensures n + k <= |s| ==> s[n..][..k] == s[n..n + k] && s[n..][k..] == s[n + k..]
  {
  }

  /** The low seven bits of the byte, shifted left by `count` times seven. */
  function Placed(b: byte, count: nat): nat
  {
    Pow128(count) * (b % 0x80) as nat
  }

  /** A varint whose first `count` bytes came to `value`. */
  function Shifted(r: VarintRead, value: nat, count: nat): VarintRead
  {
    match r
    case Malformed => Malformed
    case Read(v, n) => Read(value + Pow128(count) * v, count + n)
  }

  lemma ShiftedByte(s: seq<byte>, limit: nat, value: nat, count: nat)
    requires s != [] && limit > 0
    ensures Shifted(ReadVarint(s, limit), value, count)
         == if s[0] < 0x80 then Read(value + Placed(s[0], count), count + 1)
            else Shifted(ReadVarint(s[1..], limit - 1), value + Placed(s[0], count), count + 1)
  {
    if s[0] >= 0x80 && ReadVarint(s[1..], limit - 1).Read? {
      ShiftedSum(Pow128(count), (s[0] % 0x80) as nat, ReadVarint(s[1..], limit - 1).value);
    }
  }

  lemma ShiftedSum(p: nat, low: nat, high: nat)
    ensures p * (low + 128 * high) == p * low + (128 * p) * high
  {
  }

  lemma TwoByteTag(s: seq<byte>)
    requires |s| > 1 && s[0] >= 0x80 && s[1] < 0x80
    ensures ReadVarint(s, MAX_VARINT_BYTES) == Read(0x80 * s[1] as int + (s[0] as int - 0x80), 2)
  {
    assert ReadVarint(s[1..], MAX_VARINT_BYTES - 1) == Read(s[1] as nat, 1);
  }

  /** Bytes that end a varint make any varint before them end. */
  lemma {:induction false} EndedVarint(s: seq<byte>, limit: nat)
    requires s != [] && s[|s| - 1] < 0x80 && ReadVarint(s, limit).Malformed?
    ensures |s| > limit
  {
    if limit > 0 { EndedVarint(s[1..], limit - 1); }
  }

  /** One turn of a generated parse loop, and the whole loop. Reading a tag of zero
      finishes; `atEnd` says whether that was the legitimate end of the input. */
  datatype Step<V> = Next(msg: V, rest: seq<byte>) | Finished(msg: V, rest: seq<byte>, atEnd: bool) | Failed(msg: V)
  datatype Parse<V> = Parsed(msg: V, rest: seq<byte>, atEnd: bool) | ParseError(msg: V)

  // ----- Writing to a stream -----------------------------------------------

  function Int32FieldBytes(number: nat, v: int32): (s: seq<byte>)
    requires number <= MAX_FIELD_NUMBER
  {
    Varint(MakeTag(number, WIRETYPE_VARINT)) + Varint(SignExtend(v))
  }

  function StringFieldBytes(number: nat, data: seq<byte>): (s: seq<byte>)
    requires number <= MAX_FIELD_NUMBER && |data| <= INT_MAX
  {
    Varint(MakeTag(number, WIRETYPE_LENGTH_DELIMITED)) + (Varint(|data|) + data)
  }

  class CodedOutputStream {
    var written: seq<byte>

    constructor ()
      ensures written == []
    {
      written := [];
    }

    method WriteInt32(number: nat, v: int32)
      requires number <= MAX_FIELD_NUMBER
      modifies this
      ensures written == old(written) + Int32FieldBytes(number, v)
    {
      written := written + Varint(MakeTag(number, WIRETYPE_VARINT));
      Assoc(old(written), Varint(MakeTag(number, WIRETYPE_VARINT)), Varint(SignExtend(v)));
      written := written + Varint(SignExtend(v));
    }

    method WriteString(number: nat, data: seq<byte>)
      requires number <= MAX_FIELD_NUMBER && |data| <= INT_MAX
      modifies this
      ensures written == old(written) + StringFieldBytes(number, data)
    {
      ghost var tag := Varint(MakeTag(number, WIRETYPE_LENGTH_DELIMITED));
      written := written + Varint(MakeTag(number, WIRETYPE_LENGTH_DELIMITED));
      Assoc(old(written), tag, Varint(|data|) + data);
      Assoc(written, Varint(|data|), data);
      written := written + Varint(|data|);
      written := written + data;
    }

    /** WireFormat::SerializeUnknownFields. */
    method WriteUnknownFields(fs: seq<UnknownField>)
      requires Serializable(fs)
      modifies this
      ensures written == old(written) + SetBytes(fs)
      decreases fs, 3
    {
      var i := 0;
      assert fs[0..] == fs;
      while i < |fs|
        invariant 0 <= i <= |fs|
        invariant Serializable(fs[i..])
        invariant written + SetBytes(fs[i..]) == old(written) + SetBytes(fs)
      {
        NextField(written, fs, i);
        WriteUnknownField(fs[i]);
        i := i + 1;
      }
      assert written + [] == written;
    }

    method WriteUnknownField(f: UnknownField)
      requires SerializableField(f)
      modifies this
      ensures written == old(written) + FieldBytes(f)
      decreases f, 2
    {
      Assoc(written, Varint(f.Tag()), FieldBody(f));
      written := written + Varint(f.Tag());
      match f {
        case VarintField(_, v) =>
          written := written + Varint(v);
        case Fixed32Field(_, v) =>
          written := written + LittleEndian(v, 4);
        case Fixed64Field(_, v) =>
          written := written + LittleEndian(v, 8);
        case BytesField(_, d) =>
          Assoc(written, Varint(|d|), d);
          written := written + Varint(|d|);
          written := written + d;
        case GroupField(n, fs) =>
          Assoc(written, SetBytes(fs), Varint(MakeTag(n, WIRETYPE_END_GROUP)));
          WriteUnknownFields(fs);
          written := written + Varint(MakeTag(n, WIRETYPE_END_GROUP));
      }
    }
  }

  lemma NextField(before: seq<byte>, fs: seq<UnknownField>, i: nat)
    requires i < |fs| && Serializable(fs[i..])
    ensures SerializableField(fs[i]) && Serializable(fs[i + 1..])
    ensures before + SetBytes(fs[i..]) == (before + FieldBytes(fs[i])) + SetBytes(fs[i + 1..])
  {
    assert fs[i..][0] == fs[i] && fs[i..][1..] == fs[i + 1..];
    Assoc(before, FieldBytes(fs[i]), SetBytes(fs[i + 1..]));
  }

  // ----- Writing into an array ---------------------------------------------

  /** `before` after writing `bytes` from `pos` on, one byte after the other. */
  ghost function Splice(before: seq<byte>, pos: nat, bytes: seq<byte>): (after: seq<byte>)
    requires pos + |bytes| <= |before|
    ensures |after| == |before|
    decreases |bytes|
  {
    if bytes == [] then before else Splice(before[pos := bytes[0]], pos + 1, bytes[1..])
  }

  /** What a splice means: the bytes are in place and everything else is untouched. */
  lemma {:induction false} SpliceMeaning(before: seq<byte>, pos: nat, bytes: seq<byte>)
    requires pos + |bytes| <= |before|
    ensures Splice(before, pos, bytes) == before[..pos] + bytes + before[pos + |bytes|..]
    decreases |bytes|
  {
    if bytes != [] {
      var next := before[pos := bytes[0]];
      SpliceMeaning(next, pos + 1, bytes[1..]);
      assert next[..pos + 1] == before[..pos] + [bytes[0]];
      assert [bytes[0]] + bytes[1..] == bytes;
    }
  }

  lemma {:induction false} SpliceTwice(before: seq<byte>, pos: nat, x: seq<byte>, y: seq<byte>)
    requires pos + |x| + |y| <= |before|
    ensures Splice(Splice(before, pos, x), pos + |x|, y) == Splice(before, pos, x + y)
    decreases |x|
  {
    if x == [] {
      assert x + y == y;
    } else {
      SpliceTwice(before[pos := x[0]], pos + 1, x[1..], y);
      assert (x + y)[1..] == x[1..] + y;
    }
  }

  lemma SpliceThree(before: seq<byte>, pos: nat, a: seq<byte>, b: seq<byte>, c: seq<byte>)
    requires pos + |a| + |b| + |c| <= |before|
    ensures Splice(before, pos, a + (b + c))
         == Splice(Splice(Splice(before, pos, a), pos + |a|, b), pos + |a| + |b|, c)
  {
    SpliceTwice(before, pos, a, b + c);
    SpliceTwice(Splice(before, pos, a), pos + |a|, b, c);
  }
  /** Writing one byte in place is a splice of that byte. */
  method PutByte(a: array<byte>, pos: nat, b: byte)
    requires pos < a.Length
    modifies a
    ensures a[..] == Splice(old(a[..]), pos, [b])
  {
    a[pos] := b;
  }

  /** CodedOutputStream::WriteVarint32ToArray and WriteVarint64ToArray. */
  method WriteVarintToArray(v: uint64, a: array<byte>, target: nat) returns (end: nat)
    requires target + |Varint(v)| <= a.Length
    modifies a
    ensures end == target + |Varint(v)|
    ensures a[..] == Splice(old(a[..]), target, Varint(v))
  {
    ghost var after := Splice(a[..], target, Varint(v));
    var value: nat := v;
    end := target;
    while value >= 0x80
      invariant end + |Varint(value)| == target + |Varint(v)|
      invariant Splice(a[..], end, Varint(value)) == after
    {
      SpliceTwice(a[..], end, [(128 + value % 128) as byte], Varint(value / 128));
      PutByte(a, end, (128 + value % 128) as byte);
      value := value / 128;
      end := end + 1;
    }
    PutByte(a, end, value as byte);
    end := end + 1;
  }

  /** WriteRawToArray. */
  method WriteRawToArray(bytes: seq<byte>, a: array<byte>, target: nat) returns (end: nat)
    requires target + |bytes| <= a.Length
    modifies a
    ensures end == target + |bytes|
    ensures a[..] == Splice(old(a[..]), target, bytes)
  {
    ghost var after := Splice(a[..], target, bytes);
    var i := 0;
    assert bytes[0..] == bytes;
    while i < |bytes|
      invariant 0 <= i <= |bytes|
      invariant Splice(a[..], target + i, bytes[i..]) == after
    {
      assert [bytes[i]] + bytes[i + 1..] == bytes[i..];
      SpliceTwice(a[..], target + i, [bytes[i]], bytes[i + 1..]);
      PutByte(a, target + i, bytes[i]);
      i := i + 1;
    }
    end := target + |bytes|;
  }

  /** WireFormatLite::WriteInt32ToArray. */
  method WriteInt32ToArray(number: nat, v: int32, a: array<byte>, target: nat) returns (end: nat)
    requires number <= MAX_FIELD_NUMBER
    requires target + |Int32FieldBytes(number, v)| <= a.Length
    modifies a
    ensures end == target + |Int32FieldBytes(number, v)|
    ensures a[..] == Splice(old(a[..]), target, Int32FieldBytes(number, v))
  {
    end := WriteVarintToArray(MakeTag(number, WIRETYPE_VARINT), a, target);
    end := WriteVarintToArray(SignExtend(v), a, end);
    SpliceTwice(old(a[..]), target, Varint(MakeTag(number, WIRETYPE_VARINT)), Varint(SignExtend(v)));
  }

  /** WireFormatLite::WriteStringToArray. */
  method WriteStringToArray(number: nat, data: seq<byte>, a: array<byte>, target: nat) returns (end: nat)
    requires number <= MAX_FIELD_NUMBER && |data| <= INT_MAX
    requires target + |StringFieldBytes(number, data)| <= a.Length
    modifies a
    ensures end == target + |StringFieldBytes(number, data)|
    ensures a[..] == Splice(old(a[..]), target, StringFieldBytes(number, data))
  {
    end := WriteVarintToArray(MakeTag(number, WIRETYPE_LENGTH_DELIMITED), a, target);
    end := WriteStringWithSizeToArray(data, a, end);
    SpliceTwice(old(a[..]), target, Varint(MakeTag(number, WIRETYPE_LENGTH_DELIMITED)), Varint(|data|) + data);
  }

  /** CodedOutputStream::WriteStringWithSizeToArray. */
  method WriteStringWithSizeToArray(data: seq<byte>, a: array<byte>, target: nat) returns (end: nat)
    requires |data| <= INT_MAX
    requires target + |Varint(|data|)| + |data| <= a.Length
    modifies a
    ensures end == target + |Varint(|data|)| + |data|
    ensures a[..] == Splice(old(a[..]), target, Varint(|data|) + data)
  {
    end := WriteVarintToArray(|data|, a, target);
    end := WriteRawToArray(data, a, end);
    SpliceTwice(old(a[..]), target, Varint(|data|), data);
  }

  /** WireFormat::SerializeUnknownFieldsToArray. */
  method SerializeUnknownToArray(fs: seq<UnknownField>, a: array<byte>, target: nat) returns (end: nat)
    requires Serializable(fs)
    requires target + |SetBytes(fs)| <= a.Length
    modifies a
    ensures end == target + |SetBytes(fs)|
    ensures a[..] == Splice(old(a[..]), target, SetBytes(fs))
    decreases fs, 3
  {
    ghost var after := Splice(a[..], target, SetBytes(fs));
    end := target;
    var i := 0;
    assert fs[0..] == fs;
    while i < |fs|
      invariant 0 <= i <= |fs|
      invariant Serializable(fs[i..])
      invariant end + |SetBytes(fs[i..])| == target + |SetBytes(fs)|
      invariant Splice(a[..], end, SetBytes(fs[i..])) == after
    {
      SpliceField(a[..], end, fs, i);
      end := SerializeFieldToArray(fs[i], a, end);
      i := i + 1;
    }
  }

  lemma SpliceField(before: seq<byte>, end: nat, fs: seq<UnknownField>, i: nat)
    requires i < |fs| && Serializable(fs[i..])
    requires end + |SetBytes(fs[i..])| <= |before|
    ensures SerializableField(fs[i]) && Serializable(fs[i + 1..])
    ensures |SetBytes(fs[i..])| == |FieldBytes(fs[i])| + |SetBytes(fs[i + 1..])|
    ensures Splice(before, end, SetBytes(fs[i..]))
         == Splice(Splice(before, end, FieldBytes(fs[i])), end + |FieldBytes(fs[i])|, SetBytes(fs[i + 1..]))
  {
    assert fs[i..][0] == fs[i] && fs[i..][1..] == fs[i + 1..];
    SpliceTwice(before, end, FieldBytes(fs[i]), SetBytes(fs[i + 1..]));
  }

  method SerializeFieldToArray(f: UnknownField, a: array<byte>, target: nat) returns (end: nat)
    requires SerializableField(f)
    requires target + |FieldBytes(f)| <= a.Length
    modifies a
    ensures end == target + |FieldBytes(f)|
    ensures a[..] == Splice(old(a[..]), target, FieldBytes(f))
    decreases f, 2
  {
    end := WriteVarintToArray(f.Tag(), a, target);
    end := SerializeBodyToArray(f, a, end);
    SpliceTwice(old(a[..]), target, Varint(f.Tag()), FieldBody(f));
  }

  method SerializeBodyToArray(f: UnknownField, a: array<byte>, target: nat) returns (end: nat)
    requires SerializableField(f)
    requires target + |FieldBody(f)| <= a.Length
    modifies a
    ensures end == target + |FieldBody(f)|
    ensures a[..] == Splice(old(a[..]), target, FieldBody(f))
    decreases f, 0
  {
    match f {
      case VarintField(_, v) =>
        end := WriteVarintToArray(v, a, target);
      case Fixed32Field(_, v) =>
        end := WriteRawToArray(LittleEndian(v, 4), a, target);
      case Fixed64Field(_, v) =>
        end := WriteRawToArray(LittleEndian(v, 8), a, target);
      case BytesField(_, d) =>
        end := WriteStringWithSizeToArray(d, a, target);
      case GroupField(n, fs) =>
        end := SerializeUnknownToArray(fs, a, target);
        end := WriteVarintToArray(MakeTag(n, WIRETYPE_END_GROUP), a, end);
        SpliceTwice(old(a[..]), target, SetBytes(fs), Varint(MakeTag(n, WIRETYPE_END_GROUP)));
    }
  }
}
