/** The unknown-field set: what the parse loop keeps of fields it does not
    declare, and how WireFormat skips, writes and measures them. */
module UnknownFields {
  import opened WireFormat

  datatype UnknownField =
    | VarintField(number: nat, varint: uint64)
    | Fixed32Field(number: nat, fixed32: uint32)
    | Fixed64Field(number: nat, fixed64: uint64)
    | BytesField(number: nat, data: seq<byte>)
    | GroupField(number: nat, fields: seq<UnknownField>)
  {
    function WireType(): (t: nat)
      ensures t < 8
    {
      match this
      case VarintField(_, _) => WIRETYPE_VARINT
      case Fixed32Field(_, _) => WIRETYPE_FIXED32
      case Fixed64Field(_, _) => WIRETYPE_FIXED64
      case BytesField(_, _) => WIRETYPE_LENGTH_DELIMITED
      case GroupField(_, _) => WIRETYPE_START_GROUP
    }

    function Tag(): (t: uint32)
      requires number <= MAX_FIELD_NUMBER
    {
      MakeTag(number, WireType())
    }
  }

  // ----- What parsing can produce ------------------------------------------

  /** The fields a reader with `budget` levels of group nesting left can have
      produced: numbers that fit a tag, lengths that fit an int, no field whose
      tag would read as the end of input, and no deeper groups than allowed. */
  ghost predicate WellFormedField(f: UnknownField, budget: nat)
    decreases f, 0
  {
    && f.number <= MAX_FIELD_NUMBER
    && match f
       case VarintField(n, _) => n != 0
       case BytesField(_, d) => |d| <= INT_MAX
       case GroupField(_, fs) => budget > 0 && WellFormed(fs, budget - 1)
       case _ => true
  }

  ghost predicate WellFormed(fs: seq<UnknownField>, budget: nat)
    decreases fs, 1
  {
    forall f :: f in fs ==> WellFormedField(f, budget)
  }

  /** The unknown fields a parse can have kept: well formed, and of no tag that the
      parse loop would have taken for a field of its own. */
  ghost predicate Unclaimed(fs: seq<UnknownField>, budget: nat, known: uint32 -> bool)
  {
    WellFormed(fs, budget) && forall f :: f in fs ==> f.number <= MAX_FIELD_NUMBER && !known(f.Tag())
  }

  lemma UnclaimedParts(fs: seq<UnknownField>, budget: nat, known: uint32 -> bool)
    requires Unclaimed(fs, budget, known) && fs != []
    ensures WellFormedField(fs[0], budget) && !known(fs[0].Tag())
    ensures Unclaimed(fs[1..], budget, known)
  {
    assert fs[0] in fs;
  }

  // ----- Serializing -------------------------------------------------------

  /** What the writers demand of a field: a number that fits a tag and a length
      that fits an int, at every depth. */
  predicate SerializableField(f: UnknownField)
    decreases f, 0
  {
    && f.number <= MAX_FIELD_NUMBER
    && (f.BytesField? ==> |f.data| <= INT_MAX)
    && (f.GroupField? ==> Serializable(f.fields))
  }

  predicate Serializable(fs: seq<UnknownField>)
    decreases fs, 1
  {
    fs == [] || (SerializableField(fs[0]) && Serializable(fs[1..]))
  }

  /** One turn of WireFormat::SerializeUnknownFields: the tag, then the body. */
  function FieldBytes(f: UnknownField): (s: seq<byte>)
    requires SerializableField(f)
    decreases f, 1
  {
    Varint(f.Tag()) + FieldBody(f)
  }

  function FieldBody(f: UnknownField): (s: seq<byte>)
    requires SerializableField(f)
    decreases f, 0
  {
    match f
    case VarintField(_, v) => Varint(v)
    case Fixed32Field(_, v) => LittleEndian(v, 4)
    case Fixed64Field(_, v) => LittleEndian(v, 8)
    case BytesField(_, d) => Varint(|d|) + d
    case GroupField(n, fs) => SetBytes(fs) + Varint(MakeTag(n, WIRETYPE_END_GROUP))
  }

  function SetBytes(fs: seq<UnknownField>): (s: seq<byte>)
    requires Serializable(fs)
    decreases fs, 2
  {
    if fs == [] then [] else FieldBytes(fs[0]) + SetBytes(fs[1..])
  }

  lemma {:induction false} WellFormedIsSerializable(fs: seq<UnknownField>, budget: nat)
    requires WellFormed(fs, budget)
    ensures Serializable(fs)
    decreases fs
  {
    if fs != [] {
      assert fs[0] in fs;
      assert WellFormedField(fs[0], budget);
      if fs[0].GroupField? {
        WellFormedIsSerializable(fs[0].fields, budget - 1);
      }
      WellFormedIsSerializable(fs[1..], budget);
    }
  }

  // ----- Sizes -------------------------------------------------------------

  /** WireFormat::ComputeUnknownFieldsSize. */
  function FieldSize(f: UnknownField): (n: nat)
    requires SerializableField(f)
    decreases f, 0
  {
    match f
    case VarintField(_, v) => VarintSize(f.Tag()) + VarintSize(v)
    case Fixed32Field(_, _) => VarintSize(f.Tag()) + 4
    case Fixed64Field(_, _) => VarintSize(f.Tag()) + 8
    case BytesField(_, d) => VarintSize(f.Tag()) + VarintSize(|d|) + |d|
    case GroupField(n, fs) =>
      VarintSize(f.Tag()) + SetSize(fs) + VarintSize(MakeTag(n, WIRETYPE_END_GROUP))
  }

  function SetSize(fs: seq<UnknownField>): (n: nat)
    requires Serializable(fs)
    decreases fs, 1
  {
    if fs == [] then 0
    else FieldSize(fs[0]) + SetSize(fs[1..])
  }

  lemma {:induction false} FieldSizeIsLength(f: UnknownField)
    requires SerializableField(f)
    ensures FieldSize(f) == |FieldBytes(f)|
    decreases f, 0
  {
    VarintSizeIsLength(f.Tag());
    match f {
      case VarintField(_, v) => VarintSizeIsLength(v);
      case BytesField(_, d) => VarintSizeIsLength(|d|);
      case GroupField(n, g) =>
        VarintSizeIsLength(MakeTag(n, WIRETYPE_END_GROUP));
        SetSizeIsLength(g);
      case _ =>
    }
  }

  /** The size computed before writing is the number of bytes written. */
  lemma {:induction false} SetSizeIsLength(fs: seq<UnknownField>)
    requires Serializable(fs)
    ensures SetSize(fs) == |SetBytes(fs)|
    decreases fs, 1
  {
    if fs != [] {
      FieldSizeIsLength(fs[0]);
      SetSizeIsLength(fs[1..]);
    }
  }

  lemma {:induction false} SerializableAppend(a: seq<UnknownField>, b: seq<UnknownField>)
    requires Serializable(a) && Serializable(b)
    ensures Serializable(a + b)
    decreases |a|
  {
    if a == [] {
      assert a + b == b;
    } else {
      SerializableAppend(a[1..], b);
      assert (a + b)[1..] == a[1..] + b;
    }
  }

  // ----- Skipping ----------------------------------------------------------

  /** What a skip left behind. A failing skip may still have added a field: its
      partial contents stay in the set, as in the original. `lastTag` is the tag
      that ended a SkipMessage. */
  datatype Skip = Skip(ok: bool, fields: seq<UnknownField>, rest: seq<byte>, lastTag: uint32)

  /** The string part of a length-delimited field: reads a 32-bit length and then
      that many bytes; a length beyond INT_MAX reads as negative and is refused
      before the string is touched, and a length past the end of the buffer
      leaves all the bytes there were. */
  datatype BytesRead = NoLength | Refused | Truncated(data: seq<byte>) | Bytes(data: seq<byte>, rest: seq<byte>)

  function ReadBytes(s: seq<byte>): (r: BytesRead)
    ensures r.Bytes? ==> |r.rest| < |s|
  {
    match ReadVarint(s, MAX_VARINT_BYTES)
    case Malformed => NoLength
    case Read(v, n) =>
      var length := Low32(v);
      if length > INT_MAX then Refused
      else if length > |s| - n then Truncated(s[n..])
      else Bytes(s[n..n + length], s[n + length..])
  }

  lemma ReadBytesRoundTrip(d: seq<byte>, rest: seq<byte>)
    requires |d| <= INT_MAX
    ensures ReadBytes(Varint(|d|) + (d + rest)) == Bytes(d, rest)
  {
    VarintReadsBack(|d|, d + rest);
    ReadBytesOf(Varint(|d|), d, rest);
  }

  lemma ReadBytesOf(p: seq<byte>, d: seq<byte>, rest: seq<byte>)
    requires |d| <= INT_MAX
    requires ReadVarint(p + (d + rest), MAX_VARINT_BYTES) == Read(|d|, |p|)
    ensures ReadBytes(p + (d + rest)) == Bytes(d, rest)
  {
    SplitAt(p, d, rest);
  }

  lemma SplitAt(a: seq<byte>, b: seq<byte>, c: seq<byte>)
    ensures (a + (b + c))[|a|..|a| + |b|] == b
    ensures (a + (b + c))[|a| + |b|..] == c
  {
  }

  /** WireFormat::SkipField, called after `tag` was read. */
  function SkipField(s: seq<byte>, tag: uint32, budget: nat): (r: Skip)
    ensures |r.rest| <= |s|
    decreases |s|, budget, 0
  {
    var number := tag / 8;
    var wireType := tag % 8;
    if wireType == WIRETYPE_VARINT then
      match ReadVarint(s, MAX_VARINT_BYTES) {
        case Malformed => Skip(false, [], [], 0)
        case Read(v, n) => Skip(true, [VarintField(number, Low64(v))], s[n..], 0)
      }
    else if wireType == WIRETYPE_FIXED64 then
      if |s| < 8 then Skip(false, [], [], 0)
      else Skip(true, [Fixed64Field(number, Word64(s[..8]))], s[8..], 0)
    else if wireType == WIRETYPE_LENGTH_DELIMITED then
      match ReadBytes(s) {
        case NoLength => Skip(false, [], [], 0)
        case Refused => Skip(false, [BytesField(number, [])], [], 0)
        case Truncated(d) => Skip(false, [BytesField(number, d)], [], 0)
        case Bytes(d, rest) => Skip(true, [BytesField(number, d)], rest, 0)
      }
    else if wireType == WIRETYPE_START_GROUP then
      if budget == 0 then Skip(false, [], [], 0)
      else
        var m := SkipMessage(s, budget - 1);
        Skip(m.ok && m.lastTag == MakeTag(number, WIRETYPE_END_GROUP), [GroupField(number, m.fields)], m.rest, 0)
    else if wireType == WIRETYPE_FIXED32 then
      if |s| < 4 then Skip(false, [], [], 0)
      else Skip(true, [Fixed32Field(number, Word32(s[..4]))], s[4..], 0)
    else Skip(false, [], [], 0)
  }

  /** WireFormat::SkipMessage: fields up to the end of input or an end-group tag. */
  function SkipMessage(s: seq<byte>, budget: nat): (r: Skip)
    ensures |r.rest| <= |s|
    decreases |s|, budget, 1
  {
    var t := ReadTag(s);
    if t.tag == 0 || t.tag % 8 == WIRETYPE_END_GROUP then Skip(true, [], t.rest, t.tag)
    else
      var f := SkipField(t.rest, t.tag, budget);
      if !f.ok then Skip(false, f.fields, f.rest, 0)
      else
        var m := SkipMessage(f.rest, budget);
        m.(fields := f.fields + m.fields)
  }

  // ----- Round trips -------------------------------------------------------

  /** Skipping a written field gives it back, whatever follows. */
  lemma {:induction false} SkipFieldRoundTrip(f: UnknownField, rest: seq<byte>, budget: nat)
    requires WellFormedField(f, budget)
    ensures SerializableField(f)
    ensures f.Tag() != 0 && f.Tag() % 8 != WIRETYPE_END_GROUP
    ensures SkipField(FieldBody(f) + rest, f.Tag(), budget) == Skip(true, [f], rest, 0)
    decreases f, 0
  {
    match f {
      case VarintField(_, _) => SkipVarintRoundTrip(f, rest, budget);
      case Fixed32Field(_, _) => SkipFixedRoundTrip(f, rest, budget);
      case Fixed64Field(_, _) => SkipFixedRoundTrip(f, rest, budget);
      case BytesField(_, _) => SkipBytesRoundTrip(f, rest, budget);
      case GroupField(n, fs) =>
        WellFormedIsSerializable(fs, budget - 1);
        SkipMessageRoundTrip(fs, MakeTag(n, WIRETYPE_END_GROUP), rest, budget - 1);
        Assoc(SetBytes(fs), Varint(MakeTag(n, WIRETYPE_END_GROUP)), rest);
    }
  }

  lemma SkipVarintRoundTrip(f: UnknownField, rest: seq<byte>, budget: nat)
    requires f.VarintField? && SerializableField(f)
    ensures SkipField(FieldBody(f) + rest, f.Tag(), budget) == Skip(true, [f], rest, 0)
  {
    VarintReadsBack(f.varint, rest);
    Drop(Varint(f.varint), rest);
  }

  lemma SkipFixedRoundTrip(f: UnknownField, rest: seq<byte>, budget: nat)
    requires (f.Fixed32Field? || f.Fixed64Field?) && SerializableField(f)
    ensures SkipField(FieldBody(f) + rest, f.Tag(), budget) == Skip(true, [f], rest, 0)
  {
    WordBounds();
    var n, v := if f.Fixed32Field? then 4 else 8, if f.Fixed32Field? then f.fixed32 else f.fixed64;
    LittleEndianRoundTrip(v, n);
    var s := LittleEndian(v, n) + rest;
    assert s[..n] == LittleEndian(v, n) && s[n..] == rest;
  }

  lemma SkipBytesRoundTrip(f: UnknownField, rest: seq<byte>, budget: nat)
    requires f.BytesField? && SerializableField(f)
    ensures SkipField(FieldBody(f) + rest, f.Tag(), budget) == Skip(true, [f], rest, 0)
  {
    var d := f.data;
    ReadBytesRoundTrip(d, rest);
    Assoc(Varint(|d|), d, rest);
  }

  /** Skipping a written set that an end-group tag follows gives the set back. */
  lemma {:induction false} SkipMessageRoundTrip(fs: seq<UnknownField>, end: uint32, rest: seq<byte>, budget: nat)
    requires WellFormed(fs, budget)
    requires end % 8 == WIRETYPE_END_GROUP
    ensures Serializable(fs)
    ensures SkipMessage(SetBytes(fs) + (Varint(end) + rest), budget) == Skip(true, fs, rest, end)
    decreases fs, 1
  {
    WellFormedIsSerializable(fs, budget);
    var tail := Varint(end) + rest;
    if fs == [] {
      ReadTagOfVarint(end, rest);
      assert SetBytes(fs) + tail == tail;
    } else {
      assert fs[0] in fs;
      var f, more := fs[0], SetBytes(fs[1..]) + tail;
      SkipFieldRoundTrip(f, more, budget);
      SkipMessageRoundTrip(fs[1..], end, rest, budget);
      SkipMessageStep(f, more, budget);
      SetBytesCons(fs, tail);
      assert [f] + fs[1..] == fs;
    }
  }

  lemma SetBytesCons(fs: seq<UnknownField>, tail: seq<byte>)
    requires Serializable(fs) && fs != []
    ensures SerializableField(fs[0]) && Serializable(fs[1..])
    ensures SetBytes(fs) + tail == Varint(fs[0].Tag()) + (FieldBody(fs[0]) + (SetBytes(fs[1..]) + tail))
  {
    Assoc(FieldBytes(fs[0]), SetBytes(fs[1..]), tail);
    Assoc(Varint(fs[0].Tag()), FieldBody(fs[0]), SetBytes(fs[1..]) + tail);
  }

  /** Once the first field has been skipped the loop goes on with the rest. */
  lemma SkipMessageStep(f: UnknownField, more: seq<byte>, budget: nat)
    requires SerializableField(f)
    requires f.Tag() != 0 && f.Tag() % 8 != WIRETYPE_END_GROUP
    requires SkipField(FieldBody(f) + more, f.Tag(), budget) == Skip(true, [f], more, 0)
    ensures var m := SkipMessage(more, budget);
            SkipMessage(Varint(f.Tag()) + (FieldBody(f) + more), budget) == m.(fields := [f] + m.fields)
  {
    ReadTagOfVarint(f.Tag(), FieldBody(f) + more);
  }

  /** Whatever a skip adds, whether it succeeds or not, is well formed: these are
      "the unknown fields that came from parsing". The bound on the buffer is the
      int-sized length every stream has. */
  lemma {:induction false} SkipFieldWellFormed(s: seq<byte>, tag: uint32, budget: nat)
    requires tag != 0
    requires |s| <= INT_MAX
    ensures WellFormed(SkipField(s, tag, budget).fields, budget)
    ensures forall f :: f in SkipField(s, tag, budget).fields ==> f.number <= MAX_FIELD_NUMBER && f.Tag() == tag
    decreases |s|, budget, 0
  {
    if tag % 8 == WIRETYPE_START_GROUP && budget > 0 {
      SkipMessageWellFormed(s, budget - 1);
    }
  }

  lemma {:induction false} SkipMessageWellFormed(s: seq<byte>, budget: nat)
    requires |s| <= INT_MAX
    ensures WellFormed(SkipMessage(s, budget).fields, budget)
    decreases |s|, budget, 1
  {
    var t := ReadTag(s);
    if t.tag != 0 && t.tag % 8 != WIRETYPE_END_GROUP {
      SkipFieldWellFormed(t.rest, t.tag, budget);
      var f := SkipField(t.rest, t.tag, budget);
      if f.ok {
        SkipMessageWellFormed(f.rest, budget);
      }
    }
  }

  lemma SkippedSerializable(s: seq<byte>, tag: uint32, budget: nat)
    requires tag != 0 && |s| <= INT_MAX
    ensures Serializable(SkipField(s, tag, budget).fields)
  {
    SkipFieldWellFormed(s, tag, budget);
    WellFormedIsSerializable(SkipField(s, tag, budget).fields, budget);
  }

  // ----- What is refused -----------------------------------------------------

  /** A prefix of `a + b` is a prefix of `a`, or `a` and a prefix of `b`. */
  lemma PrefixOfTwo(a: seq<byte>, b: seq<byte>, k: nat)
    requires k <= |a| + |b|
    ensures k <= |a| ==> (a + b)[..k] == a[..k]
    ensures k >= |a| ==> (a + b)[..k] == a + b[..k - |a|]
  {
  }

  lemma PrefixSplit(a: seq<byte>, b: seq<byte>, s: seq<byte>)
    requires s <= a + b
    ensures |s| < |a| ==> s == a[..|s|]
    ensures |s| >= |a| ==> s == a + s[|a|..] && s[|a|..] <= b
  {
  }

  /** A length-delimited field that claims more bytes than there are is refused; what
      there was is kept. */
  lemma OverlongBytes(tag: uint32, size: uint32, part: seq<byte>, budget: nat)
    requires tag % 8 == WIRETYPE_LENGTH_DELIMITED && |part| < size <= INT_MAX
    ensures var k := SkipField(Varint(size) + part, tag, budget);
      !k.ok && k.fields == [BytesField(tag / 8, part)]
  {
    VarintReadsBack(size, part);
    Drop(Varint(size), part);
  }

  /** A length that does not fit an int is refused, whatever follows. */
  lemma OversizedBytes(tag: uint32, size: uint32, rest: seq<byte>, budget: nat)
    requires tag % 8 == WIRETYPE_LENGTH_DELIMITED && size > INT_MAX
    ensures var k := SkipField(Varint(size) + rest, tag, budget);
      !k.ok && k.fields == [BytesField(tag / 8, [])]
  {
    VarintReadsBack(size, rest);
  }

  /** An end-group tag out of place, and the two wire types that do not exist. */
  lemma BadWireType(tag: uint32, s: seq<byte>, budget: nat)
    requires tag % 8 in {4, 6, 7}
    ensures !SkipField(s, tag, budget).ok && SkipField(s, tag, budget).fields == []
  {
  }

  /** A group must be closed by the end-group tag of its own number. */
  lemma MismatchedEnd(number: nat, fs: seq<UnknownField>, other: nat, rest: seq<byte>, budget: nat)
    requires number <= MAX_FIELD_NUMBER && other <= MAX_FIELD_NUMBER && number != other
    requires budget > 0 && WellFormed(fs, budget - 1)
    ensures Serializable(fs)
    ensures !SkipField(SetBytes(fs) + (Varint(MakeTag(other, 4)) + rest), MakeTag(number, 3), budget).ok
  {
    SkipMessageRoundTrip(fs, MakeTag(other, WIRETYPE_END_GROUP), rest, budget - 1);
    assert MakeTag(number, 4) / 8 == number;
  }

  /** How deep groups are nested. */
  function Depth(f: UnknownField): nat
    decreases f, 0
  {
    if f.GroupField? then 1 + DepthOf(f.fields) else 0
  }

  function DepthOf(fs: seq<UnknownField>): nat
    decreases fs, 1
  {
    if fs == [] then 0
    else if Depth(fs[0]) > DepthOf(fs[1..]) then Depth(fs[0]) else DepthOf(fs[1..])
  }

  /** Well formed, however deep. */
  ghost predicate Plain(f: UnknownField)
    decreases f, 0
  {
    && f.number <= MAX_FIELD_NUMBER && (f.VarintField? ==> f.number != 0)
    && (f.BytesField? ==> |f.data| <= INT_MAX)
    && (f.GroupField? ==> AllPlain(f.fields))
  }

  ghost predicate AllPlain(fs: seq<UnknownField>)
    decreases fs, 1
  {
    fs == [] || (Plain(fs[0]) && AllPlain(fs[1..]))
  }

  /** What a budget allows is exactly the groups no deeper than it. */
  lemma {:induction false} WithinBudget(f: UnknownField, budget: nat)
    requires Plain(f)
    ensures SerializableField(f) && (WellFormedField(f, budget) <==> Depth(f) <= budget)
    decreases f, 0
  {
    if f.GroupField? {
      if budget > 0 {
        AllWithinBudget(f.fields, budget - 1);
      } else {
        AllWithinBudget(f.fields, 0);
      }
    }
  }

  lemma {:induction false} AllWithinBudget(fs: seq<UnknownField>, budget: nat)
    requires AllPlain(fs)
    ensures Serializable(fs) && (WellFormed(fs, budget) <==> DepthOf(fs) <= budget)
    decreases fs, 1
  {
    if fs != [] {
      WithinBudget(fs[0], budget);
      AllWithinBudget(fs[1..], budget);
      assert fs == [fs[0]] + fs[1..];
    }
  }

  /** Groups nested deeper than the recursion limit are refused. */
  lemma {:induction false} TooDeep(f: UnknownField, rest: seq<byte>, budget: nat)
    requires Plain(f) && Depth(f) > budget
    ensures SerializableField(f) && !SkipField(FieldBody(f) + rest, f.Tag(), budget).ok
    decreases f, 0
  {
    WithinBudget(f, budget);
    if budget > 0 {
      var end := Varint(MakeTag(f.number, WIRETYPE_END_GROUP));
      SomeTooDeep(f.fields, end + rest, budget - 1);
      Assoc(SetBytes(f.fields), end, rest);
    }
  }

  lemma {:induction false} SomeTooDeep(fs: seq<UnknownField>, rest: seq<byte>, budget: nat)
    requires AllPlain(fs) && DepthOf(fs) > budget
    ensures Serializable(fs) && !SkipMessage(SetBytes(fs) + rest, budget).ok
    decreases fs, 1
  {
    AllWithinBudget(fs, budget);
    var f, more := fs[0], SetBytes(fs[1..]) + rest;
    SetBytesCons(fs, rest);
    WithinBudget(f, budget);
    TagIsNoEnd(f);
    ReadTagOfVarint(f.Tag(), FieldBody(f) + more);
    if Depth(f) > budget {
      TooDeep(f, more, budget);
    } else {
      SkipFieldRoundTrip(f, more, budget);
      SomeTooDeep(fs[1..], rest, budget);
    }
  }

  lemma TagIsNoEnd(f: UnknownField)
    requires Plain(f)
    ensures f.Tag() != 0 && f.Tag() % 8 != WIRETYPE_END_GROUP
  {
  }

  /** A field that is cut short is refused. */
  lemma {:induction false} TruncatedField(f: UnknownField, k: nat, budget: nat)
    requires WellFormedField(f, budget) && SerializableField(f) && k < |FieldBody(f)|
    ensures !SkipField(FieldBody(f)[..k], f.Tag(), budget).ok
    decreases f, 0
  {
    match f {
      case VarintField(_, v) => TruncatedVarint(v, k, MAX_VARINT_BYTES);
      case Fixed32Field(_, _) =>
      case Fixed64Field(_, _) =>
      case BytesField(_, d) => TruncatedBytes(f, k, budget);
      case GroupField(n, fs) => TruncatedMessage(fs, MakeTag(n, WIRETYPE_END_GROUP), FieldBody(f)[..k], budget - 1);
    }
  }

  lemma TruncatedBytes(f: UnknownField, k: nat, budget: nat)
    requires f.BytesField? && SerializableField(f) && k < |FieldBody(f)|
    ensures !SkipField(FieldBody(f)[..k], f.Tag(), budget).ok
  {
    var p := Varint(|f.data|);
    PrefixOfTwo(p, f.data, k);
    if k < |p| {
      TruncatedVarint(|f.data|, k, MAX_VARINT_BYTES);
    } else {
      OverlongBytes(f.Tag(), |f.data|, f.data[..k - |p|], budget);
    }
  }

  /** The contents of a group that is cut short: refused, or not closed. */
  lemma {:induction false} TruncatedMessage(fs: seq<UnknownField>, end: uint32, s: seq<byte>, budget: nat)
    requires WellFormed(fs, budget) && Serializable(fs) && end % 8 == WIRETYPE_END_GROUP
    requires s <= SetBytes(fs) + Varint(end) && |s| < |SetBytes(fs) + Varint(end)|
    ensures var m := SkipMessage(s, budget); !m.ok || m.lastTag == 0
    decreases fs, 1
  {
    if fs == [] {
      assert SetBytes(fs) + Varint(end) == Varint(end);
      TruncatedTag(end, |s|);
      assert s == Varint(end)[..|s|];
    } else {
      assert fs[0] in fs;
      var f, more := fs[0], SetBytes(fs[1..]) + Varint(end);
      var t := Varint(f.Tag());
      SetBytesCons(fs, Varint(end));
      PrefixSplit(t, FieldBody(f) + more, s);
      if |s| < |t| {
        TruncatedTag(f.Tag(), |s|);
      } else {
        var body := s[|t|..];
        PrefixSplit(FieldBody(f), more, body);
        if |body| < |FieldBody(f)| {
          TruncatedField(f, |body|, budget);
        } else {
          TruncatedMessage(fs[1..], end, body[|FieldBody(f)|..], budget);
        }
        CutAfterTag(f, body, more, budget);
      }
    }
  }

  lemma FirstIsCut(f: UnknownField, s: seq<byte>, budget: nat)
    requires WellFormedField(f, budget) && !SkipField(s, f.Tag(), budget).ok
    ensures !SkipMessage(Varint(f.Tag()) + s, budget).ok
  {
    if f.GroupField? { WellFormedIsSerializable(f.fields, budget - 1); }
    SkipFieldRoundTrip(f, [], budget);
    ReadTagOfVarint(f.Tag(), s);
  }

  lemma FirstIsWhole(f: UnknownField, rest: seq<byte>, budget: nat)
    requires WellFormedField(f, budget)
    ensures SerializableField(f)
    ensures var m, m' := SkipMessage(Varint(f.Tag()) + (FieldBody(f) + rest), budget), SkipMessage(rest, budget);
      m.ok == m'.ok && m.lastTag == m'.lastTag
  {
    SkipFieldRoundTrip(f, rest, budget);
    SkipMessageStep(f, rest, budget);
  }

  /** The cut is in the first field, or in what follows it. */
  lemma CutAfterTag(f: UnknownField, s: seq<byte>, more: seq<byte>, budget: nat)
    requires WellFormedField(f, budget) && SerializableField(f) && s <= FieldBody(f) + more
    requires |s| < |FieldBody(f)| ==> !SkipField(FieldBody(f)[..|s|], f.Tag(), budget).ok
    requires |s| >= |FieldBody(f)| ==> var m := SkipMessage(s[|FieldBody(f)|..], budget); !m.ok || m.lastTag == 0
    ensures var m := SkipMessage(Varint(f.Tag()) + s, budget); !m.ok || m.lastTag == 0
  {
    PrefixSplit(FieldBody(f), more, s);
    if |s| < |FieldBody(f)| {
      FirstIsCut(f, s, budget);
    } else {
      FirstIsWhole(f, s[|FieldBody(f)|..], budget);
    }
  }

  /** One field of each kind, byte by byte. */
  lemma VarintExample()
    ensures FieldBytes(VarintField(5, 300)) == [0x28, 0xAC, 0x02]
  {
    assert Varint(2) == [2];
    assert Varint(300) == [0xAC, 0x02];
  }

  lemma Fixed32Example()
    ensures FieldBytes(Fixed32Field(5, 0x0102)) == [0x2D, 2, 1, 0, 0]
  {
    assert LittleEndian(0, 2) == [0, 0];
    assert LittleEndian(1, 3) == [1, 0, 0];
    assert LittleEndian(0x0102, 4) == [2, 1, 0, 0];
  }

  lemma Fixed64Example()
    ensures FieldBytes(Fixed64Field(5, 0x0102)) == [0x29, 2, 1, 0, 0, 0, 0, 0, 0]
  {
    assert LittleEndian(0, 2) == [0, 0];
    assert LittleEndian(0, 4) == [0, 0, 0, 0];
    assert LittleEndian(0, 6) == [0, 0, 0, 0, 0, 0];
    assert LittleEndian(1, 7) == [1, 0, 0, 0, 0, 0, 0];
    assert LittleEndian(0x0102, 8) == [2, 1, 0, 0, 0, 0, 0, 0];
  }

  lemma BytesAndGroupExample()
    ensures FieldBytes(BytesField(5, [97])) == [0x2A, 1, 97]
    ensures FieldBytes(GroupField(5, [])) == [0x2B, 0x2C]
  {
    assert SetBytes([]) == [];
  }

  // ----- A message as a list of fields ---------------------------------------

  /** The first `k` bytes are some of the fields, all of them whole. */
  predicate EndsField(fs: seq<UnknownField>, k: nat)
    requires Serializable(fs)
  {
    k == 0 || (fs != [] && k >= |FieldBytes(fs[0])| && EndsField(fs[1..], k - |FieldBytes(fs[0])|))
  }

  lemma FirstOfMany(fs: seq<UnknownField>, budget: nat)
    requires WellFormed(fs, budget) && Serializable(fs) && fs != []
    ensures WellFormedField(fs[0], budget) && SerializableField(fs[0])
    ensures WellFormed(fs[1..], budget) && Serializable(fs[1..])
    ensures SetBytes(fs) == FieldBytes(fs[0]) + SetBytes(fs[1..])
    ensures forall k: nat :: k > 0 ==>
      (EndsField(fs, k) <==> k >= |FieldBytes(fs[0])| && EndsField(fs[1..], k - |FieldBytes(fs[0])|))
  {
    assert fs[0] in fs;
  }

  lemma {:induction false} EndsFieldMeans(fs: seq<UnknownField>, k: nat)
    requires Serializable(fs)
    ensures EndsField(fs, k) <==> exists j :: 0 <= j <= |fs| && Serializable(fs[..j]) && k == |SetBytes(fs[..j])|
    decreases |fs|
  {
    assert fs[..0] == [] && |SetBytes([])| == 0;
    if fs != [] {
      var n := |FieldBytes(fs[0])|;
      forall j | 1 <= j <= |fs|
        ensures Serializable(fs[..j]) <==> Serializable(fs[1..][..j - 1])
        ensures Serializable(fs[..j]) ==> |SetBytes(fs[..j])| == n + |SetBytes(fs[1..][..j - 1])|
      {
        assert fs[..j][0] == fs[0] && fs[..j][1..] == fs[1..][..j - 1];
      }
      if k >= n {
        EndsFieldMeans(fs[1..], k - n);
        if j :| 0 <= j <= |fs[1..]| && Serializable(fs[1..][..j]) && k - n == |SetBytes(fs[1..][..j])| {
          assert Serializable(fs[..j + 1]) && k == |SetBytes(fs[..j + 1])|;
        }
      }
    }
  }

  lemma {:induction false} SetBytesOfTwo(a: seq<UnknownField>, b: seq<UnknownField>)
    requires Serializable(a) && Serializable(b)
    ensures Serializable(a + b) && SetBytes(a + b) == SetBytes(a) + SetBytes(b)
    decreases |a|
  {
    SerializableAppend(a, b);
    if a == [] {
      assert a + b == b && [] + SetBytes(b) == SetBytes(b);
    } else {
      assert (a + b)[0] == a[0] && (a + b)[1..] == a[1..] + b;
      SetBytesOfTwo(a[1..], b);
      Assoc(FieldBytes(a[0]), SetBytes(a[1..]), SetBytes(b));
    }
  }

  lemma OneField(f: UnknownField)
    requires SerializableField(f)
    ensures Serializable([f]) && SetBytes([f]) == FieldBytes(f)
  {
    assert [f][1..] == [];
    assert FieldBytes(f) + [] == FieldBytes(f);
  }

  lemma MaybeField(present: bool, f: UnknownField)
    requires SerializableField(f)
    ensures var fs := if present then [f] else [];
      Serializable(fs) && SetBytes(fs) == if present then FieldBytes(f) else []
  {
    OneField(f);
  }
}
