/** The state of the generated message User_Login, and what its codec does to it:
    an int32 and two strings behind has-bits, and unknown fields. */
module LoginCodec {
  import opened WireFormat
  import opened UnknownFields
  import opened CodedStream

  // The bits of _has_bits_[0], as in RoomCodec.
  const HAS_USER_ID: nat := 0
  const HAS_PASSWORD: nat := 1
  const HAS_USER_PID: nat := 2
  const ALL_FIELDS: set<nat> := {HAS_USER_ID, HAS_PASSWORD, HAS_USER_PID}

  const USER_PID_TAG: uint32 := 8
  const USER_ID_TAG: uint32 := 18
  const PASSWORD_TAG: uint32 := 26

  /** The message's state: everything but the cached size. */
  datatype Login = Login(hasBits: set<nat>, userPid: int32, userId: seq<byte>, password: seq<byte>,
                         unknown: seq<UnknownField>)

  const EMPTY := Login({}, 0, [], [], [])

  predicate KnownTag(tag: uint32)
  {
    tag in [USER_PID_TAG, USER_ID_TAG, PASSWORD_TAG]
  }

  /** No stray has-bit, and a field whose bit is clear reads as zero or empty. */
  ghost predicate Consistent(m: Login)
  {
    && m.hasBits <= ALL_FIELDS
    && (HAS_USER_PID !in m.hasBits ==> m.userPid == 0)
    && (HAS_USER_ID !in m.hasBits ==> m.userId == [])
    && (HAS_PASSWORD !in m.hasBits ==> m.password == [])
  }

  /** The writers refuse strings longer than an int can say. */
  predicate Writable(m: Login)
  {
    |m.userId| <= INT_MAX && |m.password| <= INT_MAX && Serializable(m.unknown)
  }

  ghost predicate Good(m: Login, budget: nat)
  {
    Consistent(m) && |m.userId| <= INT_MAX && |m.password| <= INT_MAX && Unclaimed(m.unknown, budget, KnownTag)
  }

  lemma GoodIsWritable(m: Login, budget: nat)
    requires Good(m, budget)
    ensures Writable(m)
  {
    WellFormedIsSerializable(m.unknown, budget);
  }

  // ----- Merging -----------------------------------------------------------

  /** MergeFrom: fields present in `from` win, unknown fields append. */
  function Merge(m: Login, from: Login): (r: Login)
  {
    Login(
      m.hasBits + from.hasBits,
      if HAS_USER_PID in from.hasBits then from.userPid else m.userPid,
      if HAS_USER_ID in from.hasBits then from.userId else m.userId,
      if HAS_PASSWORD in from.hasBits then from.password else m.password,
      m.unknown + from.unknown)
  }

  /** The string fields of a merge alone. */
  function MergedStrings(m: Login, b: Login): Login
  {
    var m1 := if HAS_USER_ID in b.hasBits then SetString(m, 2, b.userId) else m;
    if HAS_PASSWORD in b.hasBits then SetString(m1, 3, b.password) else m1
  }

  function MergedFields(m: Login, b: Login): Login
  {
    var m1 := MergedStrings(m, b);
    if HAS_USER_PID in b.hasBits then SetPid(m1, b.userPid) else m1
  }

  /** MergeFrom goes from the unknown fields over the strings to the int32. */
  lemma MergeInParts(m: Login, b: Login)
    requires b.hasBits <= ALL_FIELDS
    ensures MergedFields(AddUnknown(m, b.unknown), b) == Merge(m, b)
  {
  }

  // ----- Parsing -----------------------------------------------------------

  function SetPid(m: Login, v: int32): Login
  {
    m.(hasBits := m.hasBits + {HAS_USER_PID}, userPid := v)
  }

  /** Field 2 is the user id, field 3 the password. */
  function SetString(m: Login, number: nat, v: seq<byte>): Login
  {
    if number == 2 then m.(hasBits := m.hasBits + {HAS_USER_ID}, userId := v)
    else m.(hasBits := m.hasBits + {HAS_PASSWORD}, password := v)
  }

  function GetString(m: Login, number: nat): seq<byte>
  {
    if number == 2 then m.userId else m.password
  }

  function AddUnknown(m: Login, fs: seq<UnknownField>): Login
  {
    m.(unknown := m.unknown + fs)
  }

  /** One turn of the parse loop. The has-bit is set before the value is read, and
      a string cut short by the end of the input keeps what there was of it. */
  function ParseStep(m: Login, s: seq<byte>, budget: nat): (r: Step<Login>)
    ensures r.Next? ==> |r.rest| < |s|
  {
    var t := ReadTag(s);
    if t.tag == USER_PID_TAG then
      match ReadInt32(t.rest) {
        case NoInt32 => Failed(SetPid(m, m.userPid))
        case Int32(v, rest) => Next(SetPid(m, v), rest)
      }
    else if t.tag == USER_ID_TAG || t.tag == PASSWORD_TAG then
      var number := t.tag / 8;
      match ReadBytes(t.rest) {
        case Bytes(v, rest) => Next(SetString(m, number, v), rest)
        case Truncated(part) => Failed(SetString(m, number, part))
        case NoLength => Failed(SetString(m, number, GetString(m, number)))
        case Refused => Failed(SetString(m, number, GetString(m, number)))
      }
    else if t.tag == 0 then Finished(m, t.rest, s == [])
    else
      var k := SkipField(t.rest, t.tag, budget);
      if k.ok then Next(AddUnknown(m, k.fields), k.rest) else Failed(AddUnknown(m, k.fields))
  }

  function ParseAll(m: Login, s: seq<byte>, budget: nat): (r: Parse<Login>)
    decreases |s|
  {
    match ParseStep(m, s, budget)
    case Next(m', rest) => ParseAll(m', rest, budget)
    case Finished(m', rest, atEnd) => Parsed(m', rest, atEnd)
    case Failed(m') => ParseError(m')
  }

  /** What is left of a parse once the tag of an unknown field has been read. */
  function ParseSkipBody(m: Login, tag: uint32, s: seq<byte>, budget: nat): (r: Parse<Login>)
  {
    var k := SkipField(s, tag, budget);
    if k.ok then ParseAll(AddUnknown(m, k.fields), k.rest, budget) else ParseError(AddUnknown(m, k.fields))
  }

  /** What is left of a parse once the tag of the int32 field has been read. */
  function ParsePidBody(m: Login, s: seq<byte>, budget: nat): (r: Parse<Login>)
  {
    var i := ReadInt32(s);
    if i.Int32? then ParseAll(SetPid(m, i.value), i.rest, budget) else ParseError(SetPid(m, m.userPid))
  }

  /** What is left of a parse once the tag of a string field has been read. */
  function ParseStringBody(m: Login, number: nat, s: seq<byte>, budget: nat): (r: Parse<Login>)
  {
    var b := ReadBytes(s);
    if b.Bytes? then ParseAll(SetString(m, number, b.data), b.rest, budget)
    else if b.Truncated? then ParseError(SetString(m, number, b.data))
    else ParseError(SetString(m, number, GetString(m, number)))
  }

  // ----- Serializing -------------------------------------------------------

  function PidBytes(m: Login): (s: seq<byte>)
  {
    if HAS_USER_PID in m.hasBits then Int32FieldBytes(1, m.userPid) else []
  }

  function StringBytes(present: bool, number: nat, v: seq<byte>): (s: seq<byte>)
    requires number in {2, 3} && |v| <= INT_MAX
  {
    if present then StringFieldBytes(number, v) else []
  }

  function Encode(m: Login): (s: seq<byte>)
    requires Writable(m)
  {
    PidBytes(m)
    + (StringBytes(HAS_USER_ID in m.hasBits, 2, m.userId)
    + (StringBytes(HAS_PASSWORD in m.hasBits, 3, m.password)
    + SetBytes(m.unknown)))
  }

  // ----- One turn over each kind of field ----------------------------------

  lemma PidOutcome(m: Login, s: seq<byte>, body: seq<byte>, budget: nat)
    requires ReadTag(s) == TagRead(USER_PID_TAG, body)
    ensures ParseAll(m, s, budget) == ParsePidBody(m, body, budget)
  {
  }

  lemma StringOutcome(m: Login, s: seq<byte>, number: nat, body: seq<byte>, budget: nat)
    requires number in {2, 3}
    requires ReadTag(s) == TagRead(MakeTag(number, WIRETYPE_LENGTH_DELIMITED), body)
    ensures ParseAll(m, s, budget) == ParseStringBody(m, number, body, budget)
  {
  }

  lemma FinishedOutcome(m: Login, s: seq<byte>, body: seq<byte>, budget: nat)
    requires ReadTag(s) == TagRead(0, body)
    ensures ParseAll(m, s, budget) == Parsed(m, body, s == [])
  {
  }

  lemma SkippedOutcome(m: Login, s: seq<byte>, tag: uint32, body: seq<byte>, budget: nat)
    requires ReadTag(s) == TagRead(tag, body) && tag != 0 && !KnownTag(tag)
    ensures ParseAll(m, s, budget) == ParseSkipBody(m, tag, body, budget)
  {
  }

  // ----- Parsing what was serialized ---------------------------------------

  lemma ParsePid(m: Login, b: Login, rest: seq<byte>, budget: nat)
    ensures ParseAll(m, PidBytes(b) + rest, budget)
         == ParseAll(if HAS_USER_PID in b.hasBits then SetPid(m, b.userPid) else m, rest, budget)
  {
    if HAS_USER_PID in b.hasBits {
      var body := Varint(SignExtend(b.userPid)) + rest;
      Assoc(Varint(USER_PID_TAG), Varint(SignExtend(b.userPid)), rest);
      ReadTagOfVarint(USER_PID_TAG, body);
      ReadInt32RoundTrip(b.userPid, rest);
      PidOutcome(m, PidBytes(b) + rest, body, budget);
    } else {
      assert PidBytes(b) + rest == rest;
    }
  }

  lemma ParseString(m: Login, present: bool, number: nat, v: seq<byte>, rest: seq<byte>, budget: nat)
    requires number in {2, 3} && |v| <= INT_MAX
    ensures ParseAll(m, StringBytes(present, number, v) + rest, budget)
         == ParseAll(if present then SetString(m, number, v) else m, rest, budget)
  {
    if present {
      var tag := MakeTag(number, WIRETYPE_LENGTH_DELIMITED);
      var body := Varint(|v|) + (v + rest);
      Assoc(Varint(tag), Varint(|v|) + v, rest);
      Assoc(Varint(|v|), v, rest);
      ReadTagOfVarint(tag, body);
      ReadBytesRoundTrip(v, rest);
      StringOutcome(m, StringBytes(present, number, v) + rest, number, body, budget);
    } else {
      assert StringBytes(present, number, v) + rest == rest;
    }
  }

  lemma AddUnknownCons(m: Login, fs: seq<UnknownField>)
    ensures AddUnknown(m, []) == m
    ensures fs != [] ==> AddUnknown(AddUnknown(m, [fs[0]]), fs[1..]) == AddUnknown(m, fs)
  {
    if fs != [] {
      assert m.unknown + [fs[0]] + fs[1..] == m.unknown + fs;
    }
  }

  lemma ParseFirstUnknown(m: Login, fs: seq<UnknownField>, rest: seq<byte>, budget: nat)
    requires fs != [] && Serializable(fs)
    requires WellFormedField(fs[0], budget) && !KnownTag(fs[0].Tag())
    ensures ParseAll(m, SetBytes(fs) + rest, budget)
         == ParseAll(AddUnknown(m, [fs[0]]), SetBytes(fs[1..]) + rest, budget)
  {
    var f, more := fs[0], SetBytes(fs[1..]) + rest;
    SkipFieldRoundTrip(f, more, budget);
    SetBytesCons(fs, rest);
    ReadTagOfVarint(f.Tag(), FieldBody(f) + more);
    SkippedOutcome(m, SetBytes(fs) + rest, f.Tag(), FieldBody(f) + more, budget);
  }

  lemma {:induction false} ParseUnknown(m: Login, fs: seq<UnknownField>, rest: seq<byte>, budget: nat)
    requires Unclaimed(fs, budget, KnownTag)
    ensures Serializable(fs)
    ensures ParseAll(m, SetBytes(fs) + rest, budget) == ParseAll(AddUnknown(m, fs), rest, budget)
    decreases |fs|
  {
    WellFormedIsSerializable(fs, budget);
    AddUnknownCons(m, fs);
    if fs == [] {
      assert SetBytes(fs) + rest == rest;
    } else {
      UnclaimedParts(fs, budget, KnownTag);
      ParseFirstUnknown(m, fs, rest, budget);
      ParseUnknown(AddUnknown(m, [fs[0]]), fs[1..], rest, budget);
    }
  }

  lemma MergeStepByStep(m: Login, b: Login)
    requires b.hasBits <= ALL_FIELDS
    ensures var m1 := if HAS_USER_PID in b.hasBits then SetPid(m, b.userPid) else m;
            var m2 := if HAS_USER_ID in b.hasBits then SetString(m1, 2, b.userId) else m1;
            var m3 := if HAS_PASSWORD in b.hasBits then SetString(m2, 3, b.password) else m2;
            AddUnknown(m3, b.unknown) == Merge(m, b)
  {
  }

  /** Parsing the bytes of `b` into any message, whatever follows them, is merging
      `b` into it and parsing on. */
  lemma ParseIsMerge(m: Login, b: Login, rest: seq<byte>, budget: nat)
    requires Good(b, budget)
    ensures Writable(b)
    ensures ParseAll(m, Encode(b) + rest, budget) == ParseAll(Merge(m, b), rest, budget)
  {
    GoodIsWritable(b, budget);
    var pid := PidBytes(b);
    var id := StringBytes(HAS_USER_ID in b.hasBits, 2, b.userId);
    var password := StringBytes(HAS_PASSWORD in b.hasBits, 3, b.password);
    var unknown := SetBytes(b.unknown);
    var m1 := if HAS_USER_PID in b.hasBits then SetPid(m, b.userPid) else m;
    var m2 := if HAS_USER_ID in b.hasBits then SetString(m1, 2, b.userId) else m1;
    var m3 := if HAS_PASSWORD in b.hasBits then SetString(m2, 3, b.password) else m2;
    Append4(pid, id, password, unknown, rest);
    ParsePid(m, b, id + (password + (unknown + rest)), budget);
    ParseString(m1, HAS_USER_ID in b.hasBits, 2, b.userId, password + (unknown + rest), budget);
    ParseString(m2, HAS_PASSWORD in b.hasBits, 3, b.password, unknown + rest, budget);
    ParseUnknown(m3, b.unknown, rest, budget);
    MergeStepByStep(m, b);
  }

  lemma Append4(a: seq<byte>, b: seq<byte>, c: seq<byte>, d: seq<byte>, rest: seq<byte>)
    ensures (a + (b + (c + d))) + rest == a + (b + (c + (d + rest)))
  {
    Assoc(a, b + (c + d), rest);
    Assoc(b, c + d, rest);
    Assoc(c, d, rest);
  }

  // ----- Corollaries -------------------------------------------------------

  lemma ParseNothing(m: Login, budget: nat)
    ensures ParseAll(m, [], budget) == Parsed(m, [], true)
  {
  }

  lemma ParseEncodedIsMerge(m: Login, b: Login, budget: nat)
    requires Good(b, budget)
    ensures Writable(b)
    ensures ParseAll(m, Encode(b), budget) == Parsed(Merge(m, b), [], true)
  {
    ParseIsMerge(m, b, [], budget);
    assert Encode(b) + [] == Encode(b);
    ParseNothing(Merge(m, b), budget);
  }

  lemma MergeIntoEmpty(b: Login)
    requires Consistent(b)
    ensures Merge(EMPTY, b) == b
  {
    assert [] + b.unknown == b.unknown;
    assert EMPTY.hasBits + b.hasBits == b.hasBits;
  }

  lemma RoundTrip(b: Login, budget: nat)
    requires Good(b, budget)
    ensures Writable(b)
    ensures ParseAll(EMPTY, Encode(b), budget) == Parsed(b, [], true)
  {
    ParseEncodedIsMerge(EMPTY, b, budget);
    MergeIntoEmpty(b);
  }

  /** Concatenating two encodings encodes the merge. */
  lemma ConcatenationIsMerge(m: Login, a: Login, b: Login, budget: nat)
    requires Good(a, budget) && Good(b, budget)
    ensures Writable(a) && Writable(b)
    ensures ParseAll(m, Encode(a) + Encode(b), budget) == Parsed(Merge(Merge(m, a), b), [], true)
  {
    ParseEncodedIsMerge(Merge(m, a), b, budget);
    ParseIsMerge(m, a, Encode(b), budget);
  }

  /** Parsing any bytes at all, even to a failure, keeps a message good. */
  lemma {:induction false} ParseKeepsGood(m: Login, s: seq<byte>, budget: nat)
    requires Good(m, budget) && |s| <= INT_MAX
    ensures Good(ParseAll(m, s, budget).msg, budget)
    decreases |s|
  {
    StepKeepsGood(m, s, budget);
    match ParseStep(m, s, budget) {
      case Next(next, rest) => ParseKeepsGood(next, rest, budget);
      case _ =>
    }
  }

  lemma StepKeepsGood(m: Login, s: seq<byte>, budget: nat)
    requires Good(m, budget) && |s| <= INT_MAX
    ensures Good(ParseStep(m, s, budget).msg, budget)
  {
    var t := ReadTag(s);
    if t.tag != 0 && !KnownTag(t.tag) {
      SkipFieldWellFormed(t.rest, t.tag, budget);
    }
  }

  /** Whatever bytes were accepted, writing the result and parsing it again gives
      the same message. */
  lemma ReserializeIsStable(s: seq<byte>, budget: nat)
    requires |s| <= INT_MAX
    ensures var m := ParseAll(EMPTY, s, budget).msg;
            Writable(m) && ParseAll(EMPTY, Encode(m), budget) == Parsed(m, [], true)
  {
    ParseKeepsGood(EMPTY, s, budget);
    RoundTrip(ParseAll(EMPTY, s, budget).msg, budget);
  }

  // ----- Sizes -------------------------------------------------------------

  function StringSize(v: seq<byte>): (n: nat)
    requires |v| <= INT_MAX
  {
    VarintSize(|v|) + |v|
  }

  /** The sum ByteSizeLong accumulates, part by part. */
  lemma EncodedLength(m: Login)
    requires Writable(m)
    ensures |Encode(m)| == |SetBytes(m.unknown)|
                         + (if HAS_USER_ID in m.hasBits then 1 + StringSize(m.userId) else 0)
                         + (if HAS_PASSWORD in m.hasBits then 1 + StringSize(m.password) else 0)
                         + (if HAS_USER_PID in m.hasBits then 1 + Int32Size(m.userPid) else 0)
  {
    Varint64Fits(USER_PID_TAG);
    Varint64Fits(USER_ID_TAG);
    Varint64Fits(PASSWORD_TAG);
    Int32SizeIsLength(m.userPid);
    VarintSizeIsLength(|m.userId|);
    VarintSizeIsLength(|m.password|);
  }

  // ----- Any fields, whole or cut short ----------------------------------------

  /** What one field does to a message, by its number and what it holds: an int32 is the
      low 32 bits of its varint, the last of several wins, and a field of another kind than
      its number's is unknown. */
  function WithField(m: Login, f: UnknownField): Login
  {
    match f
    case VarintField(1, v) => m.(hasBits := m.hasBits + {HAS_USER_PID}, userPid := ToInt32(Low32(v)))
    case BytesField(2, d) => m.(hasBits := m.hasBits + {HAS_USER_ID}, userId := d)
    case BytesField(3, d) => m.(hasBits := m.hasBits + {HAS_PASSWORD}, password := d)
    case _ => m.(unknown := m.unknown + [f])
  }

  function WithFields(m: Login, fs: seq<UnknownField>): Login
    decreases |fs|
  {
    if fs == [] then m else WithFields(WithField(m, fs[0]), fs[1..])
  }

  /** One field, with its tag read. */
  lemma FieldOutcome(m: Login, f: UnknownField, s: seq<byte>, budget: nat)
    requires WellFormedField(f, budget) && SerializableField(f) && f.Tag() != 0
    ensures var k := SkipField(s, f.Tag(), budget);
      !k.ok ==> ParseAll(m, Varint(f.Tag()) + s, budget).ParseError?
    ensures var k := SkipField(s, f.Tag(), budget);
      k == Skip(true, [f], k.rest, 0) ==> ParseAll(m, Varint(f.Tag()) + s, budget) == ParseAll(WithField(m, f), k.rest, budget)
  {
    if f.VarintField? && f.number == 1 {
      PidFieldOutcome(m, f, s, budget);
    } else if f.BytesField? && f.number in {2, 3} {
      StringFieldOutcome(m, f, s, budget);
    } else {
      OtherFieldOutcome(m, f, s, budget);
    }
  }

  lemma OtherTag(f: UnknownField)
    requires f.number <= MAX_FIELD_NUMBER && !(f.VarintField? && f.number == 1) && !(f.BytesField? && f.number in {2, 3})
    ensures !KnownTag(f.Tag())
  {
  }

  lemma OtherFieldOutcome(m: Login, f: UnknownField, s: seq<byte>, budget: nat)
    requires f.number <= MAX_FIELD_NUMBER && f.Tag() != 0
    requires !(f.VarintField? && f.number == 1) && !(f.BytesField? && f.number in {2, 3})
    ensures var k := SkipField(s, f.Tag(), budget);
      !k.ok ==> ParseAll(m, Varint(f.Tag()) + s, budget).ParseError?
    ensures var k := SkipField(s, f.Tag(), budget);
      k == Skip(true, [f], k.rest, 0) ==> ParseAll(m, Varint(f.Tag()) + s, budget) == ParseAll(WithField(m, f), k.rest, budget)
  {
    OtherTag(f);
    ReadTagOfVarint(f.Tag(), s);
    SkippedOutcome(m, Varint(f.Tag()) + s, f.Tag(), s, budget);
  }

  lemma PidFieldOutcome(m: Login, f: UnknownField, s: seq<byte>, budget: nat)
    requires f.VarintField? && f.number == 1
    ensures var k := SkipField(s, f.Tag(), budget);
      !k.ok ==> ParseAll(m, Varint(f.Tag()) + s, budget).ParseError?
    ensures var k := SkipField(s, f.Tag(), budget);
      k == Skip(true, [f], k.rest, 0) ==> ParseAll(m, Varint(f.Tag()) + s, budget) == ParseAll(WithField(m, f), k.rest, budget)
  {
    ReadTagOfVarint(f.Tag(), s);
    SkippedInt32(s, f.Tag(), budget);
    PidOutcome(m, Varint(f.Tag()) + s, s, budget);
  }

  lemma StringFieldOutcome(m: Login, f: UnknownField, s: seq<byte>, budget: nat)
    requires f.BytesField? && f.number in {2, 3}
    ensures var k := SkipField(s, f.Tag(), budget);
      !k.ok ==> ParseAll(m, Varint(f.Tag()) + s, budget).ParseError?
    ensures var k := SkipField(s, f.Tag(), budget);
      k == Skip(true, [f], k.rest, 0) ==> ParseAll(m, Varint(f.Tag()) + s, budget) == ParseAll(WithField(m, f), k.rest, budget)
  {
    ReadTagOfVarint(f.Tag(), s);
    StringOutcome(m, Varint(f.Tag()) + s, f.number, s, budget);
  }

  lemma ParseField(m: Login, f: UnknownField, rest: seq<byte>, budget: nat)
    requires WellFormedField(f, budget)
    ensures SerializableField(f)
    ensures ParseAll(m, FieldBytes(f) + rest, budget) == ParseAll(WithField(m, f), rest, budget)
  {
    SkipFieldRoundTrip(f, rest, budget);
    Assoc(Varint(f.Tag()), FieldBody(f), rest);
    FieldOutcome(m, f, FieldBody(f) + rest, budget);
  }

  /** Fields of any kind, in any order, any number of times: each does its work in turn. */
  lemma {:induction false} ParseFields(m: Login, fs: seq<UnknownField>, rest: seq<byte>, budget: nat)
    requires WellFormed(fs, budget)
    ensures Serializable(fs)
    ensures ParseAll(m, SetBytes(fs) + rest, budget) == ParseAll(WithFields(m, fs), rest, budget)
    decreases |fs|
  {
    WellFormedIsSerializable(fs, budget);
    if fs == [] {
      assert SetBytes(fs) + rest == rest;
    } else {
      assert fs[0] in fs;
      Assoc(FieldBytes(fs[0]), SetBytes(fs[1..]), rest);
      ParseField(m, fs[0], SetBytes(fs[1..]) + rest, budget);
      ParseFields(WithField(m, fs[0]), fs[1..], rest, budget);
    }
  }

  /** The parse succeeded and used up the input, as ParseFromArray demands. */
  predicate Accepted(r: Parse<Login>)
  {
    r.Parsed? && r.atEnd
  }

  /** A tag cut short reads as the end of the input, which it is not. */
  lemma CutTag(m: Login, s: seq<byte>, budget: nat)
    requires s != [] && ReadTag(s).tag == 0
    ensures !Accepted(ParseAll(m, s, budget))
  {
    FinishedOutcome(m, s, ReadTag(s).rest, budget);
  }

  lemma CutBody(m: Login, f: UnknownField, s: seq<byte>, budget: nat)
    requires WellFormedField(f, budget) && SerializableField(f) && s <= FieldBody(f) && |s| < |FieldBody(f)|
    ensures ParseAll(m, Varint(f.Tag()) + s, budget).ParseError?
  {
    SkipFieldRoundTrip(f, [], budget);
    assert s == FieldBody(f)[..|s|];
    TruncatedField(f, |s|, budget);
    FieldOutcome(m, f, s, budget);
  }

  lemma CutField(m: Login, f: UnknownField, s: seq<byte>, budget: nat)
    requires WellFormedField(f, budget) && SerializableField(f) && s <= FieldBytes(f) && 0 < |s| < |FieldBytes(f)|
    ensures !Accepted(ParseAll(m, s, budget))
  {
    var t := Varint(f.Tag());
    PrefixSplit(t, FieldBody(f), s);
    if |s| < |t| {
      TruncatedTag(f.Tag(), |s|);
      CutTag(m, s, budget);
    } else {
      CutBody(m, f, s[|t|..], budget);
    }
  }

  lemma AfterFirst(m: Login, f: UnknownField, s: seq<byte>, rest: seq<byte>, budget: nat)
    requires WellFormedField(f, budget) && SerializableField(f) && s == FieldBytes(f) + rest
    ensures ParseAll(m, s, budget) == ParseAll(WithField(m, f), rest, budget)
  {
    ParseField(m, f, rest, budget);
  }

  /** Input that is cut short is accepted exactly when the cut is between two fields. */
  lemma {:induction false} CutFields(m: Login, fs: seq<UnknownField>, s: seq<byte>, budget: nat)
    requires WellFormed(fs, budget) && Serializable(fs) && s <= SetBytes(fs)
    ensures Accepted(ParseAll(m, s, budget)) <==> EndsField(fs, |s|)
    decreases |fs|
  {
    if s == [] {
      ParseNothing(m, budget);
    } else {
      FirstOfMany(fs, budget);
      var n := |FieldBytes(fs[0])|;
      PrefixSplit(FieldBytes(fs[0]), SetBytes(fs[1..]), s);
      if |s| < n {
        CutField(m, fs[0], s, budget);
      } else {
        AfterFirst(m, fs[0], s, s[n..], budget);
        CutFields(WithField(m, fs[0]), fs[1..], s[n..], budget);
      }
    }
  }

  /** What a message is on the wire. */
  function WireFields(b: Login): seq<UnknownField>
  {
    (if HAS_USER_PID in b.hasBits then [VarintField(1, SignExtend(b.userPid))] else [])
    + ((if HAS_USER_ID in b.hasBits then [BytesField(2, b.userId)] else [])
    + ((if HAS_PASSWORD in b.hasBits then [BytesField(3, b.password)] else [])
    + b.unknown))
  }

  lemma EncodeIsFields(b: Login, budget: nat)
    requires Good(b, budget)
    ensures Writable(b) && WellFormed(WireFields(b), budget) && Serializable(WireFields(b))
    ensures Encode(b) == SetBytes(WireFields(b))
  {
    GoodIsWritable(b, budget);
    var pid := if HAS_USER_PID in b.hasBits then [VarintField(1, SignExtend(b.userPid))] else [];
    var id := if HAS_USER_ID in b.hasBits then [BytesField(2, b.userId)] else [];
    var password := if HAS_PASSWORD in b.hasBits then [BytesField(3, b.password)] else [];
    MaybeField(HAS_USER_PID in b.hasBits, VarintField(1, SignExtend(b.userPid)));
    MaybeField(HAS_USER_ID in b.hasBits, BytesField(2, b.userId));
    MaybeField(HAS_PASSWORD in b.hasBits, BytesField(3, b.password));
    SetBytesOfTwo(password, b.unknown);
    SetBytesOfTwo(id, password + b.unknown);
    SetBytesOfTwo(pid, id + (password + b.unknown));
  }

  /** An encoding that is cut short is accepted exactly when it is cut between two
      fields. */
  lemma CutEncoding(m: Login, b: Login, k: nat, budget: nat)
    requires Good(b, budget)
    ensures Writable(b) && Serializable(WireFields(b))
    ensures k <= |Encode(b)| ==>
      (Accepted(ParseAll(m, Encode(b)[..k], budget)) <==>
       exists j :: 0 <= j <= |WireFields(b)| && Serializable(WireFields(b)[..j]) && k == |SetBytes(WireFields(b)[..j])|)
  {
    EncodeIsFields(b, budget);
    if k <= |Encode(b)| {
      CutFields(m, WireFields(b), Encode(b)[..k], budget);
      EndsFieldMeans(WireFields(b), k);
    }
  }

  // ----- What is refused -------------------------------------------------------

  /** A string that claims more bytes than there are is refused; the field keeps what there
      was. */
  lemma OverlongString(m: Login, number: nat, size: uint32, part: seq<byte>, budget: nat)
    requires number in {2, 3} && |part| < size <= INT_MAX
    ensures ParseAll(m, Varint(MakeTag(number, 2)) + (Varint(size) + part), budget)
         == ParseError(WithField(m, BytesField(number, part)))
  {
    ReadTagOfVarint(MakeTag(number, 2), Varint(size) + part);
    VarintReadsBack(size, part);
    Drop(Varint(size), part);
  }

  /** A string whose length does not fit an int is refused; the field keeps what it had, but
      counts as set. */
  lemma OversizedString(m: Login, number: nat, size: uint32, rest: seq<byte>, budget: nat)
    requires number in {2, 3} && size > INT_MAX
    ensures ParseAll(m, Varint(MakeTag(number, 2)) + (Varint(size) + rest), budget)
         == ParseError(WithField(m, BytesField(number, if number == 2 then m.userId else m.password)))
  {
    ReadTagOfVarint(MakeTag(number, 2), Varint(size) + rest);
    VarintReadsBack(size, rest);
  }

  lemma OverlongUnknown(m: Login, number: nat, size: uint32, part: seq<byte>, budget: nat)
    requires number <= MAX_FIELD_NUMBER && number !in {2, 3} && |part| < size <= INT_MAX
    ensures ParseAll(m, Varint(MakeTag(number, 2)) + (Varint(size) + part), budget)
         == ParseError(WithField(m, BytesField(number, part)))
  {
    var tag, body := MakeTag(number, 2), Varint(size) + part;
    ReadTagOfVarint(tag, body);
    OverlongBytes(tag, size, part, budget);
    SkippedOutcome(m, Varint(tag) + body, tag, body, budget);
  }

  lemma OversizedUnknown(m: Login, number: nat, size: uint32, rest: seq<byte>, budget: nat)
    requires number <= MAX_FIELD_NUMBER && number !in {2, 3} && size > INT_MAX
    ensures ParseAll(m, Varint(MakeTag(number, 2)) + (Varint(size) + rest), budget)
         == ParseError(WithField(m, BytesField(number, [])))
  {
    var tag, body := MakeTag(number, 2), Varint(size) + rest;
    ReadTagOfVarint(tag, body);
    OversizedBytes(tag, size, rest, budget);
    SkippedOutcome(m, Varint(tag) + body, tag, body, budget);
  }

  /** An end-group tag outside a group, and wire types that do not exist, are refused. */
  lemma BadTag(m: Login, tag: uint32, rest: seq<byte>, budget: nat)
    requires tag % 8 in {4, 6, 7}
    ensures ParseAll(m, Varint(tag) + rest, budget) == ParseError(m)
  {
    ReadTagOfVarint(tag, rest);
    BadWireType(tag, rest, budget);
    SkippedOutcome(m, Varint(tag) + rest, tag, rest, budget);
    assert m.unknown + [] == m.unknown;
  }

  /** Groups nested deeper than the recursion limit are refused. */
  lemma DeepGroup(m: Login, f: UnknownField, rest: seq<byte>, budget: nat)
    requires Plain(f) && Depth(f) > budget
    ensures SerializableField(f) && ParseAll(m, FieldBytes(f) + rest, budget).ParseError?
  {
    TooDeep(f, rest, budget);
    TagIsNoEnd(f);
    Assoc(Varint(f.Tag()), FieldBody(f), rest);
    ReadTagOfVarint(f.Tag(), FieldBody(f) + rest);
    SkippedOutcome(m, FieldBytes(f) + rest, f.Tag(), FieldBody(f) + rest, budget);
  }

  /** A message byte by byte. */
  lemma Example()
    ensures Encode(Login(ALL_FIELDS, 150, [116], [97, 98], [])) == [8, 150, 1] + ([18, 1, 116] + [26, 2, 97, 98])
  {
    assert Varint(1) == [1];
    assert Varint(150) == [150, 1];
    assert SetBytes([]) == [];
  }
}
