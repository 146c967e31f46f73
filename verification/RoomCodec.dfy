/** The state of the generated message Room_List, and what its codec
    does to it: scalar fields behind has-bits, a repeated field in its packed and
    unpacked forms, and unknown fields. */
module RoomCodec {
  import opened WireFormat
  import opened UnknownFields
  import opened CodedStream

  // The word _has_bits_[0] is the set of its set bits: `|=` is union, a test
  // against a mask is membership.
  const HAS_ID: nat := 0
  const HAS_ROOM_INDEX: nat := 1
  const HAS_USER_COUNT: nat := 2
  const ALL_FIELDS: set<nat> := {HAS_ID, HAS_ROOM_INDEX, HAS_USER_COUNT}

  const ID_TAG: uint32 := 8
  const USER_LIST_TAG: uint32 := 16
  const PACKED_USER_LIST_TAG: uint32 := 18
  const ROOM_INDEX_TAG: uint32 := 24
  const USER_COUNT_TAG: uint32 := 32

  /** The message's state: everything but the cached size. */
  datatype Room = Room(hasBits: set<nat>, id: int32, userList: seq<int32>, roomIndex: int32, userCount: int32,
                       unknown: seq<UnknownField>)

  const EMPTY := Room({}, 0, [], 0, 0, [])

  predicate KnownTag(tag: uint32)
  {
    tag in [ID_TAG, USER_LIST_TAG, PACKED_USER_LIST_TAG, ROOM_INDEX_TAG, USER_COUNT_TAG]
  }

  /** What every operation keeps: no stray has-bit, and a field whose bit is clear
      reads as zero. */
  ghost predicate Consistent(m: Room)
  {
    && m.hasBits <= ALL_FIELDS
    && (HAS_ID !in m.hasBits ==> m.id == 0)
    && (HAS_ROOM_INDEX !in m.hasBits ==> m.roomIndex == 0)
    && (HAS_USER_COUNT !in m.hasBits ==> m.userCount == 0)
  }

  ghost predicate Good(m: Room, budget: nat)
  {
    Consistent(m) && Unclaimed(m.unknown, budget, KnownTag)
  }

  // ----- Merging -----------------------------------------------------------

  /** MergeFrom: fields present in `from` win, lists and unknown fields append. */
  function Merge(m: Room, from: Room): (r: Room)
  {
    Room(
      m.hasBits + from.hasBits,
      if HAS_ID in from.hasBits then from.id else m.id,
      m.userList + from.userList,
      if HAS_ROOM_INDEX in from.hasBits then from.roomIndex else m.roomIndex,
      if HAS_USER_COUNT in from.hasBits then from.userCount else m.userCount,
      m.unknown + from.unknown)
  }

  // ----- Parsing -----------------------------------------------------------

  function AddUsers(m: Room, list: seq<int32>): Room
  {
    m.(userList := m.userList + list)
  }

  function AddUnknown(m: Room, fs: seq<UnknownField>): Room
  {
    m.(unknown := m.unknown + fs)
  }

  /** One turn of the parse loop. A scalar's has-bit is set before its value is
      read, so a failing read leaves the bit behind. */
  function ParseStep(m: Room, s: seq<byte>, budget: nat): (r: Step<Room>)
    ensures r.Next? ==> |r.rest| < |s|
  {
    var t := ReadTag(s);
    if t.tag == ID_TAG then
      var marked := m.(hasBits := m.hasBits + {HAS_ID});
      match ReadInt32(t.rest) { case NoInt32 => Failed(marked) case Int32(v, rest) => Next(marked.(id := v), rest) }
    else if t.tag == USER_LIST_TAG then
      match ReadInt32(t.rest) { case NoInt32 => Failed(m) case Int32(v, rest) => Next(AddUsers(m, [v]), rest) }
    else if t.tag == PACKED_USER_LIST_TAG then
      match ReadPackedSize(t.rest) {
        case NoSize => Failed(m)
        case Elements(inside, rest) =>
          var p := ReadPackedValues(inside);
          var added := AddUsers(m, p.values);
          if p.ok then Next(added, rest) else Failed(added)
      }
    else if t.tag == ROOM_INDEX_TAG then
      var marked := m.(hasBits := m.hasBits + {HAS_ROOM_INDEX});
      match ReadInt32(t.rest) { case NoInt32 => Failed(marked) case Int32(v, rest) => Next(marked.(roomIndex := v), rest) }
    else if t.tag == USER_COUNT_TAG then
      var marked := m.(hasBits := m.hasBits + {HAS_USER_COUNT});
      match ReadInt32(t.rest) { case NoInt32 => Failed(marked) case Int32(v, rest) => Next(marked.(userCount := v), rest) }
    else if t.tag == 0 then Finished(m, t.rest, s == [])
    else
      var k := SkipField(t.rest, t.tag, budget);
      var kept := AddUnknown(m, k.fields);
      if k.ok then Next(kept, k.rest) else Failed(kept)
  }

  function ParseAll(m: Room, s: seq<byte>, budget: nat): (r: Parse<Room>)
    decreases |s|
  {
    match ParseStep(m, s, budget)
    case Next(m', rest) => ParseAll(m', rest, budget)
    case Finished(m', rest, atEnd) => Parsed(m', rest, atEnd)
    case Failed(m') => ParseError(m')
  }

  /** What is left of a parse once the tag of a list element has been read. */
  function ParseElementBody(m: Room, s: seq<byte>, budget: nat): (r: Parse<Room>)
  {
    match ReadInt32(s)
    case NoInt32 => ParseError(m)
    case Int32(v, rest) => ParseAll(AddUsers(m, [v]), rest, budget)
  }

  /** The same for the tag of a scalar field, of the packed list and of an unknown field. */
  function ParseScalarBody(m: Room, number: nat, s: seq<byte>, budget: nat): (r: Parse<Room>)
    requires number in {1, 3, 4}
  {
    match ReadInt32(s)
    case NoInt32 => ParseError(SetHas(m, number))
    case Int32(v, rest) => ParseAll(SetScalar(m, number, v), rest, budget)
  }

  function ParsePackedBody(m: Room, s: seq<byte>, budget: nat): (r: Parse<Room>)
  {
    match ReadPackedSize(s)
    case NoSize => ParseError(m)
    case Elements(inside, rest) =>
      var p := ReadPackedValues(inside);
      if p.ok then ParseAll(AddUsers(m, p.values), rest, budget) else ParseError(AddUsers(m, p.values))
  }

  function ParseSkipBody(m: Room, tag: uint32, s: seq<byte>, budget: nat): (r: Parse<Room>)
  {
    var k := SkipField(s, tag, budget);
    if k.ok then ParseAll(AddUnknown(m, k.fields), k.rest, budget) else ParseError(AddUnknown(m, k.fields))
  }

  // ----- Serializing -------------------------------------------------------

  function Scalar(present: bool, number: nat, v: int32): (s: seq<byte>)
    requires number <= MAX_FIELD_NUMBER
  {
    if present then Int32FieldBytes(number, v) else []
  }

  function ListBytes(list: seq<int32>): (s: seq<byte>)
  {
    if list == [] then [] else Int32FieldBytes(2, list[0]) + ListBytes(list[1..])
  }

  function Encode(m: Room): (s: seq<byte>)
    requires Serializable(m.unknown)
  {
    Scalar(HAS_ID in m.hasBits, 1, m.id)
    + (ListBytes(m.userList)
    + (Scalar(HAS_ROOM_INDEX in m.hasBits, 3, m.roomIndex)
    + (Scalar(HAS_USER_COUNT in m.hasBits, 4, m.userCount)
    + SetBytes(m.unknown))))
  }

  // ----- Parsing what was serialized ---------------------------------------

  /** What one scalar field of the wire does to a message. */
  function SetScalar(m: Room, number: nat, v: int32): Room
  {
    if number == 1 then m.(hasBits := m.hasBits + {HAS_ID}, id := v)
    else if number == 3 then m.(hasBits := m.hasBits + {HAS_ROOM_INDEX}, roomIndex := v)
    else m.(hasBits := m.hasBits + {HAS_USER_COUNT}, userCount := v)
  }

  function SetHas(m: Room, number: nat): Room
  {
    m.(hasBits := m.hasBits + {if number == 1 then HAS_ID else if number == 3 then HAS_ROOM_INDEX else HAS_USER_COUNT})
  }

  /** A tag and a varint, split into what the loop reads first and second. */
  lemma Int32FieldSplit(number: nat, v: int32, rest: seq<byte>)
    requires number <= MAX_FIELD_NUMBER
    ensures var t := ReadTag(Int32FieldBytes(number, v) + rest);
            t.tag == MakeTag(number, WIRETYPE_VARINT) && ReadInt32(t.rest) == Int32(v, rest)
  {
    var tag := MakeTag(number, WIRETYPE_VARINT);
    Assoc(Varint(tag), Varint(SignExtend(v)), rest);
    ReadTagOfVarint(tag, Varint(SignExtend(v)) + rest);
    ReadInt32RoundTrip(v, rest);
  }

  /** One turn that goes on leaves the rest of the parse to the rest of the input. */
  lemma Unfold(m: Room, s: seq<byte>, next: Room, rest: seq<byte>, budget: nat)
    requires ParseStep(m, s, budget) == Next(next, rest)
    ensures ParseAll(m, s, budget) == ParseAll(next, rest, budget)
  {
  }

  lemma ScalarStep(m: Room, number: nat, v: int32, rest: seq<byte>, budget: nat)
    requires number in {1, 3, 4}
    ensures ParseStep(m, Int32FieldBytes(number, v) + rest, budget) == Next(SetScalar(m, number, v), rest)
  {
    Int32FieldSplit(number, v, rest);
  }

  lemma ElementStep(m: Room, v: int32, rest: seq<byte>, budget: nat)
    ensures ParseStep(m, Int32FieldBytes(2, v) + rest, budget) == Next(AddUsers(m, [v]), rest)
  {
    Int32FieldSplit(2, v, rest);
  }

  /** A byte equal to the tag is the tag: the inner loop may skip the outer one. */
  lemma ElementTag(m: Room, s: seq<byte>, budget: nat)
    requires s != [] && s[0] as int == USER_LIST_TAG
    ensures ParseAll(m, s, budget) == ParseElementBody(m, s[1..], budget)
  {
    assert ReadTag(s) == TagRead(USER_LIST_TAG, s[1..]);
    ElementOutcome(m, s, s[1..], budget);
  }

  lemma ElementOutcome(m: Room, s: seq<byte>, body: seq<byte>, budget: nat)
    requires ReadTag(s) == TagRead(USER_LIST_TAG, body)
    ensures ParseAll(m, s, budget) == ParseElementBody(m, body, budget)
  {
  }

  /** One turn for each kind of tag, said in terms of the whole parse. */
  lemma ScalarOutcome(m: Room, s: seq<byte>, number: nat, body: seq<byte>, budget: nat)
    requires number in {1, 3, 4}
    requires ReadTag(s) == TagRead(MakeTag(number, WIRETYPE_VARINT), body)
    ensures ParseAll(m, s, budget) == ParseScalarBody(m, number, body, budget)
  {
  }

  lemma PackedOutcome(m: Room, s: seq<byte>, body: seq<byte>, budget: nat)
    requires ReadTag(s) == TagRead(PACKED_USER_LIST_TAG, body)
    ensures ParseAll(m, s, budget) == ParsePackedBody(m, body, budget)
  {
  }

  lemma FinishedOutcome(m: Room, s: seq<byte>, body: seq<byte>, budget: nat)
    requires ReadTag(s) == TagRead(0, body)
    ensures ParseAll(m, s, budget) == Parsed(m, body, s == [])
  {
  }

  lemma SkippedOutcome(m: Room, s: seq<byte>, tag: uint32, body: seq<byte>, budget: nat)
    requires ReadTag(s) == TagRead(tag, body) && tag != 0 && !KnownTag(tag)
    ensures ParseAll(m, s, budget) == ParseSkipBody(m, tag, body, budget)
  {
  }

  lemma SkippedStep(m: Room, s: seq<byte>, f: UnknownField, body: seq<byte>, rest: seq<byte>, budget: nat)
    requires f.number <= MAX_FIELD_NUMBER && f.Tag() != 0 && !KnownTag(f.Tag())
    requires ReadTag(s) == TagRead(f.Tag(), body)
    requires SkipField(body, f.Tag(), budget) == Skip(true, [f], rest, 0)
    ensures ParseStep(m, s, budget) == Next(AddUnknown(m, [f]), rest)
  {
  }

  lemma UnknownStep(m: Room, f: UnknownField, rest: seq<byte>, budget: nat)
    requires WellFormedField(f, budget) && !KnownTag(f.Tag())
    ensures SerializableField(f)
    ensures ParseStep(m, FieldBytes(f) + rest, budget) == Next(AddUnknown(m, [f]), rest)
  {
    SkipFieldRoundTrip(f, rest, budget);
    Assoc(Varint(f.Tag()), FieldBody(f), rest);
    ReadTagOfVarint(f.Tag(), FieldBody(f) + rest);
    SkippedStep(m, FieldBytes(f) + rest, f, FieldBody(f) + rest, rest, budget);
  }

  lemma ParseScalar(m: Room, present: bool, number: nat, v: int32, rest: seq<byte>, budget: nat)
    requires number in {1, 3, 4}
    ensures ParseAll(m, Scalar(present, number, v) + rest, budget)
         == ParseAll(if present then SetScalar(m, number, v) else m, rest, budget)
  {
    if present {
      ScalarStep(m, number, v, rest, budget);
      Unfold(m, Int32FieldBytes(number, v) + rest, SetScalar(m, number, v), rest, budget);
    } else {
      assert Scalar(present, number, v) + rest == rest;
    }
  }

  lemma AddUsersCons(m: Room, list: seq<int32>)
    ensures AddUsers(m, []) == m
    ensures list != [] ==> AddUsers(AddUsers(m, [list[0]]), list[1..]) == AddUsers(m, list)
  {
    if list != [] {
      assert m.userList + [list[0]] + list[1..] == m.userList + list;
    }
  }

  lemma AddUnknownCons(m: Room, fs: seq<UnknownField>)
    ensures AddUnknown(m, []) == m
    ensures fs != [] ==> AddUnknown(AddUnknown(m, [fs[0]]), fs[1..]) == AddUnknown(m, fs)
  {
    if fs != [] {
      assert m.unknown + [fs[0]] + fs[1..] == m.unknown + fs;
    }
  }

  lemma ParseFirstElement(m: Room, list: seq<int32>, rest: seq<byte>, budget: nat)
    requires list != []
    ensures ParseAll(m, ListBytes(list) + rest, budget)
         == ParseAll(AddUsers(m, [list[0]]), ListBytes(list[1..]) + rest, budget)
  {
    var more := ListBytes(list[1..]) + rest;
    ElementStep(m, list[0], more, budget);
    Assoc(Int32FieldBytes(2, list[0]), ListBytes(list[1..]), rest);
    Unfold(m, ListBytes(list) + rest, AddUsers(m, [list[0]]), more, budget);
  }

  lemma {:induction false} ParseList(m: Room, list: seq<int32>, rest: seq<byte>, budget: nat)
    ensures ParseAll(m, ListBytes(list) + rest, budget) == ParseAll(AddUsers(m, list), rest, budget)
    decreases |list|
  {
    AddUsersCons(m, list);
    if list == [] {
      assert ListBytes(list) + rest == rest;
    } else {
      ParseFirstElement(m, list, rest, budget);
      ParseList(AddUsers(m, [list[0]]), list[1..], rest, budget);
    }
  }

  lemma ParseFirstUnknown(m: Room, fs: seq<UnknownField>, rest: seq<byte>, budget: nat)
    requires fs != [] && Serializable(fs)
    requires WellFormedField(fs[0], budget) && !KnownTag(fs[0].Tag())
    ensures ParseAll(m, SetBytes(fs) + rest, budget)
         == ParseAll(AddUnknown(m, [fs[0]]), SetBytes(fs[1..]) + rest, budget)
  {
    var more := SetBytes(fs[1..]) + rest;
    UnknownStep(m, fs[0], more, budget);
    Assoc(FieldBytes(fs[0]), SetBytes(fs[1..]), rest);
    Unfold(m, SetBytes(fs) + rest, AddUnknown(m, [fs[0]]), more, budget);
  }

  lemma {:induction false} ParseUnknown(m: Room, fs: seq<UnknownField>, rest: seq<byte>, budget: nat)
    requires Unclaimed(fs, budget, KnownTag)
    ensures Serializable(fs)
    ensures ParseAll(m, SetBytes(fs) + rest, budget) == ParseAll(AddUnknown(m, fs), rest, budget)
    decreases |fs|
  {
    WellFormedIsSerializable(fs, budget);
    AddUnknownCons(m, fs);
    if fs == [] {
      assert SetBytes(fs) + rest == rest;
    } else {
      UnclaimedParts(fs, budget, KnownTag);
      ParseFirstUnknown(m, fs, rest, budget);
      ParseUnknown(AddUnknown(m, [fs[0]]), fs[1..], rest, budget);
    }
  }

  /** Parsing the bytes of `b` into any message, whatever follows them, is merging
      `b` into it and parsing on. */
  lemma ParseIsMerge(m: Room, b: Room, rest: seq<byte>, budget: nat)
    requires Good(b, budget)
    ensures Serializable(b.unknown)
    ensures ParseAll(m, Encode(b) + rest, budget) == ParseAll(Merge(m, b), rest, budget)
  {
    WellFormedIsSerializable(b.unknown, budget);
    var unknown := SetBytes(b.unknown);
    var count := Scalar(HAS_USER_COUNT in b.hasBits, 4, b.userCount);
    var index := Scalar(HAS_ROOM_INDEX in b.hasBits, 3, b.roomIndex);
    var list := ListBytes(b.userList);
    var id := Scalar(HAS_ID in b.hasBits, 1, b.id);
    var m1 := if HAS_ID in b.hasBits then SetScalar(m, 1, b.id) else m;
    var m2 := AddUsers(m1, b.userList);
    var m3 := if HAS_ROOM_INDEX in b.hasBits then SetScalar(m2, 3, b.roomIndex) else m2;
    var m4 := if HAS_USER_COUNT in b.hasBits then SetScalar(m3, 4, b.userCount) else m3;
    Append5(id, list, index, count, unknown, rest);
    ParseScalar(m, HAS_ID in b.hasBits, 1, b.id, list + (index + (count + (unknown + rest))), budget);
    ParseList(m1, b.userList, index + (count + (unknown + rest)), budget);
    ParseScalar(m2, HAS_ROOM_INDEX in b.hasBits, 3, b.roomIndex, count + (unknown + rest), budget);
    ParseScalar(m3, HAS_USER_COUNT in b.hasBits, 4, b.userCount, unknown + rest, budget);
    ParseUnknown(m4, b.unknown, rest, budget);
    MergeStepByStep(m, b);
  }

  /** Applying the fields of `b` one by one, in wire order, is merging it. */
  lemma MergeStepByStep(m: Room, b: Room)
    requires b.hasBits <= ALL_FIELDS
    ensures var m1 := if HAS_ID in b.hasBits then SetScalar(m, 1, b.id) else m;
            var m2 := AddUsers(m1, b.userList);
            var m3 := if HAS_ROOM_INDEX in b.hasBits then SetScalar(m2, 3, b.roomIndex) else m2;
            var m4 := if HAS_USER_COUNT in b.hasBits then SetScalar(m3, 4, b.userCount) else m3;
            AddUnknown(m4, b.unknown) == Merge(m, b)
  {
  }

  lemma Append5(a: seq<byte>, b: seq<byte>, c: seq<byte>, d: seq<byte>, e: seq<byte>, rest: seq<byte>)
    ensures (a + (b + (c + (d + e)))) + rest == a + (b + (c + (d + (e + rest))))
  {
    Assoc(a, b + (c + (d + e)), rest);
    Assoc(b, c + (d + e), rest);
    Assoc(c, d + e, rest);
    Assoc(d, e, rest);
  }

  // ----- Corollaries -------------------------------------------------------

  lemma ParseNothing(m: Room, budget: nat)
    ensures ParseAll(m, [], budget) == Parsed(m, [], true)
  {
  }

  /** Parsing into a message is exactly merging, to the last bit of state. */
  lemma ParseEncodedIsMerge(m: Room, b: Room, budget: nat)
    requires Good(b, budget)
    ensures Serializable(b.unknown)
    ensures ParseAll(m, Encode(b), budget) == Parsed(Merge(m, b), [], true)
  {
    ParseIsMerge(m, b, [], budget);
    assert Encode(b) + [] == Encode(b);
    ParseNothing(Merge(m, b), budget);
  }

  lemma MergeIntoEmpty(b: Room, budget: nat)
    requires Good(b, budget)
    ensures Merge(EMPTY, b) == b
  {
    assert [] + b.userList == b.userList;
    assert [] + b.unknown == b.unknown;
    assert EMPTY.hasBits + b.hasBits == b.hasBits;
  }

  lemma RoundTrip(b: Room, budget: nat)
    requires Good(b, budget)
    ensures Serializable(b.unknown)
    ensures ParseAll(EMPTY, Encode(b), budget) == Parsed(b, [], true)
  {
    ParseEncodedIsMerge(EMPTY, b, budget);
    MergeIntoEmpty(b, budget);
  }

  /** Concatenating two encodings encodes the merge. */
  lemma ConcatenationIsMerge(m: Room, a: Room, b: Room, budget: nat)
    requires Good(a, budget) && Good(b, budget)
    ensures Serializable(a.unknown) && Serializable(b.unknown)
    ensures ParseAll(m, Encode(a) + Encode(b), budget) == Parsed(Merge(Merge(m, a), b), [], true)
  {
    ParseEncodedIsMerge(Merge(m, a), b, budget);
    ParseIsMerge(m, a, Encode(b), budget);
  }

  /** Parsing any bytes at all, even to a failure, keeps a message good. */
  lemma {:induction false} ParseKeepsGood(m: Room, s: seq<byte>, budget: nat)
    requires Good(m, budget) && |s| <= INT_MAX
    ensures Good(ParseAll(m, s, budget).msg, budget)
    decreases |s|
  {
    StepKeepsGood(m, s, budget);
    match ParseStep(m, s, budget) {
      case Next(next, rest) => ParseKeepsGood(next, rest, budget);
      case _ =>
    }
  }

  lemma StepKeepsGood(m: Room, s: seq<byte>, budget: nat)
    requires Good(m, budget) && |s| <= INT_MAX
    ensures Good(ParseStep(m, s, budget).msg, budget)
  {
    var t := ReadTag(s);
    if t.tag != 0 && !KnownTag(t.tag) {
      SkipFieldWellFormed(t.rest, t.tag, budget);
    }
  }

  /** Whatever bytes were accepted, writing the result and parsing it again gives
      the same message. */
  lemma ReserializeIsStable(s: seq<byte>, budget: nat)
    requires |s| <= INT_MAX
    ensures var m := ParseAll(EMPTY, s, budget).msg;
            Serializable(m.unknown) && ParseAll(EMPTY, Encode(m), budget) == Parsed(m, [], true)
  {
    ParseKeepsGood(EMPTY, s, budget);
    RoundTrip(ParseAll(EMPTY, s, budget).msg, budget);
  }

  // ----- The packed form ---------------------------------------------------

  function PackedElements(list: seq<int32>): (s: seq<byte>)
  {
    if list == [] then [] else Varint(SignExtend(list[0])) + PackedElements(list[1..])
  }

  lemma {:induction false} ReadPackedBack(list: seq<int32>)
    ensures ReadPackedValues(PackedElements(list)) == Packed(true, list)
    decreases |list|
  {
    if list != [] {
      ReadInt32RoundTrip(list[0], PackedElements(list[1..]));
      ReadPackedBack(list[1..]);
    }
  }

  /** The packed form of the list, with a declared size of `size` bytes. */
  function PackedField(list: seq<int32>, size: uint64): (s: seq<byte>)
  {
    [PACKED_USER_LIST_TAG as byte] + (Varint(size) + PackedElements(list))
  }

  lemma PackedStep(m: Room, list: seq<int32>, size: uint64, rest: seq<byte>, budget: nat)
    requires |PackedElements(list)| <= size <= INT_MAX
    requires size == |PackedElements(list)| || rest == []
    ensures ParseStep(m, PackedField(list, size) + rest, budget) == Next(AddUsers(m, list), rest)
  {
    var p, e := Varint(size), PackedElements(list);
    PackedFieldSplit(list, size, rest);
    ReadTagOfVarint(PACKED_USER_LIST_TAG, p + (e + rest));
    VarintReadsBack(size, e + rest);
    ReadPackedBack(list);
    PackedSize(p, e, size, rest);
  }

  lemma PackedFieldSplit(list: seq<int32>, size: uint64, rest: seq<byte>)
    ensures PackedField(list, size) + rest
         == Varint(PACKED_USER_LIST_TAG) + (Varint(size) + (PackedElements(list) + rest))
  {
    Varint64Fits(PACKED_USER_LIST_TAG);
    Assoc([PACKED_USER_LIST_TAG as byte], Varint(size) + PackedElements(list), rest);
    Assoc(Varint(size), PackedElements(list), rest);
  }

  lemma PackedSize(p: seq<byte>, e: seq<byte>, size: uint64, rest: seq<byte>)
    requires |e| <= size <= INT_MAX && (size == |e| || rest == [])
    requires ReadVarint(p + (e + rest), MAX_VARINT_BYTES) == Read(size, |p|)
    ensures ReadPackedSize(p + (e + rest)) == Elements(e, rest)
  {
    SplitAt(p, e, rest);
    Drop(p, e + rest);
    if rest == [] {
      assert e + rest == e;
    }
  }

  /** Both encodings of a list are accepted and mean the same. */
  lemma PackedMeansTheSame(m: Room, list: seq<int32>, rest: seq<byte>, budget: nat)
    requires |PackedElements(list)| <= INT_MAX
    ensures ParseAll(m, PackedField(list, |PackedElements(list)|) + rest, budget)
         == ParseAll(m, ListBytes(list) + rest, budget)
  {
    var size := |PackedElements(list)|;
    PackedStep(m, list, size, rest, budget);
    Unfold(m, PackedField(list, size) + rest, AddUsers(m, list), rest, budget);
    ParseList(m, list, rest, budget);
  }

  /** A packed field at the end of the input may claim more bytes than there are:
      it is accepted as if the size had been right. */
  lemma PackedPastTheEnd(m: Room, list: seq<int32>, size: uint64, budget: nat)
    requires |PackedElements(list)| <= size <= INT_MAX
    ensures ParseAll(m, PackedField(list, size), budget) == Parsed(AddUsers(m, list), [], true)
  {
    PackedStep(m, list, size, [], budget);
    assert PackedField(list, size) + [] == PackedField(list, size);
    Unfold(m, PackedField(list, size), AddUsers(m, list), [], budget);
    ParseNothing(AddUsers(m, list), budget);
  }

  /** A varint ends at `s[i]` or at one of the nine bytes after it. */
  predicate EndsSoon(s: seq<byte>, i: nat)
  {
    exists j :: i <= j < |s| && j < i + MAX_VARINT_BYTES && s[j] < 128
  }

  /** The bytes are varints, the last one complete and none over ten bytes. */
  predicate WholeVarints(s: seq<byte>)
  {
    forall i :: 0 <= i < |s| ==> EndsSoon(s, i)
  }

  lemma {:induction false} ReadVarintEnds(s: seq<byte>, limit: nat)
    ensures ReadVarint(s, limit).Read? <==> exists j :: 0 <= j < |s| && j < limit && s[j] < 128
    ensures ReadVarint(s, limit).Read? ==> s[ReadVarint(s, limit).length - 1] < 128
  {
    if limit > 0 && s != [] && s[0] >= 128 {
      ReadVarintEnds(s[1..], limit - 1);
      assert forall j :: 0 < j < |s| ==> s[j] == s[1..][j - 1];
    }
  }

  lemma WholeVarintsRest(s: seq<byte>, n: nat)
    requires 1 <= n <= |s| && n <= MAX_VARINT_BYTES && s[n - 1] < 128
    ensures WholeVarints(s) <==> WholeVarints(s[n..])
  {
    if WholeVarints(s) {
      forall i | 0 <= i < |s[n..]| ensures EndsSoon(s[n..], i) {
        assert EndsSoon(s, i + n);
        var j :| i + n <= j < |s| && j < i + n + MAX_VARINT_BYTES && s[j] < 128;
        assert s[n..][j - n] == s[j];
      }
    }
    if WholeVarints(s[n..]) {
      forall i | 0 <= i < |s| ensures EndsSoon(s, i) {
        if i >= n {
          assert EndsSoon(s[n..], i - n);
          var j :| i - n <= j < |s[n..]| && j < i - n + MAX_VARINT_BYTES && s[n..][j] < 128;
          assert s[j + n] == s[n..][j];
        }
      }
    }
  }

  /** The elements of a packed field are read to the end exactly when its bytes are
      whole varints. */
  lemma {:induction false} WholeVarintsAreRead(s: seq<byte>)
    ensures ReadPackedValues(s).ok <==> WholeVarints(s)
    decreases |s|
  {
    ReadVarintEnds(s, MAX_VARINT_BYTES);
    match ReadInt32(s) {
      case NoInt32 => assert s != [] ==> !EndsSoon(s, 0);
      case Int32(_, rest) =>
        WholeVarintsRest(s, |s| - |rest|);
        WholeVarintsAreRead(rest);
    }
  }

  /** A packed field that claims more bytes than there are is refused exactly when its
      size does not fit an int or the bytes there are are not whole varints; otherwise it
      is read as if the size had been right. */
  lemma PackedOverrun(m: Room, s: seq<byte>, body: seq<byte>, size: uint64, n: nat, budget: nat)
    requires ReadTag(s) == TagRead(PACKED_USER_LIST_TAG, body)
    requires ReadVarint(body, MAX_VARINT_BYTES).Read? && ReadVarint(body, MAX_VARINT_BYTES).length == n
    requires size == Low64(ReadVarint(body, MAX_VARINT_BYTES).value) && size > |body| - n
    ensures ParseAll(m, s, budget).ParseError? <==> size > INT_MAX || !WholeVarints(body[n..])
    ensures var r := ParseAll(m, s, budget);
      r.Parsed? ==> r == Parsed(AddUsers(m, ReadPackedValues(body[n..]).values), [], true)
  {
    PackedOutcome(m, s, body, budget);
    WholeVarintsAreRead(body[n..]);
    if size <= INT_MAX {
      ParseNothing(AddUsers(m, ReadPackedValues(body[n..]).values), budget);
    }
  }

  // ----- Sizes -------------------------------------------------------------

  lemma Int32FieldLength(number: nat, v: int32)
    requires 1 <= number < 16
    ensures |Int32FieldBytes(number, v)| == 1 + Int32Size(v)
  {
    Varint64Fits(MakeTag(number, WIRETYPE_VARINT));
    Int32SizeIsLength(v);
  }

  /** What ByteSizeLong adds for an int32 field, whose tag takes one byte. */
  function ScalarSize(present: bool, v: int32): nat
  {
    if present then 1 + Int32Size(v) else 0
  }

  lemma ScalarLength(present: bool, number: nat, v: int32)
    requires 1 <= number < 16
    ensures |Scalar(present, number, v)| == ScalarSize(present, v)
  {
    Int32FieldLength(number, v);
  }

  /** The sum ByteSizeLong accumulates, part by part. */
  lemma EncodedLength(m: Room)
    requires Serializable(m.unknown)
    ensures |Encode(m)| == |SetBytes(m.unknown)| + |ListBytes(m.userList)|
                        + ScalarSize(HAS_ROOM_INDEX in m.hasBits, m.roomIndex)
                        + ScalarSize(HAS_ID in m.hasBits, m.id)
                        + ScalarSize(HAS_USER_COUNT in m.hasBits, m.userCount)
  {
    ScalarLength(HAS_ID in m.hasBits, 1, m.id);
    ScalarLength(HAS_ROOM_INDEX in m.hasBits, 3, m.roomIndex);
    ScalarLength(HAS_USER_COUNT in m.hasBits, 4, m.userCount);
  }

  // ----- Any fields, whole or cut short ----------------------------------------

  /** What one field does to a message, by its number and what it holds: an int32 is the
      low 32 bits of its varint, the last of several wins, elements append, and a field of
      another kind than its number's is unknown. */
  function WithField(m: Room, f: UnknownField): Room
  {
    match f
    case VarintField(1, v) => m.(hasBits := m.hasBits + {HAS_ID}, id := ToInt32(Low32(v)))
    case VarintField(2, v) => m.(userList := m.userList + [ToInt32(Low32(v))])
    case BytesField(2, d) => m.(userList := m.userList + ReadPackedValues(d).values)
    case VarintField(3, v) => m.(hasBits := m.hasBits + {HAS_ROOM_INDEX}, roomIndex := ToInt32(Low32(v)))
    case VarintField(4, v) => m.(hasBits := m.hasBits + {HAS_USER_COUNT}, userCount := ToInt32(Low32(v)))
    case _ => m.(unknown := m.unknown + [f])
  }

  function WithFields(m: Room, fs: seq<UnknownField>): Room
    decreases |fs|
  {
    if fs == [] then m else WithFields(WithField(m, fs[0]), fs[1..])
  }

  /** The packed form of the list. */
  predicate IsPacked(f: UnknownField)
  {
    f.BytesField? && f.number == 2
  }

  /** One field but the packed list, with its tag read. */
  lemma FieldOutcome(m: Room, f: UnknownField, s: seq<byte>, budget: nat)
    requires WellFormedField(f, budget) && SerializableField(f) && f.Tag() != 0 && !IsPacked(f)
    ensures var k := SkipField(s, f.Tag(), budget);
      !k.ok ==> ParseAll(m, Varint(f.Tag()) + s, budget).ParseError?
    ensures var k := SkipField(s, f.Tag(), budget);
      k == Skip(true, [f], k.rest, 0) ==> ParseAll(m, Varint(f.Tag()) + s, budget) == ParseAll(WithField(m, f), k.rest, budget)
  {
    if f.VarintField? && f.number in {1, 3, 4} {
      ScalarFieldOutcome(m, f, s, budget);
    } else if f.VarintField? && f.number == 2 {
      ElementFieldOutcome(m, f, s, budget);
    } else {
      OtherFieldOutcome(m, f, s, budget);
    }
  }

  lemma OtherTag(f: UnknownField)
    requires f.number <= MAX_FIELD_NUMBER && !IsPacked(f) && !(f.VarintField? && f.number in {1, 2, 3, 4})
    ensures !KnownTag(f.Tag())
  {
  }

  lemma OtherFieldOutcome(m: Room, f: UnknownField, s: seq<byte>, budget: nat)
    requires f.number <= MAX_FIELD_NUMBER && f.Tag() != 0
    requires !IsPacked(f) && !(f.VarintField? && f.number in {1, 2, 3, 4})
    ensures var k := SkipField(s, f.Tag(), budget);
      !k.ok ==> ParseAll(m, Varint(f.Tag()) + s, budget).ParseError?
    ensures var k := SkipField(s, f.Tag(), budget);
      k == Skip(true, [f], k.rest, 0) ==> ParseAll(m, Varint(f.Tag()) + s, budget) == ParseAll(WithField(m, f), k.rest, budget)
  {
    OtherTag(f);
    ReadTagOfVarint(f.Tag(), s);
    SkippedOutcome(m, Varint(f.Tag()) + s, f.Tag(), s, budget);
  }

  lemma ScalarFieldOutcome(m: Room, f: UnknownField, s: seq<byte>, budget: nat)
    requires f.VarintField? && f.number in {1, 3, 4}
    ensures var k := SkipField(s, f.Tag(), budget);
      !k.ok ==> ParseAll(m, Varint(f.Tag()) + s, budget).ParseError?
    ensures var k := SkipField(s, f.Tag(), budget);
      k == Skip(true, [f], k.rest, 0) ==> ParseAll(m, Varint(f.Tag()) + s, budget) == ParseAll(WithField(m, f), k.rest, budget)
  {
    ReadTagOfVarint(f.Tag(), s);
    SkippedInt32(s, f.Tag(), budget);
    ScalarOutcome(m, Varint(f.Tag()) + s, f.number, s, budget);
  }

  lemma ElementFieldOutcome(m: Room, f: UnknownField, s: seq<byte>, budget: nat)
    requires f.VarintField? && f.number == 2
    ensures var k := SkipField(s, f.Tag(), budget);
      !k.ok ==> ParseAll(m, Varint(f.Tag()) + s, budget).ParseError?
    ensures var k := SkipField(s, f.Tag(), budget);
      k == Skip(true, [f], k.rest, 0) ==> ParseAll(m, Varint(f.Tag()) + s, budget) == ParseAll(WithField(m, f), k.rest, budget)
  {
    ReadTagOfVarint(f.Tag(), s);
    SkippedInt32(s, f.Tag(), budget);
    ElementOutcome(m, Varint(f.Tag()) + s, s, budget);
  }

  /** The packed list: its bytes must be whole varints. */
  lemma PackedFieldStep(m: Room, f: UnknownField, rest: seq<byte>, budget: nat)
    requires IsPacked(f) && SerializableField(f) && WholeVarints(f.data)
    ensures ParseAll(m, FieldBytes(f) + rest, budget) == ParseAll(WithField(m, f), rest, budget)
  {
    var p := Varint(|f.data|);
    Assoc(Varint(f.Tag()), FieldBody(f), rest);
    Assoc(p, f.data, rest);
    ReadTagOfVarint(f.Tag(), FieldBody(f) + rest);
    VarintReadsBack(|f.data|, f.data + rest);
    PackedSize(p, f.data, |f.data|, rest);
    WholeVarintsAreRead(f.data);
    PackedOutcome(m, FieldBytes(f) + rest, FieldBody(f) + rest, budget);
  }

  lemma ParseField(m: Room, f: UnknownField, rest: seq<byte>, budget: nat)
    requires WellFormedField(f, budget) && (IsPacked(f) ==> WholeVarints(f.data))
    ensures SerializableField(f)
    ensures ParseAll(m, FieldBytes(f) + rest, budget) == ParseAll(WithField(m, f), rest, budget)
  {
    if IsPacked(f) {
      PackedFieldStep(m, f, rest, budget);
    } else {
      SkipFieldRoundTrip(f, rest, budget);
      Assoc(Varint(f.Tag()), FieldBody(f), rest);
      FieldOutcome(m, f, FieldBody(f) + rest, budget);
    }
  }

  /** Fields of any kind, in any order, any number of times: each does its work in turn. */
  lemma {:induction false} ParseFields(m: Room, fs: seq<UnknownField>, rest: seq<byte>, budget: nat)
    requires WellFormed(fs, budget) && forall f :: f in fs && IsPacked(f) ==> WholeVarints(f.data)
    ensures Serializable(fs)
    ensures ParseAll(m, SetBytes(fs) + rest, budget) == ParseAll(WithFields(m, fs), rest, budget)
    decreases |fs|
  {
    WellFormedIsSerializable(fs, budget);
    if fs == [] {
      assert SetBytes(fs) + rest == rest;
    } else {
      assert fs[0] in fs;
      Assoc(FieldBytes(fs[0]), SetBytes(fs[1..]), rest);
      ParseField(m, fs[0], SetBytes(fs[1..]) + rest, budget);
      ParseFields(WithField(m, fs[0]), fs[1..], rest, budget);
    }
  }

  /** The parse succeeded and used up the input, as ParseFromArray demands. */
  predicate Accepted(r: Parse<Room>)
  {
    r.Parsed? && r.atEnd
  }

  /** A tag cut short reads as the end of the input, which it is not. */
  lemma CutTag(m: Room, s: seq<byte>, budget: nat)
    requires s != [] && ReadTag(s).tag == 0
    ensures !Accepted(ParseAll(m, s, budget))
  {
    FinishedOutcome(m, s, ReadTag(s).rest, budget);
  }

  lemma CutBody(m: Room, f: UnknownField, s: seq<byte>, budget: nat)
    requires WellFormedField(f, budget) && !IsPacked(f) && SerializableField(f) && s <= FieldBody(f) && |s| < |FieldBody(f)|
    ensures ParseAll(m, Varint(f.Tag()) + s, budget).ParseError?
  {
    SkipFieldRoundTrip(f, [], budget);
    assert s == FieldBody(f)[..|s|];
    TruncatedField(f, |s|, budget);
    FieldOutcome(m, f, s, budget);
  }

  lemma CutField(m: Room, f: UnknownField, s: seq<byte>, budget: nat)
    requires WellFormedField(f, budget) && !IsPacked(f) && SerializableField(f) && s <= FieldBytes(f) && 0 < |s| < |FieldBytes(f)|
    ensures !Accepted(ParseAll(m, s, budget))
  {
    var t := Varint(f.Tag());
    PrefixSplit(t, FieldBody(f), s);
    if |s| < |t| {
      TruncatedTag(f.Tag(), |s|);
      CutTag(m, s, budget);
    } else {
      CutBody(m, f, s[|t|..], budget);
    }
  }

  lemma AfterFirst(m: Room, f: UnknownField, s: seq<byte>, rest: seq<byte>, budget: nat)
    requires WellFormedField(f, budget) && !IsPacked(f) && SerializableField(f) && s == FieldBytes(f) + rest
    ensures ParseAll(m, s, budget) == ParseAll(WithField(m, f), rest, budget)
  {
    ParseField(m, f, rest, budget);
  }

  /** Input without packed lists that is cut short is accepted exactly when the cut is
      between two fields. */
  lemma {:induction false} CutFields(m: Room, fs: seq<UnknownField>, s: seq<byte>, budget: nat)
    requires WellFormed(fs, budget) && Serializable(fs) && s <= SetBytes(fs)
    requires forall f :: f in fs ==> !IsPacked(f)
    ensures Accepted(ParseAll(m, s, budget)) <==> EndsField(fs, |s|)
    decreases |fs|
  {
    if s == [] {
      ParseNothing(m, budget);
    } else {
      FirstOfMany(fs, budget);
      assert fs[0] in fs;
      var n := |FieldBytes(fs[0])|;
      PrefixSplit(FieldBytes(fs[0]), SetBytes(fs[1..]), s);
      if |s| < n {
        CutField(m, fs[0], s, budget);
      } else {
        AfterFirst(m, fs[0], s, s[n..], budget);
        CutFields(WithField(m, fs[0]), fs[1..], s[n..], budget);
      }
    }
  }

  function ListFields(list: seq<int32>): seq<UnknownField>
  {
    if list == [] then [] else [VarintField(2, SignExtend(list[0]))] + ListFields(list[1..])
  }

  lemma {:induction false} ListIsFields(list: seq<int32>)
    ensures Serializable(ListFields(list)) && SetBytes(ListFields(list)) == ListBytes(list)
    ensures forall f :: f in ListFields(list) ==> f.VarintField? && f.number == 2
  {
    if list != [] {
      ListIsFields(list[1..]);
      assert FieldBytes(VarintField(2, SignExtend(list[0]))) == Int32FieldBytes(2, list[0]);
      assert ListFields(list)[1..] == ListFields(list[1..]);
    }
  }

  /** What a message is on the wire. */
  function WireFields(b: Room): seq<UnknownField>
  {
    (if HAS_ID in b.hasBits then [VarintField(1, SignExtend(b.id))] else [])
    + (ListFields(b.userList)
    + ((if HAS_ROOM_INDEX in b.hasBits then [VarintField(3, SignExtend(b.roomIndex))] else [])
    + ((if HAS_USER_COUNT in b.hasBits then [VarintField(4, SignExtend(b.userCount))] else [])
    + b.unknown)))
  }

  lemma EncodeIsFields(b: Room, budget: nat)
    requires Good(b, budget)
    ensures Serializable(b.unknown) && Serializable(WireFields(b))
    ensures Encode(b) == SetBytes(WireFields(b))
  {
    WellFormedIsSerializable(b.unknown, budget);
    var id := if HAS_ID in b.hasBits then [VarintField(1, SignExtend(b.id))] else [];
    var list := ListFields(b.userList);
    var index := if HAS_ROOM_INDEX in b.hasBits then [VarintField(3, SignExtend(b.roomIndex))] else [];
    var count := if HAS_USER_COUNT in b.hasBits then [VarintField(4, SignExtend(b.userCount))] else [];
    MaybeField(HAS_ID in b.hasBits, VarintField(1, SignExtend(b.id)));
    MaybeField(HAS_ROOM_INDEX in b.hasBits, VarintField(3, SignExtend(b.roomIndex)));
    MaybeField(HAS_USER_COUNT in b.hasBits, VarintField(4, SignExtend(b.userCount)));
    ListIsFields(b.userList);
    SetBytesOfTwo(count, b.unknown);
    SetBytesOfTwo(index, count + b.unknown);
    SetBytesOfTwo(list, index + (count + b.unknown));
    SetBytesOfTwo(id, list + (index + (count + b.unknown)));
  }

  lemma WireFieldsAreFields(b: Room, budget: nat)
    requires Good(b, budget)
    ensures WellFormed(WireFields(b), budget) && forall f :: f in WireFields(b) ==> !IsPacked(f)
  {
    ListIsFields(b.userList);
    forall f | f in b.unknown ensures !IsPacked(f) {
      assert f.number <= MAX_FIELD_NUMBER && !KnownTag(f.Tag());
    }
  }

  /** An encoding that is cut short is accepted exactly when it is cut between two
      fields. */
  lemma CutEncoding(m: Room, b: Room, k: nat, budget: nat)
    requires Good(b, budget)
    ensures Serializable(b.unknown) && Serializable(WireFields(b))
    ensures k <= |Encode(b)| ==>
      (Accepted(ParseAll(m, Encode(b)[..k], budget)) <==>
       exists j :: 0 <= j <= |WireFields(b)| && Serializable(WireFields(b)[..j]) && k == |SetBytes(WireFields(b)[..j])|)
  {
    EncodeIsFields(b, budget);
    WireFieldsAreFields(b, budget);
    if k <= |Encode(b)| {
      CutFields(m, WireFields(b), Encode(b)[..k], budget);
      EndsFieldMeans(WireFields(b), k);
    }
  }

  // ----- What is refused -------------------------------------------------------

  /** An unknown string that claims more bytes than there are, or a length that does not
      fit an int, is refused. */
  lemma OverlongUnknown(m: Room, number: nat, size: uint32, part: seq<byte>, budget: nat)
    requires number <= MAX_FIELD_NUMBER && number != 2 && |part| < size <= INT_MAX
    ensures ParseAll(m, Varint(MakeTag(number, 2)) + (Varint(size) + part), budget)
         == ParseError(WithField(m, BytesField(number, part)))
  {
    var tag, body := MakeTag(number, 2), Varint(size) + part;
    ReadTagOfVarint(tag, body);
    OverlongBytes(tag, size, part, budget);
    SkippedOutcome(m, Varint(tag) + body, tag, body, budget);
  }

  lemma OversizedUnknown(m: Room, number: nat, size: uint32, rest: seq<byte>, budget: nat)
    requires number <= MAX_FIELD_NUMBER && number != 2 && size > INT_MAX
    ensures ParseAll(m, Varint(MakeTag(number, 2)) + (Varint(size) + rest), budget)
         == ParseError(WithField(m, BytesField(number, [])))
  {
    var tag, body := MakeTag(number, 2), Varint(size) + rest;
    ReadTagOfVarint(tag, body);
    OversizedBytes(tag, size, rest, budget);
    SkippedOutcome(m, Varint(tag) + body, tag, body, budget);
  }

  /** An end-group tag outside a group, and wire types that do not exist, are refused. */
  lemma BadTag(m: Room, tag: uint32, rest: seq<byte>, budget: nat)
    requires tag % 8 in {4, 6, 7}
    ensures ParseAll(m, Varint(tag) + rest, budget) == ParseError(m)
  {
    ReadTagOfVarint(tag, rest);
    BadWireType(tag, rest, budget);
    SkippedOutcome(m, Varint(tag) + rest, tag, rest, budget);
    assert m.unknown + [] == m.unknown;
  }

  /** Groups nested deeper than the recursion limit are refused. */
  lemma DeepGroup(m: Room, f: UnknownField, rest: seq<byte>, budget: nat)
    requires Plain(f) && Depth(f) > budget
    ensures SerializableField(f) && ParseAll(m, FieldBytes(f) + rest, budget).ParseError?
  {
    TooDeep(f, rest, budget);
    TagIsNoEnd(f);
    Assoc(Varint(f.Tag()), FieldBody(f), rest);
    ReadTagOfVarint(f.Tag(), FieldBody(f) + rest);
    SkippedOutcome(m, FieldBytes(f) + rest, f.Tag(), FieldBody(f) + rest, budget);
  }

  /** A message byte by byte. */
  lemma Example()
    ensures Encode(Room(ALL_FIELDS, 150, [2, 5], 3, 4, [])) == [8, 150, 1] + ([16, 2] + [16, 5] + ([24, 3] + [32, 4]))
  {
    assert Varint(1) == [1];
    assert Varint(150) == [150, 1];
    assert SetBytes([]) == [];
    ListExample();
  }

  lemma ListExample()
    ensures ListBytes([2, 5]) == [16, 2] + [16, 5]
  {
    assert [2, 5][1..] == [5] && [5][1..] == [];
    assert ListBytes([5]) == [16, 5];
  }
}
