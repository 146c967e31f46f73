/** The generated class Room_List: its fields are updated in place, and each
    method is tied to the function of RoomCodec that says what it computes. */
module RoomMessage {
  import opened WireFormat
  import opened UnknownFields
  import opened CodedStream
  import opened RoomCodec

  class RoomList {
    var hasBits: set<nat>
    var id: int32
    var userList: seq<int32>
    var roomIndex: int32
    var userCount: int32
    var unknown: seq<UnknownField>
    var cachedSize: int32

    ghost function Value(): Room
      reads this
    {
      Room(hasBits, id, userList, roomIndex, userCount, unknown)
    }

    /** The class invariant. */
    ghost predicate Valid()
      reads this
    {
      Consistent(Value()) && Serializable(unknown)
    }

    constructor ()
      ensures Valid() && Value() == EMPTY
    {
      hasBits, id, userList, roomIndex, userCount := {}, 0, [], 0, 0;
      unknown, cachedSize := [], 0;
    }

    method Clear()
      requires Valid()
      modifies this
      ensures Valid() && Value() == EMPTY && cachedSize == old(cachedSize)
    {
      userList := [];
      assert hasBits * ALL_FIELDS == hasBits;
      if hasBits * ALL_FIELDS != {} {
        id, roomIndex, userCount := 0, 0, 0;
      }
      hasBits, unknown := {}, [];
    }

    method IsInitialized() returns (r: bool)
      ensures r <==> HAS_ROOM_INDEX in hasBits
    {
      if HAS_ROOM_INDEX !in hasBits { return false; }
      return true;
    }

    method MergeFrom(from: RoomList)
      requires Valid() && from.Valid() && from != this
      modifies this
      ensures Valid() && Value() == Merge(old(Value()), from.Value()) && cachedSize == old(cachedSize)
    {
      SerializableAppend(unknown, from.unknown);
      unknown := unknown + from.unknown;
      userList := userList + from.userList;
      var cachedHasBits := from.hasBits;
      assert cachedHasBits * ALL_FIELDS == cachedHasBits;
      if cachedHasBits * ALL_FIELDS != {} {
        if HAS_ID in cachedHasBits { id := from.id; }
        if HAS_ROOM_INDEX in cachedHasBits { roomIndex := from.roomIndex; }
        if HAS_USER_COUNT in cachedHasBits { userCount := from.userCount; }
        hasBits := hasBits + cachedHasBits;
      }
    }

    method CopyFrom(from: RoomList)
      requires Valid() && from.Valid()
      modifies this
      ensures Valid() && Value() == old(from.Value())
    {
      if from == this { return; }
      Clear();
      MergeFrom(from);
      assert [] + from.userList == from.userList && [] + from.unknown == from.unknown;
    }

    method InternalSwap(other: RoomList)
      requires other != this
      modifies this, other
      ensures Value() == old(other.Value()) && other.Value() == old(Value())
      ensures cachedSize == old(other.cachedSize) && other.cachedSize == old(cachedSize)
    {
      userList, other.userList := other.userList, userList;
      id, other.id := other.id, id;
      roomIndex, other.roomIndex := other.roomIndex, roomIndex;
      userCount, other.userCount := other.userCount, userCount;
      hasBits, other.hasBits := other.hasBits, hasBits;
      unknown, other.unknown := other.unknown, unknown;
      cachedSize, other.cachedSize := other.cachedSize, cachedSize;
    }

    // ----- Parsing -----------------------------------------------------------

    /** The parse loop. It computes ParseAll, although a run of unpacked list
        elements is read in an inner loop, as far as the reserved capacity goes. */
    method MergePartialFromCodedStream(input: CodedInputStream) returns (ok: bool, ghost atEnd: bool)
      requires Valid() && |input.rest| < INT_MAX
      modifies this, input
      ensures Valid() && cachedSize == old(cachedSize)
      ensures ParseAll(old(Value()), old(input.rest), input.budget)
           == if ok then Parsed(Value(), input.rest, atEnd) else ParseError(Value())
      ensures ok ==> input.legitimateEnd == (old(input.legitimateEnd) || atEnd)
    {
      ghost var whole := ParseAll(Value(), input.rest, input.budget);
      while true
        invariant Valid() && |input.rest| < INT_MAX && cachedSize == old(cachedSize)
        invariant ParseAll(Value(), input.rest, input.budget) == whole
        invariant input.legitimateEnd == old(input.legitimateEnd)
        decreases |input.rest|
      {
        atEnd := input.rest == [];
        var finished;
        ok, finished := ParseField(input);
        if !ok || finished { return; }
      }
    }

    /** One turn: the switch over the tag. */
    method ParseField(input: CodedInputStream) returns (ok: bool, finished: bool)
      requires Valid() && |input.rest| < INT_MAX
      modifies this, input
      ensures Valid() && cachedSize == old(cachedSize) && |input.rest| <= |old(input.rest)|
      ensures finished ==> ok
      ensures ok && !finished ==> |input.rest| < |old(input.rest)|
      ensures ok ==> input.legitimateEnd == (old(input.legitimateEnd) || old(input.rest) == [])
      ensures ParseAll(old(Value()), old(input.rest), input.budget)
           == if !ok then ParseError(Value())
              else if finished then Parsed(Value(), input.rest, old(input.rest) == [])
              else ParseAll(Value(), input.rest, input.budget)
    {
      ghost var s := input.rest;
      var tag, known := input.ReadTagWithCutoff(127);
      if tag == 0 {
        FinishedOutcome(Value(), s, input.rest, input.budget);
        return true, true;
      }
      finished := false;
      ok := ParseFieldBody(s, tag, known, input);
    }

    method ParseFieldBody(ghost s: seq<byte>, tag: uint32, known: bool, input: CodedInputStream) returns (ok: bool)
      requires Valid() && |input.rest| < INT_MAX
      requires tag != 0 && (known <==> tag <= 127) && ReadTag(s) == TagRead(tag, input.rest)
      modifies this, input
      ensures Valid() && cachedSize == old(cachedSize) && |input.rest| <= |old(input.rest)|
      ensures ok ==> input.legitimateEnd == old(input.legitimateEnd)
      ensures ParseAll(old(Value()), s, input.budget)
           == if ok then ParseAll(Value(), input.rest, input.budget) else ParseError(Value())
    {
      if known && tag / 8 == 1 && tag % 256 == ID_TAG {
        ScalarOutcome(Value(), s, 1, input.rest, input.budget);
        ok := ReadScalar(1, input);
      } else if known && tag / 8 == 2 && tag % 256 == USER_LIST_TAG {
        ElementOutcome(Value(), s, input.rest, input.budget);
        ok := ReadRepeated(input);
      } else if known && tag / 8 == 2 && tag % 256 == PACKED_USER_LIST_TAG {
        PackedOutcome(Value(), s, input.rest, input.budget);
        ok := ReadPacked(input);
      } else if known && tag / 8 == 3 && tag % 256 == ROOM_INDEX_TAG {
        ScalarOutcome(Value(), s, 3, input.rest, input.budget);
        ok := ReadScalar(3, input);
      } else if known && tag / 8 == 4 && tag % 256 == USER_COUNT_TAG {
        ScalarOutcome(Value(), s, 4, input.rest, input.budget);
        ok := ReadScalar(4, input);
      } else {
        SkippedOutcome(Value(), s, tag, input.rest, input.budget);
        ok := KeepUnknown(tag, input);
      }
    }

    /** The three int32 fields: the has-bit first, then the value. */
    method ReadScalar(number: nat, input: CodedInputStream) returns (ok: bool)
      requires Valid() && number in {1, 3, 4}
      modifies this`hasBits, this`id, this`roomIndex, this`userCount, input`rest
      ensures Valid() && |input.rest| <= |old(input.rest)|
      ensures ParseScalarBody(old(Value()), number, old(input.rest), input.budget)
           == if ok then ParseAll(Value(), input.rest, input.budget) else ParseError(Value())
    {
      ghost var m := Value();
      hasBits := hasBits + {if number == 1 then HAS_ID else if number == 3 then HAS_ROOM_INDEX else HAS_USER_COUNT};
      var v;
      ok, v := input.ReadInt32Value();
      if ok {
        match number {
          case 1 => id := v;
          case 3 => roomIndex := v;
          case _ => userCount := v;
        }
      }
      assert Value() == if ok then SetScalar(m, number, v) else SetHas(m, number);
    }

    method KeepUnknown(tag: uint32, input: CodedInputStream) returns (ok: bool)
      requires Valid() && tag != 0 && |input.rest| < INT_MAX
      modifies this`unknown, input
      ensures Valid() && |input.rest| <= |old(input.rest)|
      ensures ok ==> input.legitimateEnd == old(input.legitimateEnd)
      ensures ParseSkipBody(old(Value()), tag, old(input.rest), input.budget)
           == if ok then ParseAll(Value(), input.rest, input.budget) else ParseError(Value())
    {
      SkippedSerializable(input.rest, tag, input.budget);
      SerializableAppend(unknown, SkipField(input.rest, tag, input.budget).fields);
      ok, unknown := input.SkipUnknown(tag, unknown);
    }

    /** ReadRepeatedPrimitive, after the first tag: one element, and then as many
        more as there is reserved capacity for, as long as the same tag byte comes
        next. The capacity is whatever the array happens to have. */
    method ReadRepeated(input: CodedInputStream) returns (ok: bool)
      requires Valid()
      modifies this`userList, input`rest
      ensures |input.rest| <= |old(input.rest)|
      ensures ok ==> |input.rest| < |old(input.rest)|
      ensures ParseElementBody(old(Value()), old(input.rest), input.budget)
           == if ok then ParseAll(Value(), input.rest, input.budget) else ParseError(Value())
    {
      ghost var whole := ParseElementBody(Value(), input.rest, input.budget);
      var value;
      ok, value := input.ReadInt32Value();
      if !ok { return; }
      userList := userList + [value];
      var reserved: nat := *;
      while reserved > 0
        invariant |input.rest| < |old(input.rest)|
        invariant ParseAll(Value(), input.rest, input.budget) == whole
      {
        ghost var before := input.rest;
        var found := input.ExpectTag(USER_LIST_TAG);
        if !found { break; }
        ElementTag(Value(), before, input.budget);
        ok, value := input.ReadInt32Value();
        if !ok { return; }
        userList := userList + [value];
        reserved := reserved - 1;
      }
      ok := true;
    }

    /** ReadPackedPrimitive: elements until the pushed limit is reached, which cannot
        lie past the limit already in force. */
    method ReadPacked(input: CodedInputStream) returns (ok: bool)
      requires Valid()
      modifies this`userList, input`rest
      ensures |input.rest| <= |old(input.rest)|
      ensures ParsePackedBody(old(Value()), old(input.rest), input.budget)
           == if ok then ParseAll(Value(), input.rest, input.budget) else ParseError(Value())
    {
      ghost var m, s := Value(), input.rest;
      var size;
      ok, size := input.ReadVarintSizeAsInt();
      if !ok { return; }
      if size > |input.rest| { size := |input.rest|; }
      var inside, after := input.rest[..size], input.rest[size..];
      PackedSplit(s, input.rest, size);
      input.rest := after;
      var limited := new CodedInputStream(inside, input.budget);
      ok := ReadElements(limited);
      assert Value() == AddUsers(m, ReadPackedValues(inside).values);
    }

    /** The elements up to a limit. */
    method ReadElements(limited: CodedInputStream) returns (ok: bool)
      modifies this`userList, limited`rest
      ensures ok == ReadPackedValues(old(limited.rest)).ok
      ensures userList == old(userList) + ReadPackedValues(old(limited.rest)).values
    {
      ghost var inside := limited.rest;
      while limited.rest != []
        invariant ReadPackedValues(inside).ok == ReadPackedValues(limited.rest).ok
        invariant userList + ReadPackedValues(limited.rest).values == old(userList) + ReadPackedValues(inside).values
        decreases |limited.rest|
      {
        var read, value := limited.ReadInt32Value();
        if !read {
          assert userList + [] == userList;
          return false;
        }
        ghost var more := ReadPackedValues(limited.rest).values;
        assert userList + ([value] + more) == (userList + [value]) + more;
        userList := userList + [value];
      }
      assert userList + [] == userList;
      ok := true;
    }

    /** MessageLite::ParseFromArray: the whole array must be consumed, and every
        required field present. */
    method ParseFromArray(bytes: seq<byte>, budget: nat) returns (ok: bool)
      requires Valid() && |bytes| < INT_MAX
      modifies this
      ensures Valid() && Value() == ParseAll(EMPTY, bytes, budget).msg
      ensures ok <==> ParseAll(EMPTY, bytes, budget).Parsed? && ParseAll(EMPTY, bytes, budget).atEnd
                      && HAS_ROOM_INDEX in hasBits
    {
      var input := new CodedInputStream(bytes, budget);
      Clear();
      ghost var atEnd;
      ok, atEnd := MergePartialFromCodedStream(input);
      if !ok { return; }
      ok := IsInitialized();
      ok := ok && input.legitimateEnd;
    }

    // ----- Sizing and serializing --------------------------------------------

    method ByteSizeLong() returns (totalSize: nat)
      requires Valid()
      modifies this`cachedSize
      ensures totalSize == |Encode(Value())|
      ensures totalSize <= INT_MAX ==> cachedSize as int == totalSize
    {
      EncodedLength(Value());
      SetSizeIsLength(unknown);
      totalSize := SetSize(unknown);
      totalSize := totalSize + ScalarSize(HAS_ROOM_INDEX in hasBits, roomIndex);
      var dataSize := ListDataSize();
      totalSize := totalSize + |userList|;
      totalSize := totalSize + dataSize;
      totalSize := totalSize + ScalarSize(HAS_ID in hasBits, id);
      totalSize := totalSize + ScalarSize(HAS_USER_COUNT in hasBits, userCount);
      cachedSize := ToInt32(Low32(totalSize));
    }

    /** WireFormatLite::Int32Size: the list without its tags. */
    method ListDataSize() returns (dataSize: nat)
      ensures dataSize + |userList| == |ListBytes(userList)|
    {
      dataSize := 0;
      var i := 0;
      assert userList[0..] == userList;
      while i < |userList|
        invariant 0 <= i <= |userList|
        invariant dataSize + i + |ListBytes(userList[i..])| == |ListBytes(userList)|
      {
        assert userList[i..][1..] == userList[i + 1..];
        Int32FieldLength(2, userList[i]);
        dataSize := dataSize + Int32Size(userList[i]);
        i := i + 1;
      }
    }

    method SerializeWithCachedSizes(output: CodedOutputStream)
      requires Valid()
      modifies output
      ensures output.written == old(output.written) + Encode(Value())
    {
      ghost var start := output.written;
      ghost var p1 := Scalar(HAS_ID in hasBits, 1, id);
      ghost var p2 := ListBytes(userList);
      ghost var p3 := Scalar(HAS_ROOM_INDEX in hasBits, 3, roomIndex);
      ghost var p4 := Scalar(HAS_USER_COUNT in hasBits, 4, userCount);
      if HAS_ID in hasBits { output.WriteInt32(1, id); }
      assert output.written == start + p1;
      WriteList(output);
      if HAS_ROOM_INDEX in hasBits { output.WriteInt32(3, roomIndex); }
      assert output.written == start + p1 + p2 + p3;
      if HAS_USER_COUNT in hasBits { output.WriteInt32(4, userCount); }
      assert output.written == start + p1 + p2 + p3 + p4;
      if unknown != [] { output.WriteUnknownFields(unknown); }
      assert output.written == start + p1 + p2 + p3 + p4 + SetBytes(unknown);
      AppendLeft(start, p1, p2, p3, p4, SetBytes(unknown));
    }

    /** The loop over the list. */
    method WriteList(output: CodedOutputStream)
      modifies output
      ensures output.written == old(output.written) + ListBytes(userList)
    {
      var i, n := 0, |userList|;
      assert userList[0..] == userList;
      while i < n
        invariant 0 <= i <= n == |userList|
        invariant output.written + ListBytes(userList[i..]) == old(output.written) + ListBytes(userList)
      {
        assert userList[i..][1..] == userList[i + 1..];
        Assoc(output.written, Int32FieldBytes(2, userList[i]), ListBytes(userList[i + 1..]));
        output.WriteInt32(2, userList[i]);
        i := i + 1;
      }
      assert output.written + [] == output.written;
    }

    method InternalSerializeWithCachedSizesToArray(a: array<byte>, target: nat) returns (end: nat)
      requires Valid()
      requires target + |Encode(Value())| <= a.Length
      modifies a
      ensures end == target + |Encode(Value())|
      ensures a[..] == Splice(old(a[..]), target, Encode(Value()))
    {
      ghost var tail := AfterList(Value());
      SpliceThree(a[..], target, Scalar(HAS_ID in hasBits, 1, id), ListBytes(userList), tail);
      end := WriteScalarToArray(HAS_ID in hasBits, 1, id, a, target);
      end := WriteListToArray(a, end);
      end := WriteAfterListToArray(a, end);
    }

    method WriteAfterListToArray(a: array<byte>, target: nat) returns (end: nat)
      requires Valid()
      requires target + |AfterList(Value())| <= a.Length
      modifies a
      ensures end == target + |AfterList(Value())|
      ensures a[..] == Splice(old(a[..]), target, AfterList(Value()))
    {
      SpliceThree(a[..], target, Scalar(HAS_ROOM_INDEX in hasBits, 3, roomIndex),
                  Scalar(HAS_USER_COUNT in hasBits, 4, userCount), SetBytes(unknown));
      end := WriteScalarToArray(HAS_ROOM_INDEX in hasBits, 3, roomIndex, a, target);
      end := WriteScalarToArray(HAS_USER_COUNT in hasBits, 4, userCount, a, end);
      end := WriteUnknownToArray(a, end);
    }

    method WriteScalarToArray(present: bool, number: nat, v: int32, a: array<byte>, target: nat) returns (end: nat)
      requires number <= MAX_FIELD_NUMBER && target + |Scalar(present, number, v)| <= a.Length
      modifies a
      ensures end == target + |Scalar(present, number, v)|
      ensures a[..] == Splice(old(a[..]), target, Scalar(present, number, v))
    {
      end := target;
      if present { end := WriteInt32ToArray(number, v, a, end); }
    }

    method WriteUnknownToArray(a: array<byte>, target: nat) returns (end: nat)
      requires Serializable(unknown) && target + |SetBytes(unknown)| <= a.Length
      modifies a
      ensures end == target + |SetBytes(unknown)|
      ensures a[..] == Splice(old(a[..]), target, SetBytes(unknown))
    {
      end := target;
      if unknown != [] { end := SerializeUnknownToArray(unknown, a, end); }
    }

    method WriteListToArray(a: array<byte>, target: nat) returns (end: nat)
      requires target + |ListBytes(userList)| <= a.Length
      modifies a
      ensures end == target + |ListBytes(userList)|
      ensures a[..] == Splice(old(a[..]), target, ListBytes(userList))
    {
      ghost var after := Splice(a[..], target, ListBytes(userList));
      var i := 0;
      end := target;
      assert userList[0..] == userList;
      while i < |userList|
        invariant 0 <= i <= |userList|
        invariant end + |ListBytes(userList[i..])| == target + |ListBytes(userList)|
        invariant Splice(a[..], end, ListBytes(userList[i..])) == after
      {
        assert userList[i..][1..] == userList[i + 1..];
        SpliceTwice(a[..], end, Int32FieldBytes(2, userList[i]), ListBytes(userList[i + 1..]));
        end := WriteInt32ToArray(2, userList[i], a, end);
        i := i + 1;
      }
    }
  }

  /** The bytes of a packed field and the bytes after it. */
  lemma PackedSplit(s: seq<byte>, body: seq<byte>, size: nat)
    requires ReadVarint(s, MAX_VARINT_BYTES).Read? && body == s[ReadVarint(s, MAX_VARINT_BYTES).length..]
    requires var v := Low64(ReadVarint(s, MAX_VARINT_BYTES).value);
      v <= INT_MAX && size == if v > |body| then |body| else v
    ensures ReadPackedSize(s) == Elements(body[..size], body[size..])
  {
    SliceOfRest(s, ReadVarint(s, MAX_VARINT_BYTES).length, size);
    assert body[..|body|] == body;
  }

  lemma AppendLeft(s: seq<byte>, a: seq<byte>, b: seq<byte>, c: seq<byte>, d: seq<byte>, e: seq<byte>)
    ensures s + a + b + c + d + e == s + (a + (b + (c + (d + e))))
  {
    Assoc(s + a + b + c, d, e);
    Assoc(s + a + b, c, d + e);
    Assoc(s + a, b, c + (d + e));
    Assoc(s, a, b + (c + (d + e)));
  }

  /** The part of an encoding that follows the list. */
  ghost function AfterList(m: Room): (s: seq<byte>)
    requires Serializable(m.unknown)
    ensures Encode(m) == Scalar(HAS_ID in m.hasBits, 1, m.id) + (ListBytes(m.userList) + s)
  {
    Scalar(HAS_ROOM_INDEX in m.hasBits, 3, m.roomIndex)
    + (Scalar(HAS_USER_COUNT in m.hasBits, 4, m.userCount) + SetBytes(m.unknown))
  }
}
