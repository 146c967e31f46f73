/** The generated class User_Login. The accessors of its two string fields differ
    only in the field and the has-bit, so they are written once, by field number. */
module LoginMessage {
  import opened WireFormat
  import opened UnknownFields
  import opened CodedStream
  import opened LoginCodec
  import opened ArenaString

  class UserLogin {
    const heap: StringHeap
    const userId: ArenaStringPtr
    const password: ArenaStringPtr
    var hasBits: set<nat>
    var userPid: int32
    var unknown: seq<UnknownField>
    var cachedSize: int32

    function Field(number: nat): ArenaStringPtr
    {
      if number == 2 then userId else password
    }

    function Bit(number: nat): nat
    {
      if number == 2 then HAS_USER_ID else HAS_PASSWORD
    }

    ghost function Value(): Login
      reads this, userId, password, userId.ptr, password.ptr
    {
      Login(hasBits, userPid, userId.ptr.contents, password.ptr.contents, unknown)
    }

    /** The heap strings this message owns. */
    ghost function Owned(): set<StringCell>
      reads userId, password
    {
      userId.Owned(heap) + password.Owned(heap)
    }

    /** The class invariant: a set string bit means the pointer is not the shared
        default, a clear bit means the field reads empty or zero, and the two
        fields do not own the same heap string. */
    ghost predicate Valid()
      reads this, heap, heap.empty, userId, password, userId.ptr, password.ptr
    {
      && heap.Valid()
      && userId != password
      && Owned() <= heap.live
      && (userId.ptr == password.ptr ==> userId.ptr == heap.empty)
      && (HAS_USER_ID in hasBits ==> userId.ptr != heap.empty)
      && (HAS_PASSWORD in hasBits ==> password.ptr != heap.empty)
      && Consistent(Value())
      && Serializable(unknown)
    }

    /** Nothing leaks and nothing is taken from elsewhere: strings gained are new,
        and the live strings changed by exactly what this message gained and lost. */
    twostate predicate Settled()
      reads this, heap, userId, password
    {
      && fresh(Owned() - old(Owned()))
      && heap.live == (old(heap.live) - old(Owned())) + Owned()
    }

    constructor (heap: StringHeap)
      requires heap.Valid()
      ensures Valid() && Value() == EMPTY && this.heap == heap && Owned() == {}
      ensures fresh(userId) && fresh(password)
    {
      this.heap := heap;
      userId := new ArenaStringPtr(heap.empty);
      password := new ArenaStringPtr(heap.empty);
      hasBits, userPid, unknown, cachedSize := {}, 0, [], 0;
    }

    /** The copy constructor: the same bits, and strings of its own for the fields that
        are present. */
    constructor Copied(from: UserLogin)
      requires from.Valid()
      modifies from.heap
      ensures Valid() && Value() == old(from.Value()) && heap == from.heap
      ensures fresh(userId) && fresh(password) && fresh(Owned())
      ensures heap.live == old(from.heap.live) + Owned()
      ensures from.Valid() && from.Value() == old(from.Value()) && from.Owned() == old(from.Owned())
    {
      heap := from.heap;
      userId := new ArenaStringPtr(from.heap.empty);
      password := new ArenaStringPtr(from.heap.empty);
      hasBits, unknown, cachedSize, userPid := from.hasBits, from.unknown, 0, 0;
      new;
      CopyStrings(from);
      userPid := from.userPid;
    }

    /** Strings of its own for a message that has none yet, but has its bits. */
    method CopyStrings(from: UserLogin)
      requires from.Valid() && heap == from.heap && hasBits == from.hasBits && userId != password
      requires userId.ptr == heap.empty && password.ptr == heap.empty
      requires {userId, password} !! {from.userId, from.password}
      modifies userId, password, heap
      ensures heap.Valid() && fresh(Owned()) && heap.live == old(heap.live) + Owned()
      ensures userId.ptr == password.ptr ==> userId.ptr == heap.empty
      ensures HAS_USER_ID in hasBits ==> userId.ptr != heap.empty
      ensures HAS_PASSWORD in hasBits ==> password.ptr != heap.empty
      ensures userId.ptr.contents == from.userId.ptr.contents && password.ptr.contents == from.password.ptr.contents
      ensures from.Valid() && from.Value() == old(from.Value()) && from.Owned() == old(from.Owned())
    {
      if HAS_USER_ID in hasBits { userId.AssignWithDefault(heap, from.userId.ptr); }
      if HAS_PASSWORD in hasBits { password.AssignWithDefault(heap, from.password.ptr); }
    }

    // ----- Accessors ---------------------------------------------------------

    method SetUserPid(value: int32)
      requires Valid()
      modifies this
      ensures Valid() && Value() == SetPid(old(Value()), value) && Owned() == old(Owned())
    {
      hasBits := hasBits + {HAS_USER_PID};
      userPid := value;
    }

    method ClearUserPid()
      requires Valid()
      modifies this
      ensures Valid() && Owned() == old(Owned())
      ensures Value() == old(Value()).(userPid := 0, hasBits := old(hasBits) - {HAS_USER_PID})
    {
      userPid := 0;
      hasBits := hasBits - {HAS_USER_PID};
    }

    method SetStringField(number: nat, value: seq<byte>)
      requires Valid() && number in {2, 3}
      modifies this, Field(number), heap, Owned()
      ensures Valid() && Settled() && Value() == SetString(old(Value()), number, value)
    {
      hasBits := hasBits + {Bit(number)};
      Field(number).SetNoArena(heap, value);
    }

    /** The caller may write through the pointer; the string it sees at first is
        what the field held. */
    method MutableStringField(number: nat) returns (cell: StringCell)
      requires Valid() && number in {2, 3}
      modifies this, Field(number), heap
      ensures Valid() && Settled()
      ensures Value() == SetString(old(Value()), number, GetString(old(Value()), number))
      ensures cell == Field(number).ptr && cell in Owned()
      ensures Owned() - {cell} == old(Owned()) - {old(Field(number).ptr)}
    {
      hasBits := hasBits + {Bit(number)};
      cell := Field(number).MutableNoArena(heap);
    }

    /** The field's string passes to the caller, still live; the field reads empty. */
    method ReleaseStringField(number: nat) returns (released: StringCell?)
      requires Valid() && number in {2, 3}
      modifies this, Field(number)
      ensures Valid() && heap.live == old(heap.live)
      ensures Value() == SetString(old(Value()), number, []).(hasBits := old(hasBits) - {Bit(number)})
      ensures released == null <==> old(Field(number).ptr) == heap.empty
      ensures released != null ==> released in old(Owned()) && released.contents == GetString(old(Value()), number)
      ensures Owned() == old(Owned()) - {released}
    {
      hasBits := hasBits - {Bit(number)};
      released := Field(number).ReleaseNoArena(heap);
    }

    /** The field takes over a live string that no field owns. */
    method SetAllocatedStringField(number: nat, value: StringCell?)
      requires Valid() && number in {2, 3}
      requires value != null ==> value in heap.live && value !in Owned()
      modifies this, Field(number), heap
      ensures Valid()
      ensures Value() == if value == null then SetString(old(Value()), number, []).(hasBits := old(hasBits) - {Bit(number)})
                         else SetString(old(Value()), number, value.contents)
      ensures Owned() == (old(Owned()) - {old(Field(number).ptr)}) + (if value == null then {} else {value})
      ensures heap.live == old(heap.live) - old(Field(number).Owned(heap))
    {
      if value != null {
        hasBits := hasBits + {Bit(number)};
      } else {
        hasBits := hasBits - {Bit(number)};
      }
      Field(number).SetAllocatedNoArena(heap, value);
    }

    method ClearStringField(number: nat)
      requires Valid() && number in {2, 3}
      modifies this, Owned()
      ensures Valid() && Owned() == old(Owned()) && heap.live == old(heap.live)
      ensures Value() == SetString(old(Value()), number, []).(hasBits := old(hasBits) - {Bit(number)})
    {
      Field(number).ClearToEmptyNoArena(heap);
      hasBits := hasBits - {Bit(number)};
    }

    // ----- Whole-message operations ------------------------------------------

    /** The two messages share neither fields nor heap strings. */
    ghost predicate Apart(other: UserLogin)
      reads userId, password, other.userId, other.password
    {
      && other.heap == heap
      && {userId, password} !! {other.userId, other.password}
      && Owned() !! other.Owned()
    }

    method Clear()
      requires Valid()
      modifies this, Owned()
      ensures Valid() && Value() == EMPTY && Owned() == old(Owned()) && heap.live == old(heap.live)
    {
      if hasBits * {HAS_USER_ID, HAS_PASSWORD} != {} {
        if HAS_USER_ID in hasBits { userId.ptr.contents := []; }
        if HAS_PASSWORD in hasBits { password.ptr.contents := []; }
      }
      userPid := 0;
      hasBits, unknown := {}, [];
    }

    method MergeFrom(from: UserLogin)
      requires Valid() && from.Valid() && from != this && Apart(from)
      modifies this, userId, password, heap, Owned()
      ensures Valid() && Settled() && Value() == Merge(old(Value()), from.Value())
      ensures from.Valid() && from.Value() == old(from.Value()) && Apart(from)
    {
      MergeInParts(Value(), from.Value());
      MergeUnknown(from.unknown);
      MergeFields(from);
    }

    method MergeFields(from: UserLogin)
      requires Valid() && from.Valid() && from != this && Apart(from)
      modifies this, userId, password, heap, Owned()
      ensures Valid() && Settled() && Value() == MergedFields(old(Value()), from.Value())
      ensures from.Valid() && from.Value() == old(from.Value()) && Apart(from)
    {
      var cachedHasBits := from.hasBits;
      assert cachedHasBits * ALL_FIELDS == cachedHasBits;
      if cachedHasBits * ALL_FIELDS != {} {
        MergeStrings(from);
        MergePid(cachedHasBits, from.userPid);
      }
    }

    method MergeUnknown(fields: seq<UnknownField>)
      requires Valid() && Serializable(fields)
      modifies this`unknown
      ensures Valid() && Value() == AddUnknown(old(Value()), fields)
    {
      SerializableAppend(unknown, fields);
      unknown := unknown + fields;
    }

    method MergeStrings(from: UserLogin)
      requires Valid() && from.Valid() && from != this && Apart(from)
      modifies this`hasBits, userId, password, heap, Owned()
      ensures Valid() && Settled() && Value() == MergedStrings(old(Value()), from.Value())
      ensures from.Valid() && from.Value() == old(from.Value()) && Apart(from)
    {
      MergeString(HAS_USER_ID in from.hasBits, 2, from.userId.ptr);
      MergeString(HAS_PASSWORD in from.hasBits, 3, from.password.ptr);
    }

    /** One string field of a merge, if it is present, from a string that some other
        message owns. */
    method MergeString(present: bool, number: nat, value: StringCell)
      requires Valid() && number in {2, 3}
      requires present ==> value != heap.empty && value !in Owned()
      modifies this`hasBits, Field(number), heap, Owned()
      ensures Valid() && Settled()
      ensures Value() == if present then SetString(old(Value()), number, value.contents) else old(Value())
    {
      if present {
        hasBits := hasBits + {Bit(number)};
        Field(number).AssignWithDefault(heap, value);
      }
    }

    /** The int32 field of a merge, and the has-bits. */
    method MergePid(bits: set<nat>, value: int32)
      requires Valid() && bits <= hasBits + {HAS_USER_PID}
      modifies this`userPid, this`hasBits
      ensures Valid() && Value() == if HAS_USER_PID in bits then SetPid(old(Value()), value) else old(Value())
    {
      if HAS_USER_PID in bits { userPid := value; }
      hasBits := hasBits + bits;
      assert hasBits == if HAS_USER_PID in bits then old(hasBits) + {HAS_USER_PID} else old(hasBits);
    }

    method CopyFrom(from: UserLogin)
      requires Valid() && from.Valid() && (from != this ==> Apart(from))
      modifies this, userId, password, heap, Owned()
      ensures Valid() && Settled() && Value() == old(from.Value())
      ensures from != this ==> from.Valid() && from.Value() == old(from.Value()) && Apart(from)
    {
      if from == this { return; }
      Clear();
      MergeFrom(from);
      assert [] + from.unknown == from.unknown;
    }

    method InternalSwap(other: UserLogin)
      requires Valid() && other.Valid() && other != this && Apart(other)
      modifies this, userId, password, other, other.userId, other.password
      ensures Valid() && other.Valid() && Apart(other) && heap.live == old(heap.live)
      ensures Value() == old(other.Value()) && other.Value() == old(Value())
      ensures Owned() == old(other.Owned()) && other.Owned() == old(Owned())
      ensures cachedSize == old(other.cachedSize) && other.cachedSize == old(cachedSize)
    {
      userId.Swap(other.userId);
      password.Swap(other.password);
      userPid, other.userPid := other.userPid, userPid;
      hasBits, other.hasBits := other.hasBits, hasBits;
      unknown, other.unknown := other.unknown, unknown;
      cachedSize, other.cachedSize := other.cachedSize, cachedSize;
    }

    /** The destructor: every string the message owned is destroyed, no other. */
    method SharedDtor()
      requires Valid()
      modifies heap
      ensures heap.Valid() && heap.live == old(heap.live) - Owned()
    {
      userId.DestroyNoArena(heap);
      password.DestroyNoArena(heap);
    }

    // ----- Parsing -----------------------------------------------------------

    method MergePartialFromCodedStream(input: CodedInputStream) returns (ok: bool, ghost atEnd: bool)
      requires Valid() && |input.rest| < INT_MAX
      modifies this, userId, password, heap, Owned(), input
      ensures Valid() && Settled()
      ensures ParseAll(old(Value()), old(input.rest), input.budget)
           == if ok then Parsed(Value(), input.rest, atEnd) else ParseError(Value())
      ensures ok ==> input.legitimateEnd == (old(input.legitimateEnd) || atEnd)
    {
      ghost var whole := ParseAll(Value(), input.rest, input.budget);
      while true
        invariant Valid() && Settled() && |input.rest| < INT_MAX
        invariant ParseAll(Value(), input.rest, input.budget) == whole
        invariant input.legitimateEnd == old(input.legitimateEnd)
        decreases |input.rest|
      {
        atEnd := input.rest == [];
        var finished;
        ok, finished := ParseField(input);
        if !ok || finished { return; }
      }
    }

    /** One turn: the switch over the tag. */
    method ParseField(input: CodedInputStream) returns (ok: bool, finished: bool)
      requires Valid() && |input.rest| < INT_MAX
      modifies this, userId, password, heap, Owned(), input
      ensures Valid() && Settled() && |input.rest| <= |old(input.rest)|
      ensures finished ==> ok
      ensures ok && !finished ==> |input.rest| < |old(input.rest)|
      ensures ok ==> input.legitimateEnd == (old(input.legitimateEnd) || old(input.rest) == [])
      ensures ParseAll(old(Value()), old(input.rest), input.budget)
           == if !ok then ParseError(Value())
              else if finished then Parsed(Value(), input.rest, old(input.rest) == [])
              else ParseAll(Value(), input.rest, input.budget)
    {
      ghost var s := input.rest;
      var tag, known := input.ReadTagWithCutoff(127);
      if tag == 0 {
        FinishedOutcome(Value(), s, input.rest, input.budget);
        return true, true;
      }
      finished := false;
      ok := ParseFieldBody(s, tag, known, input);
    }

    method ParseFieldBody(ghost s: seq<byte>, tag: uint32, known: bool, input: CodedInputStream) returns (ok: bool)
      requires Valid() && |input.rest| < INT_MAX
      requires tag != 0 && (known <==> tag <= 127) && ReadTag(s) == TagRead(tag, input.rest)
      modifies this, userId, password, heap, Owned(), input
      ensures Valid() && Settled() && |input.rest| <= |old(input.rest)|
      ensures ok ==> input.legitimateEnd == old(input.legitimateEnd)
      ensures ParseAll(old(Value()), s, input.budget)
           == if ok then ParseAll(Value(), input.rest, input.budget) else ParseError(Value())
    {
      if known && tag / 8 == 1 && tag % 256 == USER_PID_TAG {
        PidOutcome(Value(), s, input.rest, input.budget);
        ok := ReadPidField(input);
      } else if known && tag / 8 == 2 && tag % 256 == USER_ID_TAG {
        StringOutcome(Value(), s, 2, input.rest, input.budget);
        ok := ReadStringField(2, input);
      } else if known && tag / 8 == 3 && tag % 256 == PASSWORD_TAG {
        StringOutcome(Value(), s, 3, input.rest, input.budget);
        ok := ReadStringField(3, input);
      } else {
        SkippedOutcome(Value(), s, tag, input.rest, input.budget);
        ok := KeepUnknown(tag, input);
      }
    }

    method ReadPidField(input: CodedInputStream) returns (ok: bool)
      requires Valid()
      modifies this, input`rest
      ensures Valid() && Owned() == old(Owned())
      ensures |input.rest| <= |old(input.rest)|
      ensures ParsePidBody(old(Value()), old(input.rest), input.budget)
           == if ok then ParseAll(Value(), input.rest, input.budget) else ParseError(Value())
    {
      hasBits := hasBits + {HAS_USER_PID};
      var v;
      ok, v := input.ReadInt32Value();
      if ok { userPid := v; }
    }

    /** ReadString(input, mutable_field()). */
    method ReadStringField(number: nat, input: CodedInputStream) returns (ok: bool)
      requires Valid() && number in {2, 3}
      modifies this, Field(number), heap, Owned(), input`rest
      ensures Valid() && Settled()
      ensures |input.rest| <= |old(input.rest)|
      ensures ParseStringBody(old(Value()), number, old(input.rest), input.budget)
           == if ok then ParseAll(Value(), input.rest, input.budget) else ParseError(Value())
    {
      var cell := MutableStringField(number);
      var contents;
      ok, contents := input.ReadStringValue(cell.contents);
      cell.contents := contents;
    }

    method KeepUnknown(tag: uint32, input: CodedInputStream) returns (ok: bool)
      requires Valid() && tag != 0 && |input.rest| < INT_MAX
      modifies this`unknown, input
      ensures Valid() && |input.rest| <= |old(input.rest)|
      ensures ok ==> input.legitimateEnd == old(input.legitimateEnd)
      ensures ParseSkipBody(old(Value()), tag, old(input.rest), input.budget)
           == if ok then ParseAll(Value(), input.rest, input.budget) else ParseError(Value())
    {
      SkippedSerializable(input.rest, tag, input.budget);
      SerializableAppend(unknown, SkipField(input.rest, tag, input.budget).fields);
      ok, unknown := input.SkipUnknown(tag, unknown);
    }

    /** MessageLite::ParseFromArray: the whole array must be consumed; no field is
        required. */
    method ParseFromArray(bytes: seq<byte>, budget: nat) returns (ok: bool)
      requires Valid() && |bytes| < INT_MAX
      modifies this, userId, password, heap, Owned()
      ensures Valid() && Settled() && Value() == ParseAll(EMPTY, bytes, budget).msg
      ensures ok <==> ParseAll(EMPTY, bytes, budget).Parsed? && ParseAll(EMPTY, bytes, budget).atEnd
    {
      var input := new CodedInputStream(bytes, budget);
      Clear();
      ghost var atEnd;
      ok, atEnd := MergePartialFromCodedStream(input);
      ok := ok && input.legitimateEnd;
    }

    // ----- Sizing and serializing --------------------------------------------

    method ByteSizeLong() returns (totalSize: nat)
      requires Valid() && Writable(Value())
      modifies this`cachedSize
      ensures totalSize == |Encode(Value())|
      ensures totalSize <= INT_MAX ==> cachedSize as int == totalSize
    {
      totalSize := SetSize(unknown);
      SetSizeIsLength(unknown);
      assert hasBits * ALL_FIELDS == hasBits;
      if hasBits * ALL_FIELDS != {} {
        if HAS_USER_ID in hasBits {
          totalSize := totalSize + 1 + StringSize(userId.ptr.contents);
        }
        if HAS_PASSWORD in hasBits {
          totalSize := totalSize + 1 + StringSize(password.ptr.contents);
        }
        if HAS_USER_PID in hasBits {
          totalSize := totalSize + 1 + Int32Size(userPid);
        }
      }
      EncodedLength(Value());
      cachedSize := ToInt32(Low32(totalSize));
    }

    method SerializeWithCachedSizes(output: CodedOutputStream)
      requires Valid() && Writable(Value())
      modifies output
      ensures output.written == old(output.written) + Encode(Value())
    {
      ghost var start := output.written;
      ghost var m := Value();
      ghost var p1 := PidBytes(m);
      ghost var p2 := StringBytes(HAS_USER_ID in hasBits, 2, m.userId);
      ghost var p3 := StringBytes(HAS_PASSWORD in hasBits, 3, m.password);
      if HAS_USER_PID in hasBits { output.WriteInt32(1, userPid); }
      assert output.written == start + p1;
      if HAS_USER_ID in hasBits { output.WriteString(2, userId.ptr.contents); }
      assert output.written == start + p1 + p2;
      if HAS_PASSWORD in hasBits { output.WriteString(3, password.ptr.contents); }
      assert output.written == start + p1 + p2 + p3;
      if unknown != [] { output.WriteUnknownFields(unknown); }
      assert output.written == start + p1 + p2 + p3 + SetBytes(unknown);
      AppendLeft(start, p1, p2, p3, SetBytes(unknown));
    }

    method InternalSerializeWithCachedSizesToArray(a: array<byte>, target: nat) returns (end: nat)
      requires Valid() && Writable(Value())
      requires target + |Encode(Value())| <= a.Length
      modifies a
      ensures end == target + |Encode(Value())|
      ensures a[..] == Splice(old(a[..]), target, Encode(Value()))
    {
      ghost var m := Value();
      SpliceTwice(a[..], target, PidBytes(m), AfterPid(m));
      end := WritePidToArray(a, target);
      end := WriteAfterPidToArray(a, end);
    }

    method WriteAfterPidToArray(a: array<byte>, target: nat) returns (end: nat)
      requires Valid() && Writable(Value())
      requires target + |AfterPid(Value())| <= a.Length
      modifies a
      ensures end == target + |AfterPid(Value())|
      ensures a[..] == Splice(old(a[..]), target, AfterPid(Value()))
    {
      SpliceThree(a[..], target, StringBytes(HAS_USER_ID in hasBits, 2, userId.ptr.contents),
                  StringBytes(HAS_PASSWORD in hasBits, 3, password.ptr.contents), SetBytes(unknown));
      end := WriteStringFieldToArray(HAS_USER_ID in hasBits, 2, userId.ptr.contents, a, target);
      end := WriteStringFieldToArray(HAS_PASSWORD in hasBits, 3, password.ptr.contents, a, end);
      end := WriteUnknownToArray(a, end);
    }

    method WritePidToArray(a: array<byte>, target: nat) returns (end: nat)
      requires target + |PidBytes(Value())| <= a.Length
      modifies a
      ensures end == target + |PidBytes(Value())|
      ensures a[..] == Splice(old(a[..]), target, PidBytes(Value()))
    {
      end := target;
      if HAS_USER_PID in hasBits { end := WriteInt32ToArray(1, userPid, a, end); }
    }

    method WriteStringFieldToArray(present: bool, number: nat, data: seq<byte>, a: array<byte>, target: nat) returns (end: nat)
      requires number in {2, 3} && |data| <= INT_MAX
      requires target + |StringBytes(present, number, data)| <= a.Length
      modifies a
      ensures end == target + |StringBytes(present, number, data)|
      ensures a[..] == Splice(old(a[..]), target, StringBytes(present, number, data))
    {
      end := target;
      if present { end := WriteStringToArray(number, data, a, end); }
    }

    method WriteUnknownToArray(a: array<byte>, target: nat) returns (end: nat)
      requires Serializable(unknown) && target + |SetBytes(unknown)| <= a.Length
      modifies a
      ensures end == target + |SetBytes(unknown)|
      ensures a[..] == Splice(old(a[..]), target, SetBytes(unknown))
    {
      end := target;
      if unknown != [] { end := SerializeUnknownToArray(unknown, a, end); }
    }
  }

  /** The part of an encoding that follows the int32 field. */
  ghost function AfterPid(m: Login): (s: seq<byte>)
    requires Writable(m)
    ensures Encode(m) == PidBytes(m) + s
  {
    StringBytes(HAS_USER_ID in m.hasBits, 2, m.userId)
    + (StringBytes(HAS_PASSWORD in m.hasBits, 3, m.password) + SetBytes(m.unknown))
  }

  lemma AppendLeft(s: seq<byte>, a: seq<byte>, b: seq<byte>, c: seq<byte>, d: seq<byte>)
    ensures s + a + b + c + d == s + (a + (b + (c + d)))
  {
    Assoc(s + a + b, c, d);
    Assoc(s + a, b, c + d);
    Assoc(s, a, b + (c + d));
  }
}
