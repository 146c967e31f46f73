/** Runs: any sequence of operations on any number of User_Login messages that
    share the string heap, including strings handed out and taken back. */
module StringOwnership {
  import opened WireFormat
  import opened CodedStream
  import opened LoginCodec
  import opened LoginMessage
  import opened ArenaString

  type Owners = map<UserLogin, set<StringCell>>

  ghost function AllOwned(own: Owners): set<StringCell>
  {
    set m, c | m in own && c in own[m] :: c
  }

  /** No heap string has two owners, and the live strings are exactly the owned
      ones and the loose ones, which were released to the program: nothing leaks,
      nothing dangles. */
  ghost predicate Ledger(own: Owners, loose: set<StringCell>, live: set<StringCell>)
  {
    && (forall m, n :: m in own && n in own && m != n ==> own[m] !! own[n])
    && (forall m :: m in own ==> own[m] !! loose)
    && live == AllOwned(own) + loose
  }

  /** Strings gained are new; the live strings change by what was gained and lost. */
  ghost predicate LedgerMoves(om: set<StringCell>, om': set<StringCell>, loose: set<StringCell>, loose': set<StringCell>,
                              live: set<StringCell>, live': set<StringCell>)
  {
    && om' !! loose' && (om' + loose' - om - loose) !! live
    && live' == (live - om - loose) + om' + loose'
  }

  /** A step in which the message `m` and the program exchange strings, destroy some of
      theirs and make new ones keeps the ledger. */
  lemma LedgerStep(own: Owners, loose: set<StringCell>, live: set<StringCell>, m: UserLogin,
                   om: set<StringCell>, loose': set<StringCell>, live': set<StringCell>)
    requires Ledger(own, loose, live) && m in own && LedgerMoves(own[m], om, loose, loose', live, live')
    ensures Ledger(own[m := om], loose', live')
  {
    var own' := own[m := om];
    forall k | k in own && k != m
      ensures own[k] !! own[m] && own[k] !! loose && own[k] !! om && own[k] !! loose' && own[k] <= live
    {
      assert forall c :: c in own[k] ==> c in AllOwned(own);
    }
    forall c ensures c in live' <==> c in AllOwned(own') + loose' {
      if c in AllOwned(own') {
        var k: UserLogin :| k in own' && c in own'[k];
        if k != m { assert c in own[k]; }
      }
      if c in live' && c !in om && c !in loose' {
        var k: UserLogin :| k in own && c in own[k];
        assert k in own' && c in own'[k];
      }
      if c in om { assert m in own' && c in own'[m]; }
    }
  }

  /** The strings each message owns. */
  ghost function Owned(ms: set<UserLogin>): Owners
    reads set m | m in ms :: m.userId, set m | m in ms :: m.password
  {
    map m | m in ms :: m.Owned()
  }

  ghost predicate Members(heap: StringHeap, ms: set<UserLogin>)
    reads heap, heap.empty, ms
    reads set m | m in ms :: m.userId, set m | m in ms :: m.password
    reads set m | m in ms :: m.userId.ptr, set m | m in ms :: m.password.ptr
  {
    && heap.Valid()
    && (forall m :: m in ms ==> m.heap == heap && m.Valid())
    && FieldsApart(ms)
  }

  ghost predicate FieldsApart(ms: set<UserLogin>)
  {
    forall m, n :: m in ms && n in ms && m != n ==> {m.userId, m.password} !! {n.userId, n.password}
  }

  ghost predicate World(heap: StringHeap, ms: set<UserLogin>, loose: set<StringCell>)
    reads heap, heap.empty, ms
    reads set m | m in ms :: m.userId, set m | m in ms :: m.password
    reads set m | m in ms :: m.userId.ptr, set m | m in ms :: m.password.ptr
  {
    && Members(heap, ms)
    && Ledger(Owned(ms), loose, heap.live)
  }

  lemma MembersAreApart(heap: StringHeap, ms: set<UserLogin>, loose: set<StringCell>, m: UserLogin, k: UserLogin)
    requires World(heap, ms, loose) && m in ms && k in ms && k != m
    ensures m.Apart(k) && m.Owned() !! loose && k.Owned() !! loose
  {
    assert Owned(ms)[m] == m.Owned() && Owned(ms)[k] == k.Owned();
  }

  lemma OwnedAfter(ms: set<UserLogin>, own: Owners, m: UserLogin)
    requires m in ms && own.Keys == ms && forall k :: k in ms && k != m ==> k.Owned() == own[k]
    ensures Owned(ms) == own[m := m.Owned()]
  {
    forall k | k in ms ensures Owned(ms)[k] == own[m := m.Owned()][k] { }
  }

  lemma MemberOwnsApart(heap: StringHeap, ms: set<UserLogin>, loose: set<StringCell>, m: UserLogin)
    requires World(heap, ms, loose) && m in ms
    ensures m.Owned() !! loose && m.Owned() <= heap.live && loose <= heap.live
  {
    assert Owned(ms)[m] == m.Owned();
  }

  /** The world after a step of `m`, by what it owned and owns. */
  lemma WorldAfter(heap: StringHeap, ms: set<UserLogin>, own: Owners, loose: set<StringCell>, live: set<StringCell>,
                   m: UserLogin, loose': set<StringCell>)
    requires Members(heap, ms) && m in ms && own.Keys == ms && Ledger(own, loose, live)
    requires forall k :: k in ms && k != m ==> k.Owned() == own[k]
    requires LedgerMoves(own[m], m.Owned(), loose, loose', live, heap.live)
    ensures World(heap, ms, loose')
  {
    OwnedAfter(ms, own, m);
    LedgerStep(own, loose, live, m, m.Owned(), loose', heap.live);
  }

  // ----- One message -----------------------------------------------------------

  datatype Operation =
    | SetValue(number: nat, value: seq<byte>)
    | WriteThrough(number: nat, value: seq<byte>)
    | Release(number: nat)
    | SetAllocated(number: nat, cell: StringCell?)
    | ClearString(number: nat)
    | SetUserPid(pid: int32)
    | ClearPid
    | Clear
    | Parse(bytes: seq<byte>, budget: nat)
    | MergeParse(bytes: seq<byte>, budget: nat)

  /** Fields are 2 and 3; only a string in the program's hands is handed over. */
  predicate Sensible(op: Operation, loose: set<StringCell>)
  {
    match op
    case SetValue(number, _) => number in {2, 3}
    case WriteThrough(number, _) => number in {2, 3}
    case Release(number) => number in {2, 3}
    case SetAllocated(number, cell) => number in {2, 3} && (cell != null ==> cell in loose)
    case ClearString(number) => number in {2, 3}
    case Parse(bytes, _) => |bytes| < INT_MAX
    case MergeParse(bytes, _) => |bytes| < INT_MAX
    case _ => true
  }

  function Unset(v: Login, number: nat): Login
  {
    SetString(v, number, []).(hasBits := v.hasBits - {if number == 2 then HAS_USER_ID else HAS_PASSWORD})
  }

  /** What an operation makes of a message's value; `given` is what the string handed
      over holds. */
  function Applied(v: Login, op: Operation, given: seq<byte>): Login
  {
    match op
    case SetValue(number, value) => SetString(v, number, value)
    case WriteThrough(number, value) => SetString(v, number, value)
    case Release(number) => Unset(v, number)
    case SetAllocated(number, cell) => if cell == null then Unset(v, number) else SetString(v, number, given)
    case ClearString(number) => Unset(v, number)
    case SetUserPid(pid) => SetPid(v, pid)
    case ClearPid => v.(userPid := 0, hasBits := v.hasBits - {HAS_USER_PID})
    case Clear => EMPTY
    case Parse(bytes, budget) => ParseAll(EMPTY, bytes, budget).msg
    case MergeParse(bytes, budget) => ParseAll(v, bytes, budget).msg
  }

  function Given(op: Operation): seq<byte>
    reads if op.SetAllocated? && op.cell != null then {op.cell} else {}
  {
    if op.SetAllocated? && op.cell != null then op.cell.contents else []
  }

  predicate HandedOut(released: StringCell?, number: nat, before: Login)
    reads released
  {
    if released == null then !HasString(before, number) && GetString(before, number) == []
    else released.contents == GetString(before, number)
  }

  predicate HasString(v: Login, number: nat)
  {
    (if number == 2 then HAS_USER_ID else HAS_PASSWORD) in v.hasBits
  }

  /** The string handed out, if any: by a release only, with what the field held; a
      release that hands out nothing is of a field that was not set and read empty. */
  predicate Released(op: Operation, released: StringCell?, before: Login)
    reads released
  {
    if op.Release? then HandedOut(released, op.number, before)
    else released == null
  }

  /** What the program holds afterwards. */
  function LooseAfter(loose: set<StringCell>, op: Operation, released: StringCell?): set<StringCell>
  {
    if released != null then loose + {released}
    else if op.SetAllocated? && op.cell != null then loose - {op.cell}
    else loose
  }

  method Apply(m: UserLogin, op: Operation, ghost loose: set<StringCell>) returns (released: StringCell?)
    requires m.Valid() && m.Owned() !! loose && loose <= m.heap.live && Sensible(op, loose)
    modifies m, m.userId, m.password, m.heap, m.Owned()
    ensures m.Valid()
    ensures LedgerMoves(old(m.Owned()), m.Owned(), loose, LooseAfter(loose, op, released), old(m.heap.live), m.heap.live)
    ensures fresh(m.Owned() - old(m.Owned()) - loose)
    ensures released != null ==> released in old(m.Owned()) && released !in loose
    ensures m.Value() == Applied(old(m.Value()), op, old(Given(op)))
    ensures Released(op, released, old(m.Value()))
    ensures forall c :: c in loose ==> c.contents == old(c.contents)
  {
    released := null;
    match op
    case SetUserPid(pid) => m.SetUserPid(pid);
    case ClearPid => m.ClearUserPid();
    case Clear => m.Clear();
    case Parse(bytes, budget) => var ok := m.ParseFromArray(bytes, budget);
    case MergeParse(bytes, budget) => ParseInto(m, bytes, budget);
    case _ => released := ApplyToField(m, op, loose);
  }

  /** The operations on one string field. */
  method ApplyToField(m: UserLogin, op: Operation, ghost loose: set<StringCell>) returns (released: StringCell?)
    requires m.Valid() && m.Owned() !! loose && loose <= m.heap.live && Sensible(op, loose)
    requires op.SetValue? || op.WriteThrough? || op.Release? || op.SetAllocated? || op.ClearString?
    modifies m, m.userId, m.password, m.heap, m.Owned()
    ensures m.Valid()
    ensures LedgerMoves(old(m.Owned()), m.Owned(), loose, LooseAfter(loose, op, released), old(m.heap.live), m.heap.live)
    ensures fresh(m.Owned() - old(m.Owned()) - loose)
    ensures released != null ==> released in old(m.Owned()) && released !in loose
    ensures m.Value() == Applied(old(m.Value()), op, old(Given(op)))
    ensures Released(op, released, old(m.Value()))
    ensures forall c :: c in loose ==> c.contents == old(c.contents)
  {
    released := null;
    if op.Release? || op.SetAllocated? {
      released := Exchange(m, op, loose);
    } else {
      Write(m, op, loose);
    }
  }

  /** Strings pass between the message and the program. */
  method Exchange(m: UserLogin, op: Operation, ghost loose: set<StringCell>) returns (released: StringCell?)
    requires m.Valid() && m.Owned() !! loose && loose <= m.heap.live && Sensible(op, loose)
    requires op.Release? || op.SetAllocated?
    modifies m, m.userId, m.password, m.heap, m.Owned()
    ensures m.Valid()
    ensures LedgerMoves(old(m.Owned()), m.Owned(), loose, LooseAfter(loose, op, released), old(m.heap.live), m.heap.live)
    ensures fresh(m.Owned() - old(m.Owned()) - loose)
    ensures released != null ==> released in old(m.Owned()) && released !in loose
    ensures m.Value() == Applied(old(m.Value()), op, old(Given(op)))
    ensures Released(op, released, old(m.Value()))
    ensures forall c :: c in loose ==> c.contents == old(c.contents)
  {
    released := null;
    match op
    case Release(number) => released := ReleaseTo(m, number, loose);
    case SetAllocated(number, cell) => Take(m, number, cell, loose);
  }

  method ReleaseTo(m: UserLogin, number: nat, ghost loose: set<StringCell>) returns (released: StringCell?)
    requires m.Valid() && m.Owned() !! loose && loose <= m.heap.live && number in {2, 3}
    modifies m, m.Field(number)
    ensures m.Valid() && m.Owned() <= old(m.Owned()) && m.Value() == Unset(old(m.Value()), number)
    ensures LedgerMoves(old(m.Owned()), m.Owned(), loose, if released == null then loose else loose + {released},
                        old(m.heap.live), m.heap.live)
    ensures released != null ==> released in old(m.Owned()) && released !in loose
    ensures HandedOut(released, number, old(m.Value()))
  {
    released := m.ReleaseStringField(number);
  }

  method Take(m: UserLogin, number: nat, cell: StringCell?, ghost loose: set<StringCell>)
    requires m.Valid() && m.Owned() !! loose && loose <= m.heap.live && number in {2, 3}
    requires cell != null ==> cell in loose
    modifies m, m.Field(number), m.heap
    ensures m.Valid() && m.Owned() <= old(m.Owned()) + loose
    ensures m.Value() == if cell == null then Unset(old(m.Value()), number) else SetString(old(m.Value()), number, cell.contents)
    ensures LedgerMoves(old(m.Owned()), m.Owned(), loose, if cell == null then loose else loose - {cell},
                        old(m.heap.live), m.heap.live)
  {
    m.SetAllocatedStringField(number, cell);
  }

  method Write(m: UserLogin, op: Operation, ghost loose: set<StringCell>)
    requires m.Valid() && m.Owned() !! loose && loose <= m.heap.live && Sensible(op, loose)
    requires op.SetValue? || op.WriteThrough? || op.ClearString?
    modifies m, m.userId, m.password, m.heap, m.Owned()
    ensures m.Valid()
    ensures LedgerMoves(old(m.Owned()), m.Owned(), loose, loose, old(m.heap.live), m.heap.live)
    ensures fresh(m.Owned() - old(m.Owned()) - loose)
    ensures m.Value() == Applied(old(m.Value()), op, old(Given(op)))
    ensures forall c :: c in loose ==> c.contents == old(c.contents)
  {
    match op
    case SetValue(number, value) => m.SetStringField(number, value);
    case WriteThrough(number, value) => WriteThroughPointer(m, number, value);
    case ClearString(number) => m.ClearStringField(number);
  }

  method WriteThroughPointer(m: UserLogin, number: nat, value: seq<byte>)
    requires m.Valid() && number in {2, 3}
    modifies m, m.Field(number), m.heap, m.Owned()
    ensures m.Valid() && m.Settled() && m.Value() == SetString(old(m.Value()), number, value)
  {
    var cell := m.MutableStringField(number);
    cell.contents := value;
  }

  /** A parse that does not clear the message first. */
  method ParseInto(m: UserLogin, bytes: seq<byte>, budget: nat)
    requires m.Valid() && |bytes| < INT_MAX
    modifies m, m.userId, m.password, m.heap, m.Owned()
    ensures m.Valid() && m.Settled() && m.Value() == ParseAll(old(m.Value()), bytes, budget).msg
  {
    var input := new CodedInputStream(bytes, budget);
    ghost var atEnd;
    var ok;
    ok, atEnd := m.MergePartialFromCodedStream(input);
  }

  // ----- Many messages ---------------------------------------------------------

  /** One operation on one of any number of messages. The others keep their values and
      their strings. */
  method Step(heap: StringHeap, ghost ms: set<UserLogin>, m: UserLogin, op: Operation, ghost loose: set<StringCell>)
    returns (released: StringCell?)
    requires World(heap, ms, loose) && m in ms && Sensible(op, loose)
    modifies m, m.userId, m.password, heap, m.Owned()
    ensures World(heap, ms, LooseAfter(loose, op, released))
    ensures fresh(m.Owned() - old(m.Owned()) - loose)
    ensures released != null ==> released in old(m.Owned()) && released !in loose
    ensures m.Value() == Applied(old(m.Value()), op, old(Given(op)))
    ensures Released(op, released, old(m.Value()))
    ensures forall k :: k in ms && k != m ==> k.Owned() == old(k.Owned()) && k.Value() == old(k.Value())
    ensures forall c :: c in loose ==> c.contents == old(c.contents)
  {
    ghost var own: Owners := Owned(ms);
    ghost var live := heap.live;
    released := StepOf(heap, ms, m, op, loose);
    WorldAfter(heap, ms, own, loose, live, m, LooseAfter(loose, op, released));
  }

  method StepOf(heap: StringHeap, ghost ms: set<UserLogin>, m: UserLogin, op: Operation, ghost loose: set<StringCell>)
    returns (released: StringCell?)
    requires World(heap, ms, loose) && m in ms && Sensible(op, loose)
    modifies m, m.userId, m.password, heap, m.Owned()
    ensures Members(heap, ms)
    ensures LedgerMoves(old(m.Owned()), m.Owned(), loose, LooseAfter(loose, op, released), old(heap.live), heap.live)
    ensures fresh(m.Owned() - old(m.Owned()) - loose)
    ensures released != null ==> released in old(m.Owned()) && released !in loose
    ensures m.Value() == Applied(old(m.Value()), op, old(Given(op)))
    ensures Released(op, released, old(m.Value()))
    ensures forall k :: k in ms && k != m ==> k.Owned() == old(k.Owned()) && k.Value() == old(k.Value())
    ensures forall c :: c in loose ==> c.contents == old(c.contents)
  {
    forall k | k in ms - {m} ensures Beside(m, k, loose) { MembersAreApart(heap, ms, loose, m, k); }
    MemberOwnsApart(heap, ms, loose, m);
    released := ApplyBeside(m, op, loose, ms - {m});
    forall k | k in ms && k != m ensures k.Valid() && k.Owned() == old(k.Owned()) && k.Value() == old(k.Value()) {
      assert k in ms - {m};
    }
  }

  /** `k` is a message that a step of `m` must leave alone. */
  ghost predicate Beside(m: UserLogin, k: UserLogin, loose: set<StringCell>)
    reads k, k.heap, k.heap.empty, k.userId, k.password, k.userId.ptr, k.password.ptr, m.userId, m.password
  {
    k != m && k.Valid() && m.Apart(k) && k.Owned() !! loose
  }

  method ApplyBeside(m: UserLogin, op: Operation, ghost loose: set<StringCell>, ghost others: set<UserLogin>)
    returns (released: StringCell?)
    requires m.Valid() && m.Owned() !! loose && loose <= m.heap.live && Sensible(op, loose)
    requires forall k :: k in others ==> Beside(m, k, loose)
    modifies m, m.userId, m.password, m.heap, m.Owned()
    ensures m.Valid()
    ensures LedgerMoves(old(m.Owned()), m.Owned(), loose, LooseAfter(loose, op, released), old(m.heap.live), m.heap.live)
    ensures fresh(m.Owned() - old(m.Owned()) - loose)
    ensures released != null ==> released in old(m.Owned()) && released !in loose
    ensures m.Value() == Applied(old(m.Value()), op, old(Given(op)))
    ensures Released(op, released, old(m.Value()))
    ensures forall k :: k in others ==> k.Valid() && k.Owned() == old(k.Owned()) && k.Value() == old(k.Value())
    ensures forall c :: c in loose ==> c.contents == old(c.contents)
  {
    released := Apply(m, op, loose);
    forall k | k in others ensures k.Valid() && k.Owned() == old(k.Owned()) {
      assert old(Beside(m, k, loose)) && k.Value() == old(k.Value());
    }
  }

  // ----- Two messages ----------------------------------------------------------

  /** MergeFrom, or CopyFrom, which also allows a message to be copied to itself. */
  method Combine(heap: StringHeap, ghost ms: set<UserLogin>, m: UserLogin, from: UserLogin, copy: bool, ghost loose: set<StringCell>)
    requires World(heap, ms, loose) && m in ms && from in ms && (from == m ==> copy)
    modifies m, m.userId, m.password, heap, m.Owned()
    ensures World(heap, ms, loose)
    ensures fresh(m.Owned() - old(m.Owned()))
    ensures m.Value() == if copy then old(from.Value()) else Merge(old(m.Value()), old(from.Value()))
    ensures forall k :: k in ms && k != m ==> k.Owned() == old(k.Owned()) && k.Value() == old(k.Value())
    ensures forall c :: c in loose ==> c.contents == old(c.contents)
  {
    ghost var own: Owners := Owned(ms);
    ghost var live := heap.live;
    CombineOf(heap, ms, m, from, copy, loose);
    WorldAfter(heap, ms, own, loose, live, m, loose);
  }

  method CombineOf(heap: StringHeap, ghost ms: set<UserLogin>, m: UserLogin, from: UserLogin, copy: bool, ghost loose: set<StringCell>)
    requires World(heap, ms, loose) && m in ms && from in ms && (from == m ==> copy)
    modifies m, m.userId, m.password, heap, m.Owned()
    ensures Members(heap, ms)
    ensures LedgerMoves(old(m.Owned()), m.Owned(), loose, loose, old(heap.live), heap.live)
    ensures fresh(m.Owned() - old(m.Owned()))
    ensures m.Value() == if copy then old(from.Value()) else Merge(old(m.Value()), old(from.Value()))
    ensures forall k :: k in ms && k != m ==> k.Owned() == old(k.Owned()) && k.Value() == old(k.Value())
    ensures forall c :: c in loose ==> c.contents == old(c.contents)
  {
    forall k | k in ms - {m} ensures Beside(m, k, loose) { MembersAreApart(heap, ms, loose, m, k); }
    MemberOwnsApart(heap, ms, loose, m);
    CombineBeside(m, from, copy, loose, ms - {m});
    forall k | k in ms && k != m ensures k.Valid() && k.Owned() == old(k.Owned()) && k.Value() == old(k.Value()) {
      assert k in ms - {m};
    }
  }

  method CombineBeside(m: UserLogin, from: UserLogin, copy: bool, ghost loose: set<StringCell>, ghost others: set<UserLogin>)
    requires m.Valid() && m.Owned() !! loose && loose <= m.heap.live
    requires (from == m && copy) || (from in others && Beside(m, from, loose))
    requires forall k :: k in others ==> Beside(m, k, loose)
    modifies m, m.userId, m.password, m.heap, m.Owned()
    ensures m.Valid() && LedgerMoves(old(m.Owned()), m.Owned(), loose, loose, old(m.heap.live), m.heap.live)
    ensures fresh(m.Owned() - old(m.Owned()))
    ensures m.Value() == if copy then old(from.Value()) else Merge(old(m.Value()), old(from.Value()))
    ensures forall k :: k in others ==> k.Valid() && k.Owned() == old(k.Owned()) && k.Value() == old(k.Value())
    ensures forall c :: c in loose ==> c.contents == old(c.contents)
  {
    CombineTwo(m, from, copy, loose);
    forall k | k in others ensures k.Valid() && k.Owned() == old(k.Owned()) {
      assert old(Beside(m, k, loose)) && k.Value() == old(k.Value());
    }
  }

  method CombineTwo(m: UserLogin, from: UserLogin, copy: bool, ghost loose: set<StringCell>)
    requires m.Valid() && m.Owned() !! loose && loose <= m.heap.live
    requires (from == m && copy) || (from != m && from.Valid() && m.Apart(from))
    modifies m, m.userId, m.password, m.heap, m.Owned()
    ensures m.Valid() && LedgerMoves(old(m.Owned()), m.Owned(), loose, loose, old(m.heap.live), m.heap.live)
    ensures fresh(m.Owned() - old(m.Owned()))
    ensures m.Value() == if copy then old(from.Value()) else Merge(old(m.Value()), old(from.Value()))
    ensures forall c :: c in loose ==> c.contents == old(c.contents)
  {
    if copy { m.CopyFrom(from); } else { m.MergeFrom(from); }
  }

  /** Exchanging the strings of two messages keeps the ledger. */
  lemma LedgerSwap(own: Owners, loose: set<StringCell>, live: set<StringCell>, m: UserLogin, n: UserLogin)
    requires Ledger(own, loose, live) && m in own && n in own && m != n
    ensures Ledger(own[m := own[n]][n := own[m]], loose, live)
  {
    var own' := own[m := own[n]][n := own[m]];
    forall c ensures c in AllOwned(own') <==> c in AllOwned(own) {
      if c in AllOwned(own') {
        var k: UserLogin :| k in own' && c in own'[k];
        if k == m { assert c in own[n]; } else if k == n { assert c in own[m]; } else { assert c in own[k]; }
      }
      if c in AllOwned(own) {
        var k: UserLogin :| k in own && c in own[k];
        if k == m { assert c in own'[n]; } else if k == n { assert c in own'[m]; } else { assert c in own'[k]; }
      }
    }
  }

  method Swap(heap: StringHeap, ghost ms: set<UserLogin>, m: UserLogin, n: UserLogin, ghost loose: set<StringCell>)
    requires World(heap, ms, loose) && m in ms && n in ms && m != n
    modifies m, m.userId, m.password, n, n.userId, n.password
    ensures World(heap, ms, loose) && m.Owned() == old(n.Owned()) && n.Owned() == old(m.Owned())
    ensures m.Value() == old(n.Value()) && n.Value() == old(m.Value())
    ensures forall k :: k in ms && k != m && k != n ==> k.Owned() == old(k.Owned()) && k.Value() == old(k.Value())
    ensures forall c :: c in loose ==> c.contents == old(c.contents)
  {
    ghost var own: Owners := Owned(ms);
    SwapOf(heap, ms, m, n, loose);
    WorldSwapped(heap, ms, own, loose, m, n);
  }

  lemma WorldSwapped(heap: StringHeap, ms: set<UserLogin>, own: Owners, loose: set<StringCell>, m: UserLogin, n: UserLogin)
    requires Members(heap, ms) && own.Keys == ms && Ledger(own, loose, heap.live)
    requires m in ms && n in ms && m != n && m.Owned() == own[n] && n.Owned() == own[m]
    requires forall k :: k in ms && k != m && k != n ==> k.Owned() == own[k]
    ensures World(heap, ms, loose)
  {
    LedgerSwap(own, loose, heap.live, m, n);
    OwnedSwapped(ms, own, m, n);
  }

  lemma OwnedSwapped(ms: set<UserLogin>, own: Owners, m: UserLogin, n: UserLogin)
    requires m in ms && n in ms && m != n && own.Keys == ms && m.Owned() == own[n] && n.Owned() == own[m]
    requires forall k :: k in ms && k != m && k != n ==> k.Owned() == own[k]
    ensures Owned(ms) == own[m := own[n]][n := own[m]]
  {
    forall k | k in ms ensures Owned(ms)[k] == own[m := own[n]][n := own[m]][k] { }
  }

  method SwapOf(heap: StringHeap, ghost ms: set<UserLogin>, m: UserLogin, n: UserLogin, ghost loose: set<StringCell>)
    requires World(heap, ms, loose) && m in ms && n in ms && m != n
    modifies m, m.userId, m.password, n, n.userId, n.password
    ensures Members(heap, ms) && m.Owned() == old(n.Owned()) && n.Owned() == old(m.Owned())
    ensures m.Value() == old(n.Value()) && n.Value() == old(m.Value())
    ensures forall k :: k in ms && k != m && k != n ==> k.Owned() == old(k.Owned()) && k.Value() == old(k.Value())
    ensures forall c :: c in loose ==> c.contents == old(c.contents)
  {
    ghost var others := ms - {m, n};
    BesideBoth(heap, ms, loose, m, n, others);
    SwapBeside(m, n, loose, others);
    forall k | k in ms && k != m && k != n ensures k.Valid() && k.Owned() == old(k.Owned()) && k.Value() == old(k.Value()) {
      assert k in others;
    }
  }

  lemma BesideBoth(heap: StringHeap, ms: set<UserLogin>, loose: set<StringCell>, m: UserLogin, n: UserLogin, others: set<UserLogin>)
    requires World(heap, ms, loose) && m in ms && n in ms && m != n && others == ms - {m, n}
    ensures m.Apart(n) && forall k :: k in others ==> Beside(m, k, loose) && Beside(n, k, loose)
  {
    forall k | k in others ensures Beside(m, k, loose) && Beside(n, k, loose) {
      MembersAreApart(heap, ms, loose, m, k);
      MembersAreApart(heap, ms, loose, n, k);
    }
    MembersAreApart(heap, ms, loose, m, n);
  }

  method SwapBeside(m: UserLogin, n: UserLogin, ghost loose: set<StringCell>, ghost others: set<UserLogin>)
    requires m.Valid() && n.Valid() && m != n && m.Apart(n)
    requires forall k :: k in others ==> Beside(m, k, loose) && Beside(n, k, loose)
    modifies m, m.userId, m.password, n, n.userId, n.password
    ensures m.heap.Valid() && m.Valid() && n.Valid() && m.Owned() == old(n.Owned()) && n.Owned() == old(m.Owned())
    ensures m.Value() == old(n.Value()) && n.Value() == old(m.Value())
    ensures forall k :: k in others ==> k.Valid() && k.Owned() == old(k.Owned()) && k.Value() == old(k.Value())
    ensures forall c :: c in loose ==> c.contents == old(c.contents)
  {
    m.InternalSwap(n);
    forall k | k in others ensures k.Valid() && k.Owned() == old(k.Owned()) {
      assert old(Beside(m, k, loose) && Beside(n, k, loose)) && k.Value() == old(k.Value());
    }
  }

  // ----- Making and destroying --------------------------------------------------

  method Create(heap: StringHeap, ghost ms: set<UserLogin>, ghost loose: set<StringCell>) returns (m: UserLogin)
    requires World(heap, ms, loose)
    ensures World(heap, ms + {m}, loose) && fresh(m) && fresh(m.userId) && fresh(m.password) && m.Owned() == {} && m.Value() == EMPTY
    ensures forall k :: k in ms ==> k.Owned() == old(k.Owned()) && k.Value() == old(k.Value())
  {
    ghost var own: Owners := Owned(ms);
    m := CreateOf(heap, ms);
    WorldWith(heap, ms, own, loose, heap.live, m);
  }

  /** The copy constructor, from any message. */
  method CreateCopy(heap: StringHeap, ghost ms: set<UserLogin>, from: UserLogin, ghost loose: set<StringCell>)
    returns (m: UserLogin, ghost gained: set<object>)
    requires World(heap, ms, loose) && from in ms
    modifies heap
    ensures World(heap, ms + {m}, loose) && m !in ms && fresh(gained)
    ensures m in gained && m.userId in gained && m.password in gained && m.Owned() <= gained
    ensures m.Value() == old(from.Value())
    ensures forall k :: k in ms ==> k.Owned() == old(k.Owned()) && k.Value() == old(k.Value())
    ensures forall c :: c in loose ==> c.contents == old(c.contents)
  {
    MemberOwnsApart(heap, ms, loose, from);
    ghost var own: Owners := Owned(ms);
    ghost var live := heap.live;
    m, gained := CopyOf(heap, ms, from);
    WorldWith(heap, ms, own, loose, live, m);
  }

  /** The world with one more message, which owns nothing that was live before. */
  lemma WorldWith(heap: StringHeap, ms: set<UserLogin>, own: Owners, loose: set<StringCell>, live: set<StringCell>, m: UserLogin)
    requires Members(heap, ms + {m}) && m !in ms && own.Keys == ms && Ledger(own, loose, live)
    requires m.Owned() !! live && heap.live == live + m.Owned()
    requires forall k :: k in ms ==> k.Owned() == own[k]
    ensures World(heap, ms + {m}, loose)
  {
    LedgerAdd(own, loose, live, m, m.Owned());
    OwnedAdded(ms, own, m);
  }

  lemma OwnedAdded(ms: set<UserLogin>, own: Owners, m: UserLogin)
    requires m !in ms && own.Keys == ms && forall k :: k in ms ==> k.Owned() == own[k]
    ensures Owned(ms + {m}) == own[m := m.Owned()]
  {
    forall k | k in ms + {m} ensures Owned(ms + {m})[k] == own[m := m.Owned()][k] { }
  }

  method CreateOf(heap: StringHeap, ghost ms: set<UserLogin>) returns (m: UserLogin)
    requires Members(heap, ms)
    ensures Members(heap, ms + {m}) && fresh(m) && fresh(m.userId) && fresh(m.password) && m.Owned() == {} && m.Value() == EMPTY
    ensures forall k :: k in ms ==> k.Owned() == old(k.Owned()) && k.Value() == old(k.Value())
  {
    m := new UserLogin(heap);
    forall k | k in ms ensures k.Valid() && k.Owned() == old(k.Owned()) {
      assert k.Value() == old(k.Value());
    }
  }

  method CopyOf(heap: StringHeap, ghost ms: set<UserLogin>, from: UserLogin)
    returns (m: UserLogin, ghost gained: set<object>)
    requires Members(heap, ms) && from in ms
    modifies heap
    ensures Members(heap, ms + {m}) && m !in ms && fresh(gained) && fresh(m.Owned())
    ensures m in gained && m.userId in gained && m.password in gained && m.Owned() <= gained
    ensures m.Value() == old(from.Value())
    ensures heap.live == old(heap.live) + m.Owned()
    ensures forall k :: k in ms ==> k.Owned() == old(k.Owned()) && k.Value() == old(k.Value())
  {
    m, gained := CopyBeside(from, ms);
  }

  method CopyBeside(from: UserLogin, ghost others: set<UserLogin>) returns (m: UserLogin, ghost gained: set<object>)
    requires from.Valid() && forall k :: k in others ==> k.Valid() && k.heap == from.heap
    modifies from.heap
    ensures m.Valid() && m.heap == from.heap && m.Value() == old(from.Value()) && m !in others
    ensures fresh(gained) && fresh(m.userId) && fresh(m.password) && fresh(m.Owned())
    ensures m in gained && m.userId in gained && m.password in gained && m.Owned() <= gained
    ensures m.heap.live == old(from.heap.live) + m.Owned()
    ensures forall k :: k in others ==> k.Valid() && k.Owned() == old(k.Owned()) && k.Value() == old(k.Value())
  {
    m, gained := NewCopy(from);
    forall k | k in others ensures k.Valid() && k.Owned() == old(k.Owned()) {
      assert k.Value() == old(k.Value());
    }
  }

  method NewCopy(from: UserLogin) returns (m: UserLogin, ghost gained: set<object>)
    requires from.Valid()
    modifies from.heap
    ensures m.Valid() && m.heap == from.heap && m.Value() == old(from.Value())
    ensures fresh(gained) && fresh(m) && fresh(m.userId) && fresh(m.password) && fresh(m.Owned())
    ensures m in gained && m.userId in gained && m.password in gained && m.Owned() <= gained
    ensures m.heap.live == old(from.heap.live) + m.Owned()
  {
    m := new UserLogin.Copied(from);
    gained := {m, m.userId, m.password} + m.Owned();
  }

  lemma LedgerAdd(own: Owners, loose: set<StringCell>, live: set<StringCell>, m: UserLogin, om: set<StringCell>)
    requires Ledger(own, loose, live) && m !in own && om !! live
    ensures Ledger(own[m := om], loose, live + om)
  {
    var own' := own[m := om];
    forall k | k in own ensures own[k] <= live {
      assert forall c :: c in own[k] ==> c in AllOwned(own);
    }
    forall c ensures c in AllOwned(own') <==> c in AllOwned(own) || c in om {
      if c in AllOwned(own) {
        var k: UserLogin :| k in own && c in own[k];
        assert c in own'[k];
      }
      if c in om { assert c in own'[m]; }
    }
  }

  method Destroy(heap: StringHeap, ghost ms: set<UserLogin>, m: UserLogin, ghost loose: set<StringCell>)
    requires World(heap, ms, loose) && m in ms
    modifies heap
    ensures World(heap, ms - {m}, loose)
    ensures forall k :: k in ms - {m} ==> k.Owned() == old(k.Owned()) && k.Value() == old(k.Value())
    ensures forall c :: c in loose ==> c.contents == old(c.contents)
  {
    MemberOwnsApart(heap, ms, loose, m);
    ghost var own: Owners := Owned(ms);
    LedgerRemove(own, loose, heap.live, m);
    DestroyOf(heap, ms, m, loose);
    OwnedRemoved(ms, own, m);
  }

  lemma OwnedRemoved(ms: set<UserLogin>, own: Owners, m: UserLogin)
    requires m in ms && own.Keys == ms && forall k :: k in ms && k != m ==> k.Owned() == own[k]
    ensures Owned(ms - {m}) == own - {m}
  {
    forall k | k in ms - {m} ensures Owned(ms - {m})[k] == (own - {m})[k] { }
  }

  method DestroyOf(heap: StringHeap, ghost ms: set<UserLogin>, m: UserLogin, ghost loose: set<StringCell>)
    requires World(heap, ms, loose) && m in ms
    modifies heap
    ensures Members(heap, ms - {m}) && heap.live == old(heap.live) - old(m.Owned())
    ensures forall k :: k in ms && k != m ==> k.Owned() == old(k.Owned()) && k.Value() == old(k.Value())
  {
    forall k | k in ms - {m} ensures Beside(m, k, loose) { MembersAreApart(heap, ms, loose, m, k); }
    m.SharedDtor();
    forall k | k in ms - {m} ensures k.Valid() && k.Owned() == old(k.Owned()) {
      assert old(Beside(m, k, loose)) && k.Value() == old(k.Value());
    }
  }

  lemma LedgerRemove(own: Owners, loose: set<StringCell>, live: set<StringCell>, m: UserLogin)
    requires Ledger(own, loose, live) && m in own
    ensures Ledger(own - {m}, loose, live - own[m])
  {
    forall c ensures c in AllOwned(own - {m}) <==> c in AllOwned(own) && c !in own[m] {
      if c in AllOwned(own) && c !in own[m] {
        var k: UserLogin :| k in own && c in own[k];
        assert k in own - {m} && c in (own - {m})[k];
      }
      if c in AllOwned(own - {m}) {
        var k: UserLogin :| k in own - {m} && c in (own - {m})[k];
        assert c in own[k];
      }
    }
  }

  /** The program destroys a string that was released to it. */
  method Discard(heap: StringHeap, ghost ms: set<UserLogin>, cell: StringCell, ghost loose: set<StringCell>)
    requires World(heap, ms, loose) && cell in loose
    modifies heap
    ensures World(heap, ms, loose - {cell})
    ensures forall k :: k in ms ==> k.Owned() == old(k.Owned()) && k.Value() == old(k.Value())
    ensures forall c :: c in loose ==> c.contents == old(c.contents)
  {
    ghost var own: Owners := Owned(ms);
    LedgerDiscard(own, loose, heap.live, cell);
    DiscardOf(heap, ms, cell, loose);
    OwnedSame(ms, own);
  }

  lemma OwnedSame(ms: set<UserLogin>, own: Owners)
    requires own.Keys == ms && forall k :: k in ms ==> k.Owned() == own[k]
    ensures Owned(ms) == own
  {
  }

  lemma LedgerDiscard(own: Owners, loose: set<StringCell>, live: set<StringCell>, cell: StringCell)
    requires Ledger(own, loose, live) && cell in loose
    ensures Ledger(own, loose - {cell}, live - {cell})
  {
  }

  method DiscardOf(heap: StringHeap, ghost ms: set<UserLogin>, cell: StringCell, ghost loose: set<StringCell>)
    requires World(heap, ms, loose) && cell in loose
    modifies heap
    ensures Members(heap, ms) && heap.live == old(heap.live) - {cell}
    ensures forall k :: k in ms ==> k.Owned() == old(k.Owned()) && k.Value() == old(k.Value())
  {
    forall k | k in ms ensures k.Owned() !! loose && k.Owned() <= heap.live { MemberOwnsApart(heap, ms, loose, k); }
    assert cell in heap.live;
    heap.Delete(cell);
    forall k | k in ms ensures k.Valid() && k.Owned() == old(k.Owned()) {
      assert k.Value() == old(k.Value());
    }
  }
}
