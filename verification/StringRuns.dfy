/** Runs: programs that make any number of User_Login messages, work on them in any
    order, and take strings from them and give strings to them. */
module StringRuns {
  import opened Basics
  import opened WireFormat
  import opened LoginCodec
  import opened LoginMessage
  import opened ArenaString
  import opened StringOwnership

  /** Messages and strings are named by their places in the order they were made and
      handed out; a name is dead once its message is destroyed or its string given away. */
  datatype Action =
    | Do(i: nat, op: Operation)
    | Give(i: nat, number: nat, h: nat)
    | MergeInto(i: nat, j: nat)
    | CopyInto(i: nat, j: nat)
    | Exchange(i: nat, j: nat)
    | Make
    | MakeCopy(i: nat)
    | Unmake(i: nat)
    | DropString(h: nat)

  // ----- What a run means ------------------------------------------------------

  /** The values behind the names: messages as values that share nothing. */
  datatype State = State(msgs: seq<Option<Login>>, strings: seq<Option<seq<byte>>>)

  predicate Alive<T>(s: seq<Option<T>>, i: nat)
  {
    i < |s| && s[i].Some?
  }

  /** Dead names, merging or swapping a message with itself, and numbers of other fields
      are not something a program does. */
  predicate Possible(st: State, action: Action)
  {
    match action
    case Do(i, op) => Alive(st.msgs, i) && Sensible(op, {})
    case Give(i, number, h) => Alive(st.msgs, i) && Alive(st.strings, h) && number in {2, 3}
    case MergeInto(i, j) => Alive(st.msgs, i) && Alive(st.msgs, j) && i != j
    case CopyInto(i, j) => Alive(st.msgs, i) && Alive(st.msgs, j)
    case Exchange(i, j) => Alive(st.msgs, i) && Alive(st.msgs, j) && i != j
    case Make => true
    case MakeCopy(i) => Alive(st.msgs, i)
    case Unmake(i) => Alive(st.msgs, i)
    case DropString(h) => Alive(st.strings, h)
  }

  /** The state after an action; `handedOut` says whether a release gave a string. */
  function After(st: State, action: Action, handedOut: bool): State
    requires Possible(st, action)
  {
    match action
    case Do(i, op) =>
      var v := st.msgs[i].value;
      State(st.msgs[i := Some(Applied(v, op, []))],
            if op.Release? && handedOut then st.strings + [Some(GetString(v, op.number))] else st.strings)
    case Give(i, number, h) =>
      State(st.msgs[i := Some(SetString(st.msgs[i].value, number, st.strings[h].value))], st.strings[h := None])
    case MergeInto(i, j) => st.(msgs := st.msgs[i := Some(Merge(st.msgs[i].value, st.msgs[j].value))])
    case CopyInto(i, j) => st.(msgs := st.msgs[i := st.msgs[j]])
    case Exchange(i, j) => st.(msgs := st.msgs[i := st.msgs[j]][j := st.msgs[i]])
    case Make => st.(msgs := st.msgs + [Some(EMPTY)])
    case MakeCopy(i) => st.(msgs := st.msgs + [st.msgs[i]])
    case Unmake(i) => st.(msgs := st.msgs[i := None])
    case DropString(h) => st.(strings := st.strings[h := None])
  }

  /** Impossible actions are passed over. */
  function Next(st: State, action: Action, handedOut: bool): State
  {
    if Possible(st, action) then After(st, action, handedOut) else st
  }

  /** A whole script, from a program's start. */
  function Meaning(script: seq<Action>, handedOut: seq<bool>): State
    requires |handedOut| == |script|
  {
    if script == [] then State([], [])
    else
      var last := |script| - 1;
      Next(Meaning(script[..last], handedOut[..last]), script[last], handedOut[last])
  }

  /** A release that gives no string is one of a field that is not set and reads empty. */
  predicate Honest(st: State, action: Action, handedOut: bool)
  {
    action.Do? && action.op.Release? && Possible(st, action) && !handedOut ==>
      var v := st.msgs[action.i].value;
      !HasString(v, action.op.number) && GetString(v, action.op.number) == []
  }

  // ----- Programs ----------------------------------------------------------------

  /** The pointers behind the names. */
  datatype Program = Program(made: seq<Option<UserLogin>>, handed: seq<Option<StringCell>>)

  function Present<T>(s: seq<Option<T>>): set<T>
  {
    set i | 0 <= i < |s| && s[i].Some? :: s[i].value
  }

  ghost predicate Distinct<T>(s: seq<Option<T>>)
  {
    forall i, j :: 0 <= i < j < |s| && s[i].Some? && s[j].Some? ==> s[i].value != s[j].value
  }

  lemma PresentWith<T>(s: seq<Option<T>>, x: T)
    requires Distinct(s) && x !in Present(s)
    ensures Present(s + [Some(x)]) == Present(s) + {x} && Distinct(s + [Some(x)])
  {
    var r := s + [Some(x)];
    assert r[|s|] == Some(x);
    forall y ensures y in Present(r) <==> y in Present(s) || y == x {
      if y in Present(s) {
        var i :| 0 <= i < |s| && s[i].Some? && s[i].value == y;
        assert r[i] == s[i];
      }
    }
    forall i, j | 0 <= i < j < |r| && r[i].Some? && r[j].Some? ensures r[i].value != r[j].value {
      assert s[i].value in Present(s);
    }
  }

  lemma PresentWithout<T>(s: seq<Option<T>>, i: nat)
    requires Distinct(s) && Alive(s, i)
    ensures Present(s[i := None]) == Present(s) - {s[i].value} && Distinct(s[i := None])
  {
    forall y ensures y in Present(s[i := None]) <==> y in Present(s) && y != s[i].value {
      if y in Present(s) && y != s[i].value {
        var j :| 0 <= j < |s| && s[j].Some? && s[j].value == y;
        assert s[i := None][j] == s[j];
      }
    }
  }

  /** What the names stand for is in `mine`, messages with their fields and strings. */
  ghost predicate Within(ms: set<UserLogin>, loose: set<StringCell>, mine: set<object>)
    reads set m | m in ms :: m.userId, set m | m in ms :: m.password
  {
    && (forall m :: m in ms ==> m in mine && m.userId in mine && m.password in mine && m.Owned() <= mine)
    && loose <= mine
  }

  ghost predicate Holds(heap: StringHeap, p: Program, mine: set<object>)
    reads heap, heap.empty, Present(p.made)
    reads set m | m in Present(p.made) :: m.userId, set m | m in Present(p.made) :: m.password
    reads set m | m in Present(p.made) :: m.userId.ptr, set m | m in Present(p.made) :: m.password.ptr
  {
    && Distinct(p.made) && Distinct(p.handed)
    && World(heap, Present(p.made), Present(p.handed))
    && Within(Present(p.made), Present(p.handed), mine)
  }

  ghost predicate MsgsMean(made: seq<Option<UserLogin>>, msgs: seq<Option<Login>>)
    reads Present(made)
    reads set m | m in Present(made) :: m.userId, set m | m in Present(made) :: m.password
    reads set m | m in Present(made) :: m.userId.ptr, set m | m in Present(made) :: m.password.ptr
  {
    && |made| == |msgs|
    && forall i :: 0 <= i < |made| ==>
         made[i].Some? == msgs[i].Some? && (made[i].Some? ==> made[i].value in Present(made) && msgs[i].value == made[i].value.Value())
  }

  ghost predicate StringsMean(handed: seq<Option<StringCell>>, strings: seq<Option<seq<byte>>>)
    reads Present(handed)
  {
    && |handed| == |strings|
    && forall h :: 0 <= h < |handed| ==>
         handed[h].Some? == strings[h].Some? && (handed[h].Some? ==> handed[h].value in Present(handed) && strings[h].value == handed[h].value.contents)
  }

  /** One message has a new value, the others and the names are as they were. */
  lemma MsgsMeanAfter(made: seq<Option<UserLogin>>, msgs: seq<Option<Login>>, i: nat, v: Login)
    requires Alive(made, i) && |made| == |msgs| && made[i].value.Value() == v
    requires forall j :: 0 <= j < |made| ==> made[j].Some? == msgs[j].Some?
    requires forall j :: 0 <= j < |made| && j != i && made[j].Some? ==> made[j].value.Value() == msgs[j].value
    ensures MsgsMean(made, msgs[i := Some(v)])
  {
    forall j | 0 <= j < |made| && made[j].Some? ensures made[j].value in Present(made) { }
  }

  /** What a program and its meaning have to do with each other. */
  ghost predicate Means(p: Program, st: State)
    reads Present(p.made), Present(p.handed)
    reads set m | m in Present(p.made) :: m.userId, set m | m in Present(p.made) :: m.password
    reads set m | m in Present(p.made) :: m.userId.ptr, set m | m in Present(p.made) :: m.password.ptr
  {
    MsgsMean(p.made, st.msgs) && StringsMean(p.handed, st.strings)
  }

  /** One message changed, in value and in what it owns; the others did not. */
  lemma NamedAfter(p: Program, i: nat, v: Login, msgs: seq<Option<Login>>)
    requires Distinct(p.made) && Alive(p.made, i) && |p.made| == |msgs| && p.made[i].value.Value() == v
    requires forall j :: 0 <= j < |p.made| ==> p.made[j].Some? == msgs[j].Some?
    requires forall k, j :: k in Present(p.made) && k != p.made[i].value && 0 <= j < |p.made| && p.made[j] == Some(k) ==>
      k.Value() == msgs[j].value
    ensures MsgsMean(p.made, msgs[i := Some(v)])
  {
    forall j | 0 <= j < |p.made| && j != i && p.made[j].Some? ensures p.made[j].value.Value() == msgs[j].value {
      assert p.made[j].value in Present(p.made);
    }
    MsgsMeanAfter(p.made, msgs, i, v);
  }

  /** An operation on a named message; the names of strings are not yet brought up to
      date. */
  method StepNamed(heap: StringHeap, p: Program, i: nat, op: Operation, ghost st: State, ghost mine: set<object>)
    returns (released: StringCell?, ghost mine': set<object>)
    requires Holds(heap, p, mine) && Means(p, st) && Alive(p.made, i) && Sensible(op, Present(p.handed))
    modifies heap, mine
    ensures World(heap, Present(p.made), LooseAfter(Present(p.handed), op, released))
    ensures Within(Present(p.made), LooseAfter(Present(p.handed), op, released), mine')
    ensures mine <= mine' && fresh(mine' - mine)
    ensures MsgsMean(p.made, st.msgs[i := Some(Applied(st.msgs[i].value, op, old(Given(op))))])
    ensures StringsMean(p.handed, st.strings)
    ensures Released(op, released, st.msgs[i].value) && released !in Present(p.handed)
  {
    released, mine' := StepWithin(heap, p, i, op, mine);
    NamedAfter(p, i, Applied(st.msgs[i].value, op, old(Given(op))), st.msgs);
  }

  lemma WithinAfter(ms: set<UserLogin>, loose: set<StringCell>, op: Operation, released: StringCell?, m: UserLogin, mine: set<object>)
    requires m in ms && m in mine && m.userId in mine && m.password in mine
    requires Within(ms - {m}, loose, mine) && (released != null ==> released in mine)
    ensures Within(ms, LooseAfter(loose, op, released), mine + m.Owned())
  {
  }

  method StepAmong(heap: StringHeap, ghost ms: set<UserLogin>, m: UserLogin, op: Operation, ghost loose: set<StringCell>, ghost mine: set<object>)
    returns (released: StringCell?)
    requires World(heap, ms, loose) && Within(ms, loose, mine) && m in ms && Sensible(op, loose)
    modifies heap, mine
    ensures World(heap, ms, LooseAfter(loose, op, released))
    ensures Within(ms, LooseAfter(loose, op, released), mine + m.Owned()) && fresh(m.Owned() - mine)
    ensures m.Value() == Applied(old(m.Value()), op, old(Given(op)))
    ensures forall k :: k in ms && k != m ==> k.Value() == old(k.Value())
    ensures forall c :: c in loose ==> c.contents == old(c.contents)
    ensures Released(op, released, old(m.Value())) && released !in loose
  {
    released := Step(heap, ms, m, op, loose);
    WithinAfter(ms, loose, op, released, m, mine);
  }

  method StepWithin(heap: StringHeap, p: Program, i: nat, op: Operation, ghost mine: set<object>)
    returns (released: StringCell?, ghost mine': set<object>)
    requires Holds(heap, p, mine) && Alive(p.made, i) && Sensible(op, Present(p.handed))
    modifies heap, mine
    ensures World(heap, Present(p.made), LooseAfter(Present(p.handed), op, released))
    ensures Within(Present(p.made), LooseAfter(Present(p.handed), op, released), mine')
    ensures mine <= mine' && fresh(mine' - mine)
    ensures p.made[i].value.Value() == Applied(old(p.made[i].value.Value()), op, old(Given(op)))
    ensures forall k :: k in Present(p.made) && k != p.made[i].value ==> k.Value() == old(k.Value())
    ensures forall c :: c in Present(p.handed) ==> c.contents == old(c.contents)
    ensures Released(op, released, old(p.made[i].value.Value())) && released !in Present(p.handed)
  {
    released := StepAmong(heap, Present(p.made), p.made[i].value, op, Present(p.handed), mine);
    mine' := mine + p.made[i].value.Owned();
  }

  method ActDo(heap: StringHeap, p: Program, i: nat, op: Operation, ghost st: State, ghost mine: set<object>)
    returns (p': Program, ghost mine': set<object>, handedOut: bool)
    requires Holds(heap, p, mine) && Means(p, st) && Possible(st, Do(i, op))
    modifies heap, mine
    ensures Holds(heap, p', mine') && mine <= mine' && fresh(mine' - mine)
    ensures Means(p', After(st, Do(i, op), handedOut)) && Honest(st, Do(i, op), handedOut)
  {
    var released;
    released, mine' := StepNamed(heap, p, i, op, st, mine);
    handedOut := released != null;
    p' := p;
    if released != null {
      PresentWith(p.handed, released);
      p' := p.(handed := p.handed + [Some(released)]);
    }
  }

  method ActGive(heap: StringHeap, p: Program, i: nat, number: nat, h: nat, ghost st: State, ghost mine: set<object>)
    returns (p': Program, ghost mine': set<object>)
    requires Holds(heap, p, mine) && Means(p, st) && Possible(st, Give(i, number, h))
    modifies heap, mine
    ensures Holds(heap, p', mine') && mine <= mine' && fresh(mine' - mine)
    ensures Means(p', After(st, Give(i, number, h), false))
  {
    var released;
    PresentWithout(p.handed, h);
    released, mine' := StepNamed(heap, p, i, SetAllocated(number, p.handed[h].value), st, mine);
    p' := p.(handed := p.handed[h := None]);
  }

  method ActMerge(heap: StringHeap, p: Program, i: nat, j: nat, ghost st: State, ghost mine: set<object>)
    returns (ghost mine': set<object>)
    requires Holds(heap, p, mine) && Means(p, st) && Possible(st, MergeInto(i, j))
    modifies heap, mine
    ensures Holds(heap, p, mine') && mine <= mine' && fresh(mine' - mine)
    ensures Means(p, After(st, MergeInto(i, j), false))
  {
    mine' := CombineWithin(heap, p, p.made[i].value, p.made[j].value, false, mine);
    NamedAfter(p, i, Merge(st.msgs[i].value, st.msgs[j].value), st.msgs);
  }

  method ActCopy(heap: StringHeap, p: Program, i: nat, j: nat, ghost st: State, ghost mine: set<object>)
    returns (ghost mine': set<object>)
    requires Holds(heap, p, mine) && Means(p, st) && Possible(st, CopyInto(i, j))
    modifies heap, mine
    ensures Holds(heap, p, mine') && mine <= mine' && fresh(mine' - mine)
    ensures Means(p, After(st, CopyInto(i, j), false))
  {
    mine' := CombineWithin(heap, p, p.made[i].value, p.made[j].value, true, mine);
    NamedAfter(p, i, st.msgs[j].value, st.msgs);
  }

  method CombineWithin(heap: StringHeap, p: Program, m: UserLogin, from: UserLogin, copy: bool, ghost mine: set<object>)
    returns (ghost mine': set<object>)
    requires Holds(heap, p, mine) && m in Present(p.made) && from in Present(p.made) && (m == from ==> copy)
    modifies heap, mine
    ensures Holds(heap, p, mine') && mine <= mine' && fresh(mine' - mine)
    ensures m.Value() == if copy then old(from.Value()) else Merge(old(m.Value()), old(from.Value()))
    ensures forall k :: k in Present(p.made) && k != m ==> k.Value() == old(k.Value())
    ensures forall c :: c in Present(p.handed) ==> c.contents == old(c.contents)
  {
    Combine(heap, Present(p.made), m, from, copy, Present(p.handed));
    mine' := mine + m.Owned();
  }

  method ActSwap(heap: StringHeap, p: Program, i: nat, j: nat, ghost st: State, ghost mine: set<object>)
    requires Holds(heap, p, mine) && Means(p, st) && Possible(st, Exchange(i, j))
    modifies heap, mine
    ensures Holds(heap, p, mine) && Means(p, After(st, Exchange(i, j), false))
  {
    var m, n := p.made[i].value, p.made[j].value;
    SwapWithin(heap, p, m, n, mine);
    forall k | 0 <= k < |p.made| && k != i && k != j && p.made[k].Some? ensures p.made[k].value.Value() == st.msgs[k].value {
      assert p.made[k].value in Present(p.made);
    }
  }

  method SwapWithin(heap: StringHeap, p: Program, m: UserLogin, n: UserLogin, ghost mine: set<object>)
    requires Holds(heap, p, mine) && m in Present(p.made) && n in Present(p.made) && m != n
    modifies heap, mine
    ensures Holds(heap, p, mine) && m.Value() == old(n.Value()) && n.Value() == old(m.Value())
    ensures forall k :: k in Present(p.made) && k != m && k != n ==> k.Value() == old(k.Value())
    ensures forall c :: c in Present(p.handed) ==> c.contents == old(c.contents)
  {
    Swap(heap, Present(p.made), m, n, Present(p.handed));
  }

  /** A new name, for a new message; the others did not change. */
  lemma NamedWith(p: Program, st: State, m: UserLogin, v: Login)
    requires |p.made| == |st.msgs| && forall j :: 0 <= j < |p.made| ==> p.made[j].Some? == st.msgs[j].Some?
    requires forall k, j :: k in Present(p.made) && 0 <= j < |p.made| && p.made[j] == Some(k) ==> k.Value() == st.msgs[j].value
    requires m.Value() == v && StringsMean(p.handed, st.strings)
    ensures Means(p.(made := p.made + [Some(m)]), st.(msgs := st.msgs + [Some(v)]))
  {
    var more := p.made + [Some(m)];
    forall k | 0 <= k < |more| && more[k].Some?
      ensures more[k].value in Present(more) && more[k].value.Value() == (st.msgs + [Some(v)])[k].value
    {
      assert k < |p.made| ==> p.made[k].value in Present(p.made);
    }
  }

  method ActMake(heap: StringHeap, p: Program, ghost st: State, ghost mine: set<object>)
    returns (p': Program, ghost mine': set<object>)
    requires Holds(heap, p, mine) && Means(p, st)
    modifies heap, mine
    ensures Holds(heap, p', mine') && mine <= mine' && fresh(mine' - mine)
    ensures Means(p', After(st, Make, false))
  {
    var m;
    m, p', mine' := MakeWithin(heap, p, mine);
    NamedWith(p, st, m, EMPTY);
    assert After(st, Make, false) == st.(msgs := st.msgs + [Some(EMPTY)]);
  }

  method MakeAmong(heap: StringHeap, ghost ms: set<UserLogin>, ghost loose: set<StringCell>, ghost mine: set<object>)
    returns (m: UserLogin, ghost gained: set<object>)
    requires World(heap, ms, loose) && Within(ms, loose, mine)
    ensures World(heap, ms + {m}, loose) && Within(ms, loose, mine)
    ensures m !in ms && {m, m.userId, m.password} <= gained && m.Owned() <= gained && fresh(gained)
    ensures m.Value() == EMPTY
    ensures forall k :: k in ms ==> k.Value() == old(k.Value())
  {
    m := Create(heap, ms, loose);
    gained := {m, m.userId, m.password};
  }

  method CopyAmong(heap: StringHeap, ghost ms: set<UserLogin>, from: UserLogin, ghost loose: set<StringCell>, ghost mine: set<object>)
    returns (m: UserLogin, ghost gained: set<object>)
    requires World(heap, ms, loose) && Within(ms, loose, mine) && from in ms
    modifies heap
    ensures World(heap, ms + {m}, loose) && Within(ms, loose, mine)
    ensures m !in ms && {m, m.userId, m.password} <= gained && m.Owned() <= gained && fresh(gained)
    ensures m.Value() == old(from.Value())
    ensures forall k :: k in ms ==> k.Value() == old(k.Value())
    ensures forall c :: c in loose ==> c.contents == old(c.contents)
  {
    m, gained := CreateCopy(heap, ms, from, loose);
  }

  lemma HoldsWith(heap: StringHeap, p: Program, m: UserLogin, mine: set<object>, gained: set<object>)
    requires Distinct(p.made) && Distinct(p.handed) && m !in Present(p.made)
    requires World(heap, Present(p.made) + {m}, Present(p.handed)) && Within(Present(p.made), Present(p.handed), mine)
    requires {m, m.userId, m.password} <= gained && m.Owned() <= gained
    ensures Holds(heap, p.(made := p.made + [Some(m)]), mine + gained)
  {
    PresentWith(p.made, m);
  }

  method MakeWithin(heap: StringHeap, p: Program, ghost mine: set<object>)
    returns (m: UserLogin, p': Program, ghost mine': set<object>)
    requires Holds(heap, p, mine)
    modifies heap, mine
    ensures p' == p.(made := p.made + [Some(m)]) && Holds(heap, p', mine') && mine <= mine' && fresh(mine' - mine)
    ensures m.Value() == EMPTY
    ensures forall k :: k in Present(p.made) ==> k.Value() == old(k.Value())
    ensures forall c :: c in Present(p.handed) ==> c.contents == old(c.contents)
  {
    ghost var gained;
    m, gained := MakeAmong(heap, Present(p.made), Present(p.handed), mine);
    p' := p.(made := p.made + [Some(m)]);
    mine' := mine + gained;
    HoldsWith(heap, p, m, mine, gained);
  }

  method ActMakeCopy(heap: StringHeap, p: Program, i: nat, ghost st: State, ghost mine: set<object>)
    returns (p': Program, ghost mine': set<object>)
    requires Holds(heap, p, mine) && Means(p, st) && Possible(st, MakeCopy(i))
    modifies heap, mine
    ensures Holds(heap, p', mine') && mine <= mine' && fresh(mine' - mine)
    ensures Means(p', After(st, MakeCopy(i), false))
  {
    var m;
    m, p', mine' := CopyWithin(heap, p, p.made[i].value, mine);
    NamedWith(p, st, m, st.msgs[i].value);
  }

  method CopyWithin(heap: StringHeap, p: Program, from: UserLogin, ghost mine: set<object>)
    returns (m: UserLogin, p': Program, ghost mine': set<object>)
    requires Holds(heap, p, mine) && from in Present(p.made)
    modifies heap, mine
    ensures p' == p.(made := p.made + [Some(m)]) && Holds(heap, p', mine') && mine <= mine' && fresh(mine' - mine)
    ensures m.Value() == old(from.Value())
    ensures forall k :: k in Present(p.made) ==> k.Value() == old(k.Value())
    ensures forall c :: c in Present(p.handed) ==> c.contents == old(c.contents)
  {
    ghost var gained;
    m, gained := CopyAmong(heap, Present(p.made), from, Present(p.handed), mine);
    p' := p.(made := p.made + [Some(m)]);
    mine' := mine + gained;
    HoldsWith(heap, p, m, mine, gained);
  }

  lemma NamedWithout(p: Program, msgs: seq<Option<Login>>, i: nat)
    requires Distinct(p.made) && Alive(p.made, i) && |p.made| == |msgs|
    requires forall j :: 0 <= j < |p.made| ==> p.made[j].Some? == msgs[j].Some?
    requires forall k, j :: k in Present(p.made) && k != p.made[i].value && 0 <= j < |p.made| && p.made[j] == Some(k) ==>
      k.Value() == msgs[j].value
    ensures MsgsMean(p.made[i := None], msgs[i := None])
    ensures Distinct(p.made[i := None]) && Present(p.made[i := None]) == Present(p.made) - {p.made[i].value}
  {
    PresentWithout(p.made, i);
    var made := p.made[i := None];
    forall k | 0 <= k < |made| && made[k].Some?
      ensures made[k].value in Present(made) && made[k].value.Value() == msgs[k].value
    {
      assert p.made[k].value in Present(p.made);
    }
  }

  method ActUnmake(heap: StringHeap, p: Program, i: nat, ghost st: State, ghost mine: set<object>) returns (p': Program)
    requires Holds(heap, p, mine) && Means(p, st) && Possible(st, Unmake(i))
    modifies heap, mine
    ensures Holds(heap, p', mine) && Means(p', After(st, Unmake(i), false))
  {
    Destroy(heap, Present(p.made), p.made[i].value, Present(p.handed));
    NamedWithout(p, st.msgs, i);
    p' := p.(made := p.made[i := None]);
  }

  method ActDrop(heap: StringHeap, p: Program, h: nat, ghost st: State, ghost mine: set<object>) returns (p': Program)
    requires Holds(heap, p, mine) && Means(p, st) && Possible(st, DropString(h))
    modifies heap, mine
    ensures Holds(heap, p', mine) && Means(p', After(st, DropString(h), false))
  {
    Discard(heap, Present(p.made), p.handed[h].value, Present(p.handed));
    PresentWithout(p.handed, h);
    p' := p.(handed := p.handed[h := None]);
  }

  method Act(heap: StringHeap, p: Program, action: Action, ghost st: State, ghost mine: set<object>)
    returns (p': Program, ghost mine': set<object>, handedOut: bool)
    requires Holds(heap, p, mine) && Means(p, st) && Possible(st, action)
    modifies heap, mine
    ensures Holds(heap, p', mine') && mine <= mine' && fresh(mine' - mine)
    ensures Means(p', After(st, action, handedOut)) && Honest(st, action, handedOut)
  {
    p', mine', handedOut := p, mine, false;
    match action
    case Do(i, op) => p', mine', handedOut := ActDo(heap, p, i, op, st, mine);
    case Give(i, number, h) => p', mine' := ActGive(heap, p, i, number, h, st, mine);
    case MergeInto(i, j) => mine' := ActMerge(heap, p, i, j, st, mine);
    case CopyInto(i, j) => mine' := ActCopy(heap, p, i, j, st, mine);
    case Exchange(i, j) => ActSwap(heap, p, i, j, st, mine);
    case Make => p', mine' := ActMake(heap, p, st, mine);
    case MakeCopy(i) => p', mine' := ActMakeCopy(heap, p, i, st, mine);
    case Unmake(i) => p' := ActUnmake(heap, p, i, st, mine);
    case DropString(h) => p' := ActDrop(heap, p, h, st, mine);
  }

  // ----- Every run -----------------------------------------------------------------

  /** What a program may rely on: a set string bit means the pointer is not the shared
      default, a clear bit means the field reads empty or zero, no two fields of any
      messages own the same heap string, and every owned string is live and not also
      in the program's hands. */
  ghost predicate StringsAreSane(heap: StringHeap, ms: set<UserLogin>, loose: set<StringCell>)
    reads heap, ms
    reads set m | m in ms :: m.userId, set m | m in ms :: m.password
    reads set m | m in ms :: m.userId.ptr, set m | m in ms :: m.password.ptr
  {
    && (forall m :: m in ms ==> BitsAreSane(heap, m))
    && (forall m, f :: m in ms && f in {2, 3} && m.Field(f).ptr != heap.empty ==>
          m.Field(f).ptr in heap.live && m.Field(f).ptr !in loose)
    && (forall m, n, f, g :: m in ms && n in ms && f in {2, 3} && g in {2, 3} && (m != n || f != g) ==>
          m.Field(f).ptr != n.Field(g).ptr || m.Field(f).ptr == heap.empty)
  }

  ghost predicate BitsAreSane(heap: StringHeap, m: UserLogin)
    reads m, m.userId, m.password, m.userId.ptr, m.password.ptr
  {
    && (forall f :: f in {2, 3} ==>
          if m.Bit(f) in m.hasBits then m.Field(f).ptr != heap.empty else m.Field(f).ptr.contents == [])
    && (HAS_USER_PID !in m.hasBits ==> m.userPid == 0)
  }

  lemma WorldIsSane(heap: StringHeap, ms: set<UserLogin>, loose: set<StringCell>)
    requires World(heap, ms, loose)
    ensures StringsAreSane(heap, ms, loose)
  {
    forall m | m in ms ensures BitsAreSane(heap, m) && m.Owned() !! loose && m.Owned() <= heap.live {
      MemberOwnsApart(heap, ms, loose, m);
    }
    forall m, n | m in ms && n in ms && m != n ensures m.Owned() !! n.Owned() {
      MembersAreApart(heap, ms, loose, m, n);
    }
  }

  /** A program starts with no messages and no strings. */
  lemma HoldsAtStart(heap: StringHeap)
    requires heap.Valid() && heap.live == {}
    ensures Holds(heap, Program([], []), {}) && Means(Program([], []), State([], []))
  {
    assert AllOwned(map[]) == {};
    assert Present<UserLogin>([]) == {} && Present<StringCell>([]) == {};
  }

  method TryAct(heap: StringHeap, p: Program, action: Action, ghost st: State, ghost mine: set<object>)
    returns (p': Program, ghost mine': set<object>, handedOut: bool)
    requires Holds(heap, p, mine) && Means(p, st)
    modifies heap, mine
    ensures Holds(heap, p', mine') && mine <= mine' && fresh(mine' - mine)
    ensures Means(p', Next(st, action, handedOut)) && Honest(st, action, handedOut)
  {
    p', mine', handedOut := p, mine, false;
    if PossibleHere(p, action) {
      SamePossible(p, st, action);
      p', mine', handedOut := Act(heap, p, action, st, mine);
    } else {
      SamePossible(p, st, action);
    }
  }

  /** Whether an action is possible shows in the names alone. */
  predicate PossibleHere(p: Program, action: Action)
  {
    match action
    case Do(i, op) => Alive(p.made, i) && Sensible(op, {})
    case Give(i, number, h) => Alive(p.made, i) && Alive(p.handed, h) && number in {2, 3}
    case MergeInto(i, j) => Alive(p.made, i) && Alive(p.made, j) && i != j
    case CopyInto(i, j) => Alive(p.made, i) && Alive(p.made, j)
    case Exchange(i, j) => Alive(p.made, i) && Alive(p.made, j) && i != j
    case Make => true
    case MakeCopy(i) => Alive(p.made, i)
    case Unmake(i) => Alive(p.made, i)
    case DropString(h) => Alive(p.handed, h)
  }

  lemma SamePossible(p: Program, st: State, action: Action)
    requires Means(p, st)
    ensures PossibleHere(p, action) <==> Possible(st, action)
  {
  }

  /** Every script of sets, writes through mutable pointers, releases, hand-overs, clears,
      merges, copies, swaps, parses with and without clearing, and messages made, copied
      and destroyed. Its messages hold what independent values would hold, and their
      strings are sane. */
  method Run(heap: StringHeap, script: seq<Action>) returns (p: Program, handedOut: seq<bool>)
    requires heap.Valid() && heap.live == {}
    modifies heap
    ensures World(heap, Present(p.made), Present(p.handed))
    ensures StringsAreSane(heap, Present(p.made), Present(p.handed))
    ensures |handedOut| == |script| && Means(p, Meaning(script, handedOut))
    ensures forall k :: 0 <= k < |script| ==> Honest(Meaning(script[..k], handedOut[..k]), script[k], handedOut[k])
  {
    p, handedOut := Program([], []), [];
    HoldsAtStart(heap);
    ghost var mine: set<object> := {};
    for i := 0 to |script|
      invariant Holds(heap, p, mine) && fresh(mine)
      invariant |handedOut| == i && Means(p, Meaning(script[..i], handedOut))
      invariant forall k :: 0 <= k < i ==> Honest(Meaning(script[..k], handedOut[..k]), script[k], handedOut[k])
    {
      ghost var st := Meaning(script[..i], handedOut);
      var out;
      p, mine, out := TryAct(heap, p, script[i], st, mine);
      MeaningNext(script, handedOut, i, out);
      handedOut := handedOut + [out];
    }
    assert script[..|script|] == script;
    WorldIsSane(heap, Present(p.made), Present(p.handed));
  }

  lemma MeaningNext(script: seq<Action>, handedOut: seq<bool>, i: nat, out: bool)
    requires i < |script| && |handedOut| == i
    ensures Meaning(script[..i + 1], handedOut + [out]) == Next(Meaning(script[..i], handedOut), script[i], out)
    ensures forall k :: 0 <= k < i ==> (handedOut + [out])[..k] == handedOut[..k] && (handedOut + [out])[k] == handedOut[k]
    ensures (handedOut + [out])[..i] == handedOut
  {
    assert script[..i + 1][..i] == script[..i] && (handedOut + [out])[..i] == handedOut;
  }
}
