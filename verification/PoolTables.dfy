/** DescriptorPool::Tables: the tables of a pool, with an undo log that makes nested
    checkpoints into nested transactions. */
module PoolTables {

  /** A string the pool allocated. Map keys and log entries are pointers to these. */
  class Text {
    const chars: string

    constructor (chars: string)
      ensures this.chars == chars
    {
      this.chars := chars;
    }
  }

  /** Descriptors, messages, file tables: known here by address only. */
  class Memory {
    constructor () { }
  }

  datatype Kind = Message | Field | Oneof | Enum | EnumValue | Service | Method | Package

  datatype Symbol = Symbol(kind: Kind, descriptor: Memory)

  datatype Row<T> = Row(key: Text, value: T)

  datatype CheckPoint = CheckPoint(strings: nat, messages: nat, fileTables: nat, allocations: nat,
                                   symbols: nat, files: nat, extensions: nat)

  /** What a transaction protects: three maps and four allocation vectors. */
  datatype Contents = Contents(symbols: map<string, Row<Symbol>>, files: map<string, Row<Memory>>,
                               extensions: map<(Memory, int), Memory>,
                               strings: seq<Text>, messages: seq<Memory>, fileTables: seq<Memory>,
                               allocations: seq<Memory>)

  /** No key and no value points into memory that was freed. */
  predicate Kept(c: Contents)
  {
    && (forall name :: name in c.symbols ==>
          c.symbols[name].key in c.strings && c.symbols[name].key.chars == name
          && c.symbols[name].value.descriptor in c.allocations)
    && (forall name :: name in c.files ==>
          c.files[name].key in c.strings && c.files[name].key.chars == name && c.files[name].value in c.allocations)
    && (forall k :: k in c.extensions ==> k.0 in c.allocations && c.extensions[k] in c.allocations)
  }

  // ----- Nested transactions ---------------------------------------------------

  /** The specification: the contents, and the contents at each open checkpoint. */
  datatype Machine = Machine(now: Contents, saved: seq<Contents>)

  datatype Step =
    | AddSymbol(name: Text, symbol: Symbol)
    | AddFile(fileName: Text, file: Memory)
    | AddExtension(extendee: Memory, number: int, field: Memory)
    | AllocateString(text: Text)
    | AllocateMessage(message: Memory)
    | AllocateFileTables(fileTables: Memory)
    | AllocateBytes(bytes: Memory)
    | AddCheckpoint
    | ClearLastCheckpoint
    | RollbackToLastCheckpoint

  /** What callers must ensure. */
  predicate Allowed(m: Machine, step: Step)
  {
    match step
    case AddSymbol(name, symbol) => name in m.now.strings && symbol.descriptor in m.now.allocations
    case AddFile(name, file) => name in m.now.strings && file in m.now.allocations
    case AddExtension(extendee, _, field) => extendee in m.now.allocations && field in m.now.allocations
    case ClearLastCheckpoint => m.saved != []
    case RollbackToLastCheckpoint => m.saved != []
    case _ => true
  }

  function Changed(c: Contents, step: Step): Contents
  {
    match step
    case AddSymbol(name, symbol) =>
      if name.chars in c.symbols then c else c.(symbols := c.symbols[name.chars := Row(name, symbol)])
    case AddFile(name, file) =>
      if name.chars in c.files then c else c.(files := c.files[name.chars := Row(name, file)])
    case AddExtension(extendee, number, field) =>
      if (extendee, number) in c.extensions then c else c.(extensions := c.extensions[(extendee, number) := field])
    case AllocateString(text) => c.(strings := c.strings + [text])
    case AllocateMessage(message) => c.(messages := c.messages + [message])
    case AllocateFileTables(fileTables) => c.(fileTables := c.fileTables + [fileTables])
    case AllocateBytes(bytes) => c.(allocations := c.allocations + [bytes])
    case _ => c
  }

  function After(m: Machine, step: Step): Machine
    requires Allowed(m, step)
  {
    match step
    case AddCheckpoint => Machine(m.now, m.saved + [m.now])
    case ClearLastCheckpoint => Machine(m.now, m.saved[..|m.saved| - 1])
    case RollbackToLastCheckpoint => Machine(m.saved[|m.saved| - 1], m.saved[..|m.saved| - 1])
    case _ => Machine(Changed(m.now, step), m.saved)
  }

  predicate AllowedRun(m: Machine, steps: seq<Step>)
    decreases steps
  {
    steps == [] || (Allowed(m, steps[0]) && AllowedRun(After(m, steps[0]), steps[1..]))
  }

  function Run(m: Machine, steps: seq<Step>): Machine
    requires AllowedRun(m, steps)
    decreases steps
  {
    if steps == [] then m else Run(After(m, steps[0]), steps[1..])
  }

  /** The steps never close one of the first `depth` checkpoints. */
  predicate StaysAbove(m: Machine, steps: seq<Step>, depth: nat)
    requires AllowedRun(m, steps)
    decreases steps
  {
    |m.saved| >= depth && (steps == [] || StaysAbove(After(m, steps[0]), steps[1..], depth))
  }

  ghost predicate AllKept(m: Machine)
  {
    Kept(m.now) && forall i :: 0 <= i < |m.saved| ==> Kept(m.saved[i])
  }

  lemma {:induction false} OuterCheckpointsStay(m: Machine, steps: seq<Step>, depth: nat)
    requires AllowedRun(m, steps) && StaysAbove(m, steps, depth)
    ensures |Run(m, steps).saved| >= depth && Run(m, steps).saved[..depth] == m.saved[..depth]
    decreases steps
  {
    if steps != [] {
      OuterCheckpointsStay(After(m, steps[0]), steps[1..], depth);
    }
  }

  /** Whatever happens inside a transaction, nested transactions that commit or roll
      back included, rolling it back restores everything. */
  lemma RollbackRestores(m: Machine, steps: seq<Step>)
    requires AllowedRun(After(m, AddCheckpoint), steps)
    requires StaysAbove(After(m, AddCheckpoint), steps, |m.saved| + 1)
    requires |Run(After(m, AddCheckpoint), steps).saved| == |m.saved| + 1
    ensures After(Run(After(m, AddCheckpoint), steps), RollbackToLastCheckpoint) == m
  {
    var started := After(m, AddCheckpoint);
    OuterCheckpointsStay(started, steps, |m.saved| + 1);
    var last := Run(started, steps);
    assert last.saved == last.saved[..|m.saved| + 1] && started.saved[..|m.saved| + 1] == m.saved + [m.now];
  }

  lemma StepKeeps(m: Machine, step: Step)
    requires Allowed(m, step) && AllKept(m)
    ensures AllKept(After(m, step))
  {
  }

  /** No run leaves a key or a value that points to freed memory. */
  lemma {:induction false} RunKeeps(m: Machine, steps: seq<Step>)
    requires AllowedRun(m, steps) && AllKept(m)
    ensures AllKept(Run(m, steps))
    decreases steps
  {
    if steps != [] {
      StepKeeps(m, steps[0]);
      RunKeeps(After(m, steps[0]), steps[1..]);
    }
  }

  // ----- The undo log ----------------------------------------------------------

  function Chars(s: seq<Text>): set<string>
  {
    set t | t in s :: t.chars
  }

  function Members<T>(s: seq<T>): set<T>
  {
    set t | t in s
  }

  /** Erases the keys logged from index `n` on. */
  function UndoNames<V>(m: map<string, V>, log: seq<Text>, n: nat): map<string, V>
    requires n <= |log|
  {
    m - Chars(log[n..])
  }

  function UndoKeys<K, V>(m: map<K, V>, log: seq<K>, n: nat): map<K, V>
    requires n <= |log|
  {
    m - Members(log[n..])
  }

  lemma UndoNamesTwice<V>(m: map<string, V>, log: seq<Text>, late: nat, early: nat)
    requires early <= late <= |log|
    ensures UndoNames(UndoNames(m, log, late), log[..late], early) == UndoNames(m, log, early)
  {
    assert log[early..] == log[..late][early..] + log[late..];
    assert Chars(log[early..]) == Chars(log[..late][early..]) + Chars(log[late..]);
  }

  lemma UndoKeysTwice<K, V>(m: map<K, V>, log: seq<K>, late: nat, early: nat)
    requires early <= late <= |log|
    ensures UndoKeys(UndoKeys(m, log, late), log[..late], early) == UndoKeys(m, log, early)
  {
    assert log[early..] == log[..late][early..] + log[late..];
    assert Members(log[early..]) == Members(log[..late][early..]) + Members(log[late..]);
  }

  lemma UndoNewName<V>(m: map<string, V>, log: seq<Text>, name: Text, v: V, n: nat)
    requires n <= |log| && name.chars !in m
    ensures UndoNames(m[name.chars := v], log + [name], n) == UndoNames(m, log, n)
  {
    assert (log + [name])[n..] == log[n..] + [name];
    assert Chars(log[n..] + [name]) == Chars(log[n..]) + {name.chars};
  }

  lemma UndoNewKey<K, V>(m: map<K, V>, log: seq<K>, key: K, v: V, n: nat)
    requires n <= |log| && key !in m
    ensures UndoKeys(m[key := v], log + [key], n) == UndoKeys(m, log, n)
  {
    assert (log + [key])[n..] == log[n..] + [key];
    assert Members(log[n..] + [key]) == Members(log[n..]) + {key};
  }

  /** The contents, and the keys added since the first open checkpoint. */
  datatype Journal = Journal(now: Contents, symbols: seq<Text>, files: seq<Text>, extensions: seq<(Memory, int)>)

  function Here(j: Journal): CheckPoint
  {
    CheckPoint(|j.now.strings|, |j.now.messages|, |j.now.fileTables|, |j.now.allocations|,
               |j.symbols|, |j.files|, |j.extensions|)
  }

  predicate NotAfter(a: CheckPoint, b: CheckPoint)
  {
    && a.strings <= b.strings && a.messages <= b.messages
    && a.fileTables <= b.fileTables && a.allocations <= b.allocations
    && a.symbols <= b.symbols && a.files <= b.files && a.extensions <= b.extensions
  }

  /** The contents at a checkpoint: what is left when the log is undone down to it. */
  function Undone(j: Journal, at: CheckPoint): Contents
    requires NotAfter(at, Here(j))
  {
    Contents(UndoNames(j.now.symbols, j.symbols, at.symbols),
             UndoNames(j.now.files, j.files, at.files),
             UndoKeys(j.now.extensions, j.extensions, at.extensions),
             j.now.strings[..at.strings], j.now.messages[..at.messages],
             j.now.fileTables[..at.fileTables], j.now.allocations[..at.allocations])
  }

  /** Checkpoints are in order, and logged keys are live strings, at present and
      after any rollback. */
  predicate ValidLog(j: Journal, checkpoints: seq<CheckPoint>)
    decreases checkpoints
  {
    && LogKept(j)
    && (checkpoints == [] ||
        var last := checkpoints[|checkpoints| - 1];
        && NotAfter(last, Here(j))
        && ValidLog(CutBack(j, last), checkpoints[..|checkpoints| - 1]))
  }

  predicate LogKept(j: Journal)
  {
    Members(j.symbols) + Members(j.files) <= Members(j.now.strings)
  }

  /** The journal at an earlier checkpoint. */
  function CutBack(j: Journal, at: CheckPoint): (r: Journal)
    requires NotAfter(at, Here(j))
    ensures Here(r) == at
  {
    Journal(Undone(j, at), j.symbols[..at.symbols], j.files[..at.files], j.extensions[..at.extensions])
  }

  /** The journals at the open checkpoints, innermost last. */
  function Saved(j: Journal, checkpoints: seq<CheckPoint>): seq<Contents>
    requires ValidLog(j, checkpoints)
    decreases checkpoints
  {
    if checkpoints == [] then []
    else
      var back := CutBack(j, checkpoints[|checkpoints| - 1]);
      Saved(back, checkpoints[..|checkpoints| - 1]) + [back.now]
  }

  /** Cutting back in two steps is cutting back in one. */
  lemma CutBackTwice(j: Journal, late: CheckPoint, early: CheckPoint)
    requires NotAfter(early, late) && NotAfter(late, Here(j))
    ensures CutBack(CutBack(j, late), early) == CutBack(j, early)
  {
    UndoNamesTwice(j.now.symbols, j.symbols, late.symbols, early.symbols);
    UndoNamesTwice(j.now.files, j.files, late.files, early.files);
    UndoKeysTwice(j.now.extensions, j.extensions, late.extensions, early.extensions);
  }

  /** The journal after a step that adds something. */
  function Logged(j: Journal, step: Step): Journal
  {
    var now := Changed(j.now, step);
    match step
    case AddSymbol(name, _) => if name.chars in j.now.symbols then j else j.(now := now, symbols := j.symbols + [name])
    case AddFile(name, _) => if name.chars in j.now.files then j else j.(now := now, files := j.files + [name])
    case AddExtension(extendee, number, _) =>
      if (extendee, number) in j.now.extensions then j
      else j.(now := now, extensions := j.extensions + [(extendee, number)])
    case _ => j.(now := now)
  }

  predicate Adds(step: Step)
  {
    !step.AddCheckpoint? && !step.ClearLastCheckpoint? && !step.RollbackToLastCheckpoint?
  }

  ghost function StateOf(j: Journal, checkpoints: seq<CheckPoint>): Machine
    requires ValidLog(j, checkpoints)
  {
    Machine(j.now, Saved(j, checkpoints))
  }

  /** What was added is undone to what was there. */
  lemma AddIsUndone(j: Journal, step: Step, at: CheckPoint)
    requires Adds(step) && NotAfter(at, Here(j))
    ensures NotAfter(at, Here(Logged(j, step))) && CutBack(Logged(j, step), at) == CutBack(j, at)
  {
    match step
    case AddSymbol(name, symbol) =>
      if name.chars !in j.now.symbols { UndoNewName(j.now.symbols, j.symbols, name, Row(name, symbol), at.symbols); }
    case AddFile(name, file) =>
      if name.chars !in j.now.files { UndoNewName(j.now.files, j.files, name, Row(name, file), at.files); }
    case AddExtension(extendee, number, field) =>
      if (extendee, number) !in j.now.extensions {
        UndoNewKey(j.now.extensions, j.extensions, (extendee, number), field, at.extensions);
      }
    case _ =>
  }

  /** Adding refines the transaction machine. */
  lemma AddRefines(j: Journal, checkpoints: seq<CheckPoint>, step: Step)
    requires Adds(step) && ValidLog(j, checkpoints) && Allowed(StateOf(j, checkpoints), step)
    ensures ValidLog(Logged(j, step), checkpoints)
    ensures StateOf(Logged(j, step), checkpoints) == After(StateOf(j, checkpoints), step)
  {
    if checkpoints != [] {
      AddIsUndone(j, step, checkpoints[|checkpoints| - 1]);
    }
  }

  /** Opening a checkpoint changes nothing and saves everything. */
  lemma CheckpointRefines(j: Journal, checkpoints: seq<CheckPoint>)
    requires ValidLog(j, checkpoints)
    ensures ValidLog(j, checkpoints + [Here(j)])
    ensures StateOf(j, checkpoints + [Here(j)]) == After(StateOf(j, checkpoints), AddCheckpoint)
  {
    assert (checkpoints + [Here(j)])[..|checkpoints|] == checkpoints;
    assert CutBack(j, Here(j)) == j;
  }

  lemma SavedIsFromCutBack(j: Journal, last: CheckPoint, outer: seq<CheckPoint>)
    requires LogKept(j) && NotAfter(last, Here(j)) && ValidLog(CutBack(j, last), outer)
    ensures ValidLog(j, outer) && Saved(j, outer) == Saved(CutBack(j, last), outer)
  {
    if outer != [] {
      CutBackTwice(j, last, outer[|outer| - 1]);
    }
  }

  /** Closing one keeps the outer ones. */
  lemma ClearRefines(j: Journal, checkpoints: seq<CheckPoint>)
    requires ValidLog(j, checkpoints) && checkpoints != []
    ensures ValidLog(j, checkpoints[..|checkpoints| - 1])
    ensures StateOf(j, checkpoints[..|checkpoints| - 1]) == After(StateOf(j, checkpoints), ClearLastCheckpoint)
  {
    var last := checkpoints[|checkpoints| - 1];
    var outer := checkpoints[..|checkpoints| - 1];
    SavedIsFromCutBack(j, last, outer);
    assert Saved(j, checkpoints) == Saved(CutBack(j, last), outer) + [CutBack(j, last).now];
  }

  lemma LogIsLive(j: Journal)
    requires LogKept(j)
    ensures forall t :: t in j.symbols || t in j.files ==> t in j.now.strings
  {
    forall t | t in j.symbols || t in j.files ensures t in j.now.strings {
      assert t in Members(j.symbols) + Members(j.files);
    }
  }

  // ----- The class -------------------------------------------------------------

  class Tables {
    var strings: seq<Text>
    var messages: seq<Memory>
    var fileTables: seq<Memory>
    var allocations: seq<Memory>
    var symbolsByName: map<string, Row<Symbol>>
    var filesByName: map<string, Row<Memory>>
    var extensions: map<(Memory, int), Memory>
    var checkpoints: seq<CheckPoint>
    var symbolsAfterCheckpoint: seq<Text>
    var filesAfterCheckpoint: seq<Text>
    var extensionsAfterCheckpoint: seq<(Memory, int)>

    ghost function Log(): Journal
      reads this
    {
      Journal(Contents(symbolsByName, filesByName, extensions, strings, messages, fileTables, allocations),
              symbolsAfterCheckpoint, filesAfterCheckpoint, extensionsAfterCheckpoint)
    }

    ghost predicate Valid()
      reads this
    {
      ValidLog(Log(), checkpoints) && AllKept(State())
    }

    /** The transaction machine this object implements. */
    ghost function State(): Machine
      requires ValidLog(Log(), checkpoints)
      reads this
    {
      StateOf(Log(), checkpoints)
    }

    constructor ()
      ensures Valid() && State() == Machine(Contents(map[], map[], map[], [], [], [], []), [])
    {
      strings, messages, fileTables, allocations := [], [], [], [];
      symbolsByName, filesByName, extensions := map[], map[], map[];
      checkpoints, symbolsAfterCheckpoint, filesAfterCheckpoint, extensionsAfterCheckpoint := [], [], [], [];
    }

    method AddSymbol(fullName: Text, symbol: Symbol) returns (ok: bool)
      requires Valid() && Allowed(State(), Step.AddSymbol(fullName, symbol))
      modifies this
      ensures Valid() && State() == After(old(State()), Step.AddSymbol(fullName, symbol))
      ensures ok <==> fullName.chars !in old(symbolsByName)
      ensures symbolsByName == if ok then old(symbolsByName)[fullName.chars := Row(fullName, symbol)] else old(symbolsByName)
      ensures filesByName == old(filesByName) && extensions == old(extensions) && strings == old(strings) && messages == old(messages)
      ensures fileTables == old(fileTables) && allocations == old(allocations)
    {
      ghost var step := Step.AddSymbol(fullName, symbol);
      AddRefines(Log(), checkpoints, step);
      StepKeeps(State(), step);
      if fullName.chars !in symbolsByName {
        symbolsByName := symbolsByName[fullName.chars := Row(fullName, symbol)];
        symbolsAfterCheckpoint := symbolsAfterCheckpoint + [fullName];
        ok := true;
      } else {
        ok := false;
      }
      assert Log() == Logged(old(Log()), step);
    }

    method AddFile(name: Text, file: Memory) returns (ok: bool)
      requires Valid() && Allowed(State(), Step.AddFile(name, file))
      modifies this
      ensures Valid() && State() == After(old(State()), Step.AddFile(name, file))
      ensures ok <==> name.chars !in old(filesByName)
      ensures filesByName == if ok then old(filesByName)[name.chars := Row(name, file)] else old(filesByName)
      ensures symbolsByName == old(symbolsByName) && extensions == old(extensions) && strings == old(strings) && messages == old(messages)
      ensures fileTables == old(fileTables) && allocations == old(allocations)
    {
      ghost var step := Step.AddFile(name, file);
      AddRefines(Log(), checkpoints, step);
      StepKeeps(State(), step);
      if name.chars !in filesByName {
        filesByName := filesByName[name.chars := Row(name, file)];
        filesAfterCheckpoint := filesAfterCheckpoint + [name];
        ok := true;
      } else {
        ok := false;
      }
      assert Log() == Logged(old(Log()), step);
    }

    method AddExtension(extendee: Memory, number: int, field: Memory) returns (ok: bool)
      requires Valid() && Allowed(State(), Step.AddExtension(extendee, number, field))
      modifies this
      ensures Valid() && State() == After(old(State()), Step.AddExtension(extendee, number, field))
      ensures ok <==> (extendee, number) !in old(extensions)
      ensures extensions == if ok then old(extensions)[(extendee, number) := field] else old(extensions)
      ensures symbolsByName == old(symbolsByName) && filesByName == old(filesByName) && strings == old(strings) && messages == old(messages)
      ensures fileTables == old(fileTables) && allocations == old(allocations)
    {
      ghost var step := Step.AddExtension(extendee, number, field);
      AddRefines(Log(), checkpoints, step);
      StepKeeps(State(), step);
      if (extendee, number) !in extensions {
        extensions := extensions[(extendee, number) := field];
        extensionsAfterCheckpoint := extensionsAfterCheckpoint + [(extendee, number)];
        ok := true;
      } else {
        ok := false;
      }
      assert Log() == Logged(old(Log()), step);
    }

    method AllocateString(value: string) returns (result: Text)
      requires Valid()
      modifies this
      ensures fresh(result) && result.chars == value
      ensures Valid() && State() == After(old(State()), Step.AllocateString(result))
      ensures strings == old(strings) + [result]
      ensures symbolsByName == old(symbolsByName) && filesByName == old(filesByName) && extensions == old(extensions) && messages == old(messages)
      ensures fileTables == old(fileTables) && allocations == old(allocations)
    {
      result := new Text(value);
      Allocated(Step.AllocateString(result));
      strings := strings + [result];
    }

    method AllocateMessage() returns (result: Memory)
      requires Valid()
      modifies this
      ensures fresh(result)
      ensures Valid() && State() == After(old(State()), Step.AllocateMessage(result))
      ensures messages == old(messages) + [result]
      ensures symbolsByName == old(symbolsByName) && filesByName == old(filesByName) && extensions == old(extensions) && strings == old(strings)
      ensures fileTables == old(fileTables) && allocations == old(allocations)
    {
      result := new Memory();
      Allocated(Step.AllocateMessage(result));
      messages := messages + [result];
    }

    method AllocateFileTables() returns (result: Memory)
      requires Valid()
      modifies this
      ensures fresh(result)
      ensures Valid() && State() == After(old(State()), Step.AllocateFileTables(result))
      ensures fileTables == old(fileTables) + [result]
      ensures symbolsByName == old(symbolsByName) && filesByName == old(filesByName) && extensions == old(extensions) && strings == old(strings)
      ensures messages == old(messages) && allocations == old(allocations)
    {
      result := new Memory();
      Allocated(Step.AllocateFileTables(result));
      fileTables := fileTables + [result];
    }

    method AllocateBytes(size: nat) returns (result: Memory?)
      requires Valid()
      modifies this
      ensures Valid()
      ensures if size == 0 then result == null && State() == old(State())
              else result != null && fresh(result) && State() == After(old(State()), Step.AllocateBytes(result))
      ensures allocations == if result == null then old(allocations) else old(allocations) + [result]
      ensures symbolsByName == old(symbolsByName) && filesByName == old(filesByName) && extensions == old(extensions) && strings == old(strings)
      ensures messages == old(messages) && fileTables == old(fileTables)
    {
      if size == 0 { return null; }
      result := new Memory();
      Allocated(Step.AllocateBytes(result));
      allocations := allocations + [result];
    }

    lemma Allocated(step: Step)
      requires Valid() && Allowed(State(), step)
      requires step.AllocateString? || step.AllocateMessage? || step.AllocateFileTables? || step.AllocateBytes?
      ensures ValidLog(Logged(Log(), step), checkpoints)
      ensures StateOf(Logged(Log(), step), checkpoints) == After(State(), step)
      ensures AllKept(After(State(), step))
    {
      AddRefines(Log(), checkpoints, step);
      StepKeeps(State(), step);
    }

    method AddCheckpoint()
      requires Valid()
      modifies this
      ensures Valid() && State() == After(old(State()), Step.AddCheckpoint)
      ensures State().now == old(State().now) && State().saved == old(State().saved) + [State().now]
    {
      CheckpointRefines(Log(), checkpoints);
      StepKeeps(State(), Step.AddCheckpoint);
      checkpoints := checkpoints + [CheckPoint(|strings|, |messages|, |fileTables|, |allocations|,
        |symbolsAfterCheckpoint|, |filesAfterCheckpoint|, |extensionsAfterCheckpoint|)];
    }

    method ClearLastCheckpoint()
      requires Valid() && checkpoints != []
      modifies this
      ensures Valid() && State() == After(old(State()), Step.ClearLastCheckpoint)
      ensures State().now == old(State().now) && State().saved == old(State().saved[..|State().saved| - 1])
    {
      ClearRefines(Log(), checkpoints);
      StepKeeps(State(), Step.ClearLastCheckpoint);
      checkpoints := checkpoints[..|checkpoints| - 1];
      if checkpoints == [] {
        symbolsAfterCheckpoint, filesAfterCheckpoint, extensionsAfterCheckpoint := [], [], [];
      }
    }

    /** Keys are erased by what their strings hold, so before the strings go. */
    method RollbackToLastCheckpoint()
      requires Valid() && checkpoints != []
      modifies this
      ensures Valid() && State() == After(old(State()), Step.RollbackToLastCheckpoint)
      ensures State().now == old(State().saved[|State().saved| - 1])
      ensures State().saved == old(State().saved[..|State().saved| - 1])
    {
      StepKeeps(State(), Step.RollbackToLastCheckpoint);
      var checkpoint := checkpoints[|checkpoints| - 1];
      EraseLogged(checkpoint);
      Truncate(checkpoint);
    }

    method EraseLogged(checkpoint: CheckPoint)
      requires LogKept(Log()) && NotAfter(checkpoint, Here(Log()))
      modifies this`symbolsByName, this`filesByName, this`extensions
      ensures symbolsByName == Undone(old(Log()), checkpoint).symbols
      ensures filesByName == Undone(old(Log()), checkpoint).files
      ensures extensions == Undone(old(Log()), checkpoint).extensions
    {
      LogIsLive(Log());
      EraseSymbols(checkpoint.symbols);
      EraseFiles(checkpoint.files);
      EraseExtensions(checkpoint.extensions);
    }

    method Truncate(checkpoint: CheckPoint)
      requires NotAfter(checkpoint, Here(Log())) && checkpoints != []
      modifies this
      ensures var j := Log();
        var c := old(Log());
        j.now == Contents(c.now.symbols, c.now.files, c.now.extensions, c.now.strings[..checkpoint.strings],
                          c.now.messages[..checkpoint.messages], c.now.fileTables[..checkpoint.fileTables],
                          c.now.allocations[..checkpoint.allocations])
        && j.symbols == c.symbols[..checkpoint.symbols] && j.files == c.files[..checkpoint.files]
        && j.extensions == c.extensions[..checkpoint.extensions]
      ensures checkpoints == old(checkpoints[..|checkpoints| - 1])
    {
      symbolsAfterCheckpoint := symbolsAfterCheckpoint[..checkpoint.symbols];
      filesAfterCheckpoint := filesAfterCheckpoint[..checkpoint.files];
      extensionsAfterCheckpoint := extensionsAfterCheckpoint[..checkpoint.extensions];
      strings := strings[..checkpoint.strings];
      messages := messages[..checkpoint.messages];
      fileTables := fileTables[..checkpoint.fileTables];
      allocations := allocations[..checkpoint.allocations];
      checkpoints := checkpoints[..|checkpoints| - 1];
    }

    method EraseSymbols(from: nat)
      requires from <= |symbolsAfterCheckpoint|
      requires forall t :: t in symbolsAfterCheckpoint ==> t in strings
      modifies this`symbolsByName
      ensures symbolsByName == UndoNames(old(symbolsByName), symbolsAfterCheckpoint, from)
    {
      for i := from to |symbolsAfterCheckpoint|
        invariant symbolsByName == old(symbolsByName) - Chars(symbolsAfterCheckpoint[from..i])
      {
        assert symbolsAfterCheckpoint[i] in strings;
        symbolsByName := symbolsByName - {symbolsAfterCheckpoint[i].chars};
        assert symbolsAfterCheckpoint[from..i + 1] == symbolsAfterCheckpoint[from..i] + [symbolsAfterCheckpoint[i]];
      }
    }

    method EraseFiles(from: nat)
      requires from <= |filesAfterCheckpoint|
      requires forall t :: t in filesAfterCheckpoint ==> t in strings
      modifies this`filesByName
      ensures filesByName == UndoNames(old(filesByName), filesAfterCheckpoint, from)
    {
      for i := from to |filesAfterCheckpoint|
        invariant filesByName == old(filesByName) - Chars(filesAfterCheckpoint[from..i])
      {
        assert filesAfterCheckpoint[i] in strings;
        filesByName := filesByName - {filesAfterCheckpoint[i].chars};
        assert filesAfterCheckpoint[from..i + 1] == filesAfterCheckpoint[from..i] + [filesAfterCheckpoint[i]];
      }
    }

    method EraseExtensions(from: nat)
      requires from <= |extensionsAfterCheckpoint|
      modifies this`extensions
      ensures extensions == UndoKeys(old(extensions), extensionsAfterCheckpoint, from)
    {
      for i := from to |extensionsAfterCheckpoint|
        invariant extensions == old(extensions) - Members(extensionsAfterCheckpoint[from..i])
      {
        extensions := extensions - {extensionsAfterCheckpoint[i]};
        assert extensionsAfterCheckpoint[from..i + 1]
            == extensionsAfterCheckpoint[from..i] + [extensionsAfterCheckpoint[i]];
      }
    }
  }
}