/** SimpleDescriptorDatabase::DescriptorIndex, the class. */
module DescriptorIndex {
  import opened Basics
  import opened SymbolIndex

  datatype Message = Message(name: string, nestedTypes: seq<Message>, extensions: seq<Field>)
  datatype Field = Field(name: string, extendee: string, number: int)
  datatype File = File(name: string, package: string, messages: seq<Message>, enums: seq<string>,
                       extensions: seq<Field>, services: seq<string>)

  // ----- std::map<pair<string, int>, Value> ------------------------------------

  datatype ExtensionEntry<V> = ExtensionEntry(extendee: string, number: int, value: V)

  predicate Before(extendee: string, number: int, extendee': string, number': int)
  {
    Less(extendee, extendee') || (extendee == extendee' && number < number')
  }

  type ExtensionMap<V> = s: seq<ExtensionEntry<V>> | ExtensionsSorted(s)

  predicate ExtensionsSorted<V>(s: seq<ExtensionEntry<V>>)
  {
    forall i, j :: 0 <= i < j < |s| ==> Before(s[i].extendee, s[i].number, s[j].extendee, s[j].number)
  }

  lemma BeforeTransitive(a: string, m: int, b: string, n: int, c: string, o: int)
    requires Before(a, m, b, n) && Before(b, n, c, o)
    ensures Before(a, m, c, o)
  {
    if Less(a, b) && Less(b, c) { LessTransitive(a, b, c); }
  }

  lemma BeforeTotal(a: string, m: int, b: string, n: int)
    ensures Before(a, m, b, n) || (a == b && m == n) || Before(b, n, a, m)
    ensures !(Before(a, m, b, n) && Before(b, n, a, m)) && !Before(a, m, a, m)
  {
    LessTotal(a, b);
    LessTotal(a, a);
  }

  /** std::map::lower_bound: the first key that does not sort before the given one. */
  function LowerBound<V>(s: ExtensionMap<V>, extendee: string, number: int): (i: nat)
    ensures i <= |s|
    ensures forall j :: 0 <= j < i ==> Before(s[j].extendee, s[j].number, extendee, number)
    ensures forall j :: i <= j < |s| ==> !Before(s[j].extendee, s[j].number, extendee, number)
  {
    if s == [] then 0
    else if !Before(s[0].extendee, s[0].number, extendee, number) then
      assert forall j :: 0 < j < |s| ==> !Before(s[j].extendee, s[j].number, extendee, number) by {
        forall j | 0 < j < |s| && Before(s[j].extendee, s[j].number, extendee, number) ensures false {
          assert Before(s[0].extendee, s[0].number, s[j].extendee, s[j].number);
          BeforeTransitive(s[0].extendee, s[0].number, s[j].extendee, s[j].number, extendee, number);
        }
      }
      0
    else
      assert forall j :: 0 < j < |s| ==> s[1..][j - 1] == s[j];
      LowerBound(s[1..], extendee, number) + 1
  }

  predicate HasExtension<V>(s: ExtensionMap<V>, extendee: string, number: int)
  {
    exists i :: 0 <= i < |s| && s[i].extendee == extendee && s[i].number == number
  }

  /** InsertIfNotPresent on the extension map. */
  function ExtensionInserted<V>(s: ExtensionMap<V>, extendee: string, number: int, value: V): ExtensionMap<V>
    requires !HasExtension(s, extendee, number)
  {
    var at := LowerBound(s, extendee, number);
    var r := s[..at] + [ExtensionEntry(extendee, number, value)] + s[at..];
    assert ExtensionsSorted(r) by {
      forall i | at <= i < |s| ensures Before(extendee, number, s[i].extendee, s[i].number) {
        BeforeTotal(extendee, number, s[i].extendee, s[i].number);
      }
      forall i, j | 0 <= i < j < |r| ensures Before(r[i].extendee, r[i].number, r[j].extendee, r[j].number) {
        if j > at { assert r[j] == s[j - 1]; }
        if i > at { assert r[i] == s[i - 1]; }
      }
    }
    r
  }

  lemma ExtensionInsertedEntries<V>(s: ExtensionMap<V>, extendee: string, number: int, value: V)
    requires !HasExtension(s, extendee, number)
    ensures forall e :: e in ExtensionInserted(s, extendee, number, value)
                   <==> e in s || e == ExtensionEntry(extendee, number, value)
  {
    var at := LowerBound(s, extendee, number);
    assert s == s[..at] + s[at..];
  }

  predicate Ascending(numbers: seq<int>)
  {
    forall i, j :: 0 <= i < j < |numbers| ==> numbers[i] < numbers[j]
  }

  /** The entries from the lower bound of number 0 up to the next type are exactly
      the type's entries that are not negative, in ascending order. */
  lemma WalkMeetsAll<V>(s: ExtensionMap<V>, extendee: string, end: nat, numbers: seq<int>)
    requires LowerBound(s, extendee, 0) <= end <= |s| && |numbers| == end - LowerBound(s, extendee, 0)
    requires end == |s| || s[end].extendee != extendee
    requires forall k :: 0 <= k < |numbers| ==>
      s[LowerBound(s, extendee, 0) + k].extendee == extendee && numbers[k] == s[LowerBound(s, extendee, 0) + k].number
    ensures Ascending(numbers)
    ensures forall n :: n in numbers <==> n >= 0 && HasExtension(s, extendee, n)
  {
    var first := LowerBound(s, extendee, 0);
    LessTotal(extendee, extendee);
    forall i, j | 0 <= i < j < |numbers| ensures numbers[i] < numbers[j] {
      assert Before(s[first + i].extendee, s[first + i].number, s[first + j].extendee, s[first + j].number);
    }
    forall k | end <= k < |s| ensures s[k].extendee != extendee {
      LessTotal(s[end].extendee, extendee);
      assert k == end || Before(s[end].extendee, s[end].number, s[k].extendee, s[k].number);
    }
    forall n | n >= 0 && HasExtension(s, extendee, n) ensures n in numbers {
      var i :| 0 <= i < |s| && s[i].extendee == extendee && s[i].number == n;
      assert numbers[i - first] == n;
    }
  }

  /** A negative number is registered, but the walk starts past it. */
  lemma NegativeNumberIsSkipped<V>(value: V)
    ensures ExtensionsSorted([ExtensionEntry("T", -1, value)])
    ensures var s: ExtensionMap<V> := [ExtensionEntry("T", -1, value)];
      HasExtension(s, "T", -1) && LowerBound(s, "T", 0) == |s|
  {
    var s: ExtensionMap<V> := [ExtensionEntry("T", -1, value)];
    assert Before("T", -1, "T", 0) && s[0].extendee == "T" && s[0].number == -1;
  }

  // ----- What a file declares --------------------------------------------------

  function Path(file: File): string
  {
    if file.package == "" then "" else file.package + "."
  }

  /** The symbols AddFile registers: the file's own messages, enums, extensions and
      services. */
  ghost predicate DeclaresSymbol(file: File, name: string)
  {
    || (exists m :: m in file.messages && name == Path(file) + m.name)
    || (exists e :: e in file.enums && name == Path(file) + e)
    || (exists x :: x in file.extensions && name == Path(file) + x.name)
    || (exists s :: s in file.services && name == Path(file) + s)
  }

  /** A message, enum, extension or service at the top level of the file. */
  ghost predicate TopLevel(file: File, x: string)
  {
    || (exists m :: m in file.messages && x == m.name)
    || x in file.enums
    || (exists f :: f in file.extensions && x == f.name)
    || x in file.services
  }

  /** The name of something at the top level: after the file's package and a dot, if it
      has one. */
  ghost predicate NamedBy(file: File, name: string)
  {
    if file.package == "" then TopLevel(file, name)
    else exists x :: TopLevel(file, x) && name == file.package + "." + x
  }

  lemma DeclaredNames(file: File)
    ensures forall name :: DeclaresSymbol(file, name) <==> NamedBy(file, name)
    ensures forall x :: TopLevel(file, x) ==> DeclaresSymbol(file, if file.package == "" then x else file.package + "." + x)
  {
    forall x | TopLevel(file, x) ensures DeclaresSymbol(file, if file.package == "" then x else file.package + "." + x) {
      assert "" + x == x;
    }
    forall name | DeclaresSymbol(file, name) ensures NamedBy(file, name) {
      var x := name[|Path(file)|..];
      assert TopLevel(file, x) && name == Path(file) + x;
    }
  }

  /** With a package, whatever is declared lies inside it. */
  lemma DeclaredInPackage(file: File, name: string)
    requires file.package != "" && DeclaresSymbol(file, name)
    ensures Encloses(file.package, name) && name != file.package
  {
    DeclaredNames(file);
    var x :| TopLevel(file, x) && name == file.package + "." + x;
    assert |name| > |file.package|;
  }

  /** Whatever is nested in an entry's name is found there, when no key encloses another. */
  lemma NestedIsFound<V>(s: SymbolMap<V>, e: Entry<V>, name: string)
    requires Separate(s) && e in s && Encloses(e.key, name)
    ensures FindSymbol(s, name) == Some(e.value)
  {
    var i := InEntries(s, e);
    EnclosesIsSubSymbol(e.key, name);
    ScopeIsFloor(s, i, name);
  }

  lemma FileIsFound<V>(s: SymbolMap<V>, file: File, value: V)
    requires forall name :: DeclaresSymbol(file, name) ==> Entry(name, value) in s
    ensures forall x :: TopLevel(file, x) ==>
      FindSymbol(s, if file.package == "" then x else file.package + "." + x) == Some(value)
    ensures Separate(s) ==> forall scope, name :: DeclaresSymbol(file, scope) && Encloses(scope, name) ==>
      FindSymbol(s, name) == Some(value)
  {
    DeclaredNames(file);
    forall name | DeclaresSymbol(file, name) ensures FindSymbol(s, name) == Some(value) {
      var i := InEntries(s, Entry(name, value));
      ExactKeyIsFound(s, i);
    }
    forall scope, name | Separate(s) && DeclaresSymbol(file, scope) && Encloses(scope, name)
      ensures FindSymbol(s, name) == Some(value)
    {
      NestedIsFound(s, Entry(scope, value), name);
    }
  }

  /** An extension declared in a message, at any depth. */
  predicate InMessage(field: Field, message: Message)
  {
    field in message.extensions || InMessages(field, message.nestedTypes)
  }

  predicate InMessages(field: Field, messages: seq<Message>)
  {
    exists m :: m in messages && InMessage(field, m)
  }

  predicate DeclaresExtension(file: File, field: Field)
  {
    field in file.extensions || InMessages(field, file.messages)
  }

  predicate FullyQualified(field: Field)
  {
    field.extendee != "" && field.extendee[0] == '.'
  }

  predicate SameExtension(field: Field, field': Field)
  {
    FullyQualified(field) && field.extendee == field'.extendee && field.number == field'.number
  }

  // ----- Registering, one item after the other ---------------------------------

  /** What AddFile hands to AddSymbol and to AddExtension. */
  datatype Item = Symbol(name: string) | Extension(field: Field)

  datatype Tables<V> = Tables(symbols: SymbolMap<V>, extensions: ExtensionMap<V>)
  datatype Outcome<V> = Outcome(ok: bool, tables: Tables<V>)

  function NestedItems(message: Message): seq<Item>
    decreases message, 1
  {
    AllNestedItems(message.nestedTypes) + ExtensionItems(message.extensions)
  }

  function AllNestedItems(messages: seq<Message>): seq<Item>
    decreases messages, 0
  {
    if messages == [] then [] else NestedItems(messages[0]) + AllNestedItems(messages[1..])
  }

  function ExtensionItems(fields: seq<Field>): seq<Item>
  {
    if fields == [] then [] else [Extension(fields[0])] + ExtensionItems(fields[1..])
  }

  function MessageItems(path: string, messages: seq<Message>): seq<Item>
  {
    if messages == [] then []
    else [Symbol(path + messages[0].name)] + (NestedItems(messages[0]) + MessageItems(path, messages[1..]))
  }

  function NameItems(path: string, names: seq<string>): seq<Item>
  {
    if names == [] then [] else [Symbol(path + names[0])] + NameItems(path, names[1..])
  }

  function FieldItems(path: string, fields: seq<Field>): seq<Item>
  {
    if fields == [] then []
    else [Symbol(path + fields[0].name)] + ([Extension(fields[0])] + FieldItems(path, fields[1..]))
  }

  /** Everything the file declares, in the order in which it is registered. */
  function Items(file: File): seq<Item>
  {
    var path := Path(file);
    MessageItems(path, file.messages)
    + (NameItems(path, file.enums) + (FieldItems(path, file.extensions) + NameItems(path, file.services)))
  }

  lemma {:induction false} ExtensionItemsHold(fields: seq<Field>)
    ensures forall field :: Extension(field) in ExtensionItems(fields) <==> field in fields
    ensures forall item :: item in ExtensionItems(fields) ==> item.Extension?
  {
    if fields != [] { ExtensionItemsHold(fields[1..]); }
  }

  /** The items of a message are the extensions declared in it, at any depth. */
  lemma {:induction false} NestedItemsHold(message: Message)
    ensures forall field :: Extension(field) in NestedItems(message) <==> InMessage(field, message)
    ensures forall item :: item in NestedItems(message) ==> item.Extension?
    decreases message, 1
  {
    AllNestedItemsHold(message.nestedTypes);
    ExtensionItemsHold(message.extensions);
  }

  lemma {:induction false} AllNestedItemsHold(messages: seq<Message>)
    ensures forall field :: Extension(field) in AllNestedItems(messages) <==> InMessages(field, messages)
    ensures forall item :: item in AllNestedItems(messages) ==> item.Extension?
    decreases messages, 0
  {
    if messages != [] {
      NestedItemsHold(messages[0]);
      AllNestedItemsHold(messages[1..]);
      InMessagesSplit(messages);
    }
  }

  lemma InMessagesSplit(messages: seq<Message>)
    requires messages != []
    ensures forall field :: InMessages(field, messages) <==> InMessage(field, messages[0]) || InMessages(field, messages[1..])
  {
    assert messages == [messages[0]] + messages[1..];
  }

  lemma {:induction false} MessageItemsHold(path: string, messages: seq<Message>)
    ensures forall name :: Symbol(name) in MessageItems(path, messages) <==> exists m :: m in messages && name == path + m.name
    ensures forall field :: Extension(field) in MessageItems(path, messages) <==> InMessages(field, messages)
    decreases |messages|
  {
    if messages != [] {
      NestedItemsHold(messages[0]);
      MessageItemsHold(path, messages[1..]);
      InMessagesSplit(messages);
      assert messages == [messages[0]] + messages[1..];
    }
  }

  lemma {:induction false} NameItemsHold(path: string, names: seq<string>)
    ensures forall name :: Symbol(name) in NameItems(path, names) <==> exists n :: n in names && name == path + n
    ensures forall item :: item in NameItems(path, names) ==> item.Symbol?
  {
    if names != [] {
      NameItemsHold(path, names[1..]);
      assert names == [names[0]] + names[1..];
    }
  }

  lemma {:induction false} FieldItemsHold(path: string, fields: seq<Field>)
    ensures forall name :: Symbol(name) in FieldItems(path, fields) <==> exists x :: x in fields && name == path + x.name
    ensures forall field :: Extension(field) in FieldItems(path, fields) <==> field in fields
  {
    if fields != [] {
      FieldItemsHold(path, fields[1..]);
      assert fields == [fields[0]] + fields[1..];
    }
  }

  /** The items of a file are what it declares. */
  lemma ItemsHold(file: File)
    ensures forall name :: Symbol(name) in Items(file) <==> DeclaresSymbol(file, name)
    ensures forall field :: Extension(field) in Items(file) <==> DeclaresExtension(file, field)
  {
    MessageItemsHold(Path(file), file.messages);
    NameItemsHold(Path(file), file.enums);
    FieldItemsHold(Path(file), file.extensions);
    NameItemsHold(Path(file), file.services);
  }

  predicate Accepts<V>(t: Tables<V>, item: Item)
  {
    match item
    case Symbol(name) => Legal(name) && !Detected(t.symbols, name)
    case Extension(field) => !(FullyQualified(field) && HasExtension(t.extensions, field.extendee[1..], field.number))
  }

  function Registered<V>(t: Tables<V>, item: Item, value: V): Tables<V>
    requires Accepts(t, item)
  {
    match item
    case Symbol(name) => t.(symbols := Added(t.symbols, name, value))
    case Extension(field) =>
      if FullyQualified(field) then t.(extensions := ExtensionInserted(t.extensions, field.extendee[1..], field.number, value))
      else t
  }

  /** Up to the first item that is refused; what was registered before it stays. */
  function RegisterAll<V>(t: Tables<V>, items: seq<Item>, value: V): Outcome<V>
    decreases |items|
  {
    if items == [] then Outcome(true, t)
    else if !Accepts(t, items[0]) then Outcome(false, t)
    else RegisterAll(Registered(t, items[0], value), items[1..], value)
  }

  lemma {:induction false} RegisterInTwo<V>(t: Tables<V>, a: seq<Item>, b: seq<Item>, value: V)
    ensures var first := RegisterAll(t, a, value);
      RegisterAll(t, a + b, value) == if first.ok then RegisterAll(first.tables, b, value) else first
    decreases |a|
  {
    if a == [] {
      assert a + b == b;
    } else {
      assert (a + b)[0] == a[0] && (a + b)[1..] == a[1..] + b;
      if Accepts(t, a[0]) { RegisterInTwo(Registered(t, a[0], value), a[1..], b, value); }
    }
  }

  lemma RegisterOne<V>(t: Tables<V>, item: Item, rest: seq<Item>, value: V)
    ensures RegisterAll(t, [item] + rest, value)
         == if Accepts(t, item) then RegisterAll(Registered(t, item, value), rest, value) else Outcome(false, t)
  {
    assert ([item] + rest)[1..] == rest;
  }

  /** What is there once an item is registered. */
  lemma RegisteredEntries<V>(t: Tables<V>, item: Item, value: V)
    requires Accepts(t, item)
    ensures var t' := Registered(t, item, value);
      && (forall e :: e in t'.symbols <==> e in t.symbols || (item.Symbol? && e == Entry(item.name, value)))
      && (forall e :: e in t'.extensions <==>
            e in t.extensions
            || (item.Extension? && FullyQualified(item.field)
                && e == ExtensionEntry(item.field.extendee[1..], item.field.number, value)))
  {
    match item
    case Symbol(name) =>
      DetectsEqualKey(t.symbols, name);
      InsertedEntries(t.symbols, name, value);
    case Extension(field) =>
      if FullyQualified(field) { ExtensionInsertedEntries(t.extensions, field.extendee[1..], field.number, value); }
  }

  lemma {:induction false} RegisterAllAddsSymbols<V>(t: Tables<V>, items: seq<Item>, value: V)
    ensures var t' := RegisterAll(t, items, value).tables;
      && (forall e :: e in t.symbols ==> e in t'.symbols)
      && (forall e :: e in t'.symbols ==> e in t.symbols || (Symbol(e.key) in items && e.value == value))
    decreases |items|
  {
    if items != [] && Accepts(t, items[0]) {
      RegisteredEntries(t, items[0], value);
      RegisterAllAddsSymbols(Registered(t, items[0], value), items[1..], value);
      DeclaredByRest(items);
    }
  }

  lemma {:induction false} RegisterAllAddsExtensions<V>(t: Tables<V>, items: seq<Item>, value: V)
    ensures var t' := RegisterAll(t, items, value).tables;
      && (forall e :: e in t.extensions ==> e in t'.extensions)
      && (forall e :: e in t'.extensions ==> e in t.extensions || (Declared(items, e.extendee, e.number) && e.value == value))
    decreases |items|
  {
    if items != [] && Accepts(t, items[0]) {
      RegisteredEntries(t, items[0], value);
      RegisterAllAddsExtensions(Registered(t, items[0], value), items[1..], value);
      DeclaredByRest(items);
    }
  }

  /** Nothing is lost, and what is added is declared and maps to the value. */
  lemma RegisterAllAdds<V>(t: Tables<V>, items: seq<Item>, value: V)
    ensures var t' := RegisterAll(t, items, value).tables;
      && (forall e :: e in t.symbols ==> e in t'.symbols)
      && (forall e :: e in t.extensions ==> e in t'.extensions)
      && (forall e :: e in t'.symbols ==> e in t.symbols || (Symbol(e.key) in items && e.value == value))
      && (forall e :: e in t'.extensions ==> e in t.extensions || (Declared(items, e.extendee, e.number) && e.value == value))
  {
    RegisterAllAddsSymbols(t, items, value);
    RegisterAllAddsExtensions(t, items, value);
  }

  lemma DeclaredByRest(items: seq<Item>)
    requires items != []
    ensures forall item :: item in items <==> item == items[0] || item in items[1..]
    ensures forall extendee, number :: Declared(items[1..], extendee, number) ==> Declared(items, extendee, number)
    ensures items[0].Extension? && FullyQualified(items[0].field) ==>
      Declared(items, items[0].field.extendee[1..], items[0].field.number)
  {
    assert items == [items[0]] + items[1..];
  }

  /** After a success everything declared is there. */
  lemma {:induction false} RegisterAllFinds<V>(t: Tables<V>, items: seq<Item>, value: V)
    requires RegisterAll(t, items, value).ok
    ensures var t' := RegisterAll(t, items, value).tables;
      && (forall name :: Symbol(name) in items ==> Entry(name, value) in t'.symbols)
      && (forall field :: Extension(field) in items && FullyQualified(field) ==>
            ExtensionEntry(field.extendee[1..], field.number, value) in t'.extensions)
    decreases |items|
  {
    if items != [] {
      var t1 := Registered(t, items[0], value);
      RegisteredEntries(t, items[0], value);
      RegisterAllAdds(t1, items[1..], value);
      RegisterAllFinds(t1, items[1..], value);
      DeclaredByRest(items);
    }
  }

  ghost predicate Declared(items: seq<Item>, extendee: string, number: int)
  {
    exists field :: Extension(field) in items && FullyQualified(field) && field.extendee[1..] == extendee && field.number == number
  }

  // ----- Why a file is refused -------------------------------------------------

  /** The `k`th item cannot stand beside what `t` holds and the items before it. */
  ghost predicate ClashesAt<V>(t: Tables<V>, items: seq<Item>, k: nat)
    requires k < |items|
  {
    match items[k]
    case Symbol(name) =>
      !Legal(name) || Conflict(t.symbols, name) || exists j :: 0 <= j < k && Conflicting(items[j], name)
    case Extension(field) =>
      FullyQualified(field)
      && (HasExtension(t.extensions, field.extendee[1..], field.number) || exists j :: 0 <= j < k && Repeats(items[j], field))
  }

  predicate Conflicting(item: Item, name: string)
  {
    item.Symbol? && (IsSubSymbol(item.name, name) || IsSubSymbol(name, item.name))
  }

  predicate Repeats(item: Item, field: Field)
  {
    item.Extension? && SameExtension(item.field, field)
  }

  ghost predicate Clash<V>(t: Tables<V>, items: seq<Item>)
  {
    exists k :: 0 <= k < |items| && ClashesAt(t, items, k)
  }

  /** The calls of AddSymbol. */
  function SymbolCalls<V>(items: seq<Item>, value: V): seq<Entry<V>>
  {
    if items == [] then []
    else (if items[0].Symbol? then [Entry(items[0].name, value)] else []) + SymbolCalls(items[1..], value)
  }

  /** No call of AddSymbol will meet the gap. */
  ghost predicate NoGap<V>(t: Tables<V>, items: seq<Item>, value: V)
  {
    var calls := SymbolCalls(items, value);
    calls == [] || (Separate(t.symbols) && !MeetsGap(t.symbols, calls))
  }

  lemma RefusedClashes<V>(t: Tables<V>, items: seq<Item>, value: V)
    requires items != []
    ensures !Accepts(t, items[0]) ==> ClashesAt(t, items, 0)
    ensures NoGap(t, items, value) && ClashesAt(t, items, 0) ==> !Accepts(t, items[0])
  {
    if items[0].Symbol? {
      assert SymbolCalls(items, value)[0] == Entry(items[0].name, value);
      DetectsConflicts(t.symbols, items[0].name);
    }
  }

  lemma ConflictingSplit(items: seq<Item>, name: string, k: nat)
    requires 0 < k <= |items|
    ensures (exists j :: 0 <= j < k && Conflicting(items[j], name))
       <==> Conflicting(items[0], name) || exists j :: 0 <= j < k - 1 && Conflicting(items[1..][j], name)
  {
    assert forall j :: 0 < j < |items| ==> items[j] == items[1..][j - 1];
  }

  lemma RepeatsSplit(items: seq<Item>, field: Field, k: nat)
    requires 0 < k <= |items|
    ensures (exists j :: 0 <= j < k && Repeats(items[j], field))
       <==> Repeats(items[0], field) || exists j :: 0 <= j < k - 1 && Repeats(items[1..][j], field)
  {
    assert forall j :: 0 < j < |items| ==> items[j] == items[1..][j - 1];
  }

  lemma ConflictWithOneMore<V>(t: Tables<V>, item: Item, value: V, name: string)
    requires Accepts(t, item)
    ensures Conflict(Registered(t, item, value).symbols, name) <==> Conflict(t.symbols, name) || Conflicting(item, name)
  {
    RegisteredEntries(t, item, value);
    ConflictByEntries(t.symbols, name);
    ConflictByEntries(Registered(t, item, value).symbols, name);
    if item.Symbol? { assert Entry(item.name, value) in Registered(t, item, value).symbols; }
  }

  lemma ExtensionWithOneMore<V>(t: Tables<V>, item: Item, value: V, field: Field)
    requires Accepts(t, item) && FullyQualified(field)
    ensures HasExtension(Registered(t, item, value).extensions, field.extendee[1..], field.number)
       <==> HasExtension(t.extensions, field.extendee[1..], field.number) || Repeats(item, field)
  {
    var t' := Registered(t, item, value);
    RegisteredEntries(t, item, value);
    HasExtensionByEntries(t.extensions, field.extendee[1..], field.number);
    HasExtensionByEntries(t'.extensions, field.extendee[1..], field.number);
    if item.Extension? && FullyQualified(item.field) {
      SameWithoutDot(item.field.extendee, field.extendee);
      assert ExtensionEntry(item.field.extendee[1..], item.field.number, value) in t'.extensions;
    }
  }

  lemma SameWithoutDot(a: string, b: string)
    requires a != "" && b != "" && a[0] == b[0]
    ensures a[1..] == b[1..] <==> a == b
  {
    assert a == [a[0]] + a[1..] && b == [b[0]] + b[1..];
  }

  lemma HasExtensionByEntries<V>(s: ExtensionMap<V>, extendee: string, number: int)
    ensures HasExtension(s, extendee, number) <==> exists e :: e in s && e.extendee == extendee && e.number == number
  {
    if i :| 0 <= i < |s| && s[i].extendee == extendee && s[i].number == number {
      assert s[i] in s;
    }
  }

  /** Once the first item is registered, it counts as part of the index. */
  lemma ClashesLater<V>(t: Tables<V>, items: seq<Item>, value: V, k: nat)
    requires 0 < k < |items| && Accepts(t, items[0])
    ensures ClashesAt(t, items, k) <==> ClashesAt(Registered(t, items[0], value), items[1..], k - 1)
  {
    assert items[k] == items[1..][k - 1];
    match items[k]
    case Symbol(name) =>
      ConflictWithOneMore(t, items[0], value, name);
      ConflictingSplit(items, name, k);
    case Extension(field) =>
      if FullyQualified(field) { ExtensionWithOneMore(t, items[0], value, field); }
      RepeatsSplit(items, field, k);
  }

  lemma ClashSplit<V>(t: Tables<V>, items: seq<Item>, value: V)
    requires items != [] && Accepts(t, items[0])
    ensures Clash(t, items) <==> ClashesAt(t, items, 0) || Clash(Registered(t, items[0], value), items[1..])
  {
    if k :| 0 < k < |items| && ClashesAt(t, items, k) {
      ClashesLater(t, items, value, k);
    }
    if k :| 0 <= k < |items[1..]| && ClashesAt(Registered(t, items[0], value), items[1..], k) {
      ClashesLater(t, items, value, k + 1);
    }
  }

  lemma NoGapLater<V>(t: Tables<V>, items: seq<Item>, value: V)
    requires items != [] && Accepts(t, items[0]) && NoGap(t, items, value)
    ensures NoGap(Registered(t, items[0], value), items[1..], value)
  {
    if items[0].Symbol? {
      var calls := SymbolCalls(items, value);
      assert calls[0] == Entry(items[0].name, value) && calls[1..] == SymbolCalls(items[1..], value);
      AddedKeepsSeparate(t.symbols, items[0].name, value);
    } else {
      assert SymbolCalls(items, value) == SymbolCalls(items[1..], value);
    }
  }

  /** A refusal has a cause in what was there before or in two things declared together;
      and, but for the gap, every such clash is a refusal. */
  lemma {:induction false} RefusedIfClash<V>(t: Tables<V>, items: seq<Item>, value: V)
    ensures !RegisterAll(t, items, value).ok ==> Clash(t, items)
    ensures NoGap(t, items, value) ==> (RegisterAll(t, items, value).ok <==> !Clash(t, items))
    decreases |items|
  {
    if items != [] {
      RefusedClashes(t, items, value);
      if Accepts(t, items[0]) {
        ClashSplit(t, items, value);
        if NoGap(t, items, value) { NoGapLater(t, items, value); }
        RefusedIfClash(Registered(t, items[0], value), items[1..], value);
      }
    }
  }

  lemma {:induction false} NoSymbolCalls<V>(items: seq<Item>, value: V)
    requires forall item :: item in items ==> item.Extension?
    ensures SymbolCalls(items, value) == []
  {
    if items != [] {
      assert items[0] in items;
      DeclaredByRest(items);
      NoSymbolCalls(items[1..], value);
    }
  }

  /** What registering the extensions of a message comes to. */
  lemma NestedMeans<V>(t: Tables<V>, message: Message, value: V)
    ensures var r := RegisterAll(t, NestedItems(message), value);
      && (r.ok <==> !Clash(t, NestedItems(message)))
      && (forall e :: e in t.symbols ==> e in r.tables.symbols)
      && (forall e :: e in t.extensions ==> e in r.tables.extensions)
      && (r.ok ==> forall field :: InMessage(field, message) && FullyQualified(field) ==>
            ExtensionEntry(field.extendee[1..], field.number, value) in r.tables.extensions)
  {
    var items := NestedItems(message);
    NestedItemsHold(message);
    NoSymbolCalls(items, value);
    RefusedIfClash(t, items, value);
    RegisterAllAdds(t, items, value);
    if RegisterAll(t, items, value).ok { RegisterAllFinds(t, items, value); }
  }

  lemma NextNested<V>(t: Tables<V>, messages: seq<Message>, fields: seq<Item>, value: V)
    requires messages != []
    ensures var first := RegisterAll(t, NestedItems(messages[0]), value);
      RegisterAll(t, AllNestedItems(messages) + fields, value)
      == if first.ok then RegisterAll(first.tables, AllNestedItems(messages[1..]) + fields, value) else first
  {
    var nested, rest := NestedItems(messages[0]), AllNestedItems(messages[1..]);
    assert nested + (rest + fields) == AllNestedItems(messages) + fields;
    RegisterInTwo(t, nested, rest + fields, value);
  }

  class Index<V(==)> {
    var byName: map<string, V>
    var bySymbol: SymbolMap<V>
    var byExtension: ExtensionMap<V>

    constructor ()
      ensures byName == map[] && bySymbol == [] && byExtension == []
    {
      byName, bySymbol, byExtension := map[], [], [];
    }

    ghost predicate Grew(symbols: SymbolMap<V>, extensions: ExtensionMap<V>)
      reads this
    {
      && (forall e :: e in symbols ==> e in bySymbol)
      && (forall e :: e in extensions ==> e in byExtension)
    }

    function Now(): Tables<V>
      reads this
    {
      Tables(bySymbol, byExtension)
    }

    /** Refuses only illegal names and real conflicts; with the invariant, refuses
        every conflict but those in the gap, and keeps the invariant but there. */
    method AddSymbol(name: string, value: V) returns (ok: bool)
      modifies this`bySymbol
      ensures bySymbol == Added(old(bySymbol), name, value)
      ensures ok <==> Accepts(old(Now()), Symbol(name))
      ensures ok ==> Legal(name) && Entry(name, value) in bySymbol
      ensures !ok ==> bySymbol == old(bySymbol) && (!Legal(name) || Conflict(bySymbol, name))
      ensures Separate(old(bySymbol)) && ok ==> !Conflict(old(bySymbol), name) || Gap(old(bySymbol), name)
      ensures Separate(bySymbol) <==> Separate(old(bySymbol)) && !(Legal(name) && Gap(old(bySymbol), name))
      ensures forall e :: e in old(bySymbol) ==> e in bySymbol
    {
      AddedKeepsSeparate(bySymbol, name, value);
      DetectsConflicts(bySymbol, name);
      var valid := ValidateSymbolName(name);
      if !valid { return false; }
      var iter := FindLastLessOrEqual(bySymbol, name);
      if iter == |bySymbol| {
        bySymbol := [Entry(name, value)];
        return true;
      }
      if IsSubSymbol(bySymbol[iter].key, name) { return false; }
      iter := iter + 1;
      if iter != |bySymbol| && IsSubSymbol(name, bySymbol[iter].key) { return false; }
      DetectsEqualKey(bySymbol, name);
      InsertedEntries(bySymbol, name, value);
      bySymbol := Inserted(bySymbol, name, value);
      return true;
    }

    /** Extendees that are not fully qualified are passed over, without an error. */
    method AddExtension(field: Field, value: V) returns (ok: bool)
      modifies this`byExtension
      ensures !ok <==> FullyQualified(field) && HasExtension(old(byExtension), field.extendee[1..], field.number)
      ensures ok <==> Accepts(old(Now()), Extension(field))
      ensures Now() == if ok then Registered(old(Now()), Extension(field), value) else old(Now())
      ensures forall e :: e in byExtension <==>
        e in old(byExtension) || (ok && FullyQualified(field) && e == ExtensionEntry(field.extendee[1..], field.number, value))
    {
      if field.extendee != "" && field.extendee[0] == '.' {
        var extendee := field.extendee[1..];
        if HasExtension(byExtension, extendee, field.number) { return false; }
        ExtensionInsertedEntries(byExtension, extendee, field.number, value);
        byExtension := ExtensionInserted(byExtension, extendee, field.number, value);
      }
      return true;
    }

    /** Registers everything the file declares, up to the first thing that is refused; what
        was registered before it stays, even after a failure half way. After a success each
        thing is found under its name in the file's package. A failure has a cause in the
        index before the call or in two things that the file declares, and, but for the gap,
        every such cause is a failure. */
    method AddFile(file: File, value: V) returns (ok: bool)
      modifies this
      ensures Grew(old(bySymbol), old(byExtension))
      ensures ok ==> file.name !in old(byName) && byName == old(byName)[file.name := value]
      ensures !ok ==> byName == if file.name in old(byName) then old(byName) else old(byName)[file.name := value]
      ensures ok ==> forall x :: TopLevel(file, x) ==>
        FindSymbol(bySymbol, if file.package == "" then x else file.package + "." + x) == Some(value)
      ensures ok && Separate(bySymbol) ==> forall scope, name :: DeclaresSymbol(file, scope) && Encloses(scope, name) ==>
        FindSymbol(bySymbol, name) == Some(value)
      ensures ok ==> forall field :: DeclaresExtension(file, field) && field.extendee != "" && field.extendee[0] == '.' ==>
        ExtensionEntry(field.extendee[1..], field.number, value) in byExtension
      ensures forall e :: e in bySymbol ==> e in old(bySymbol) || (e.value == value && NamedBy(file, e.key))
      ensures if file.name in old(byName) then !ok && Now() == old(Now())
              else RegisterAll(old(Now()), Items(file), value) == Outcome(ok, Now())
      ensures !ok ==> file.name in old(byName) || Clash(old(Now()), Items(file))
      ensures NoGap(old(Now()), Items(file), value) ==> (ok <==> file.name !in old(byName) && !Clash(old(Now()), Items(file)))
    {
      if file.name in byName { return false; }
      RefusedIfClash(Now(), Items(file), value);
      ok := RegisterFile(file, value);
      DeclaredNames(file);
      if ok { FileIsFound(bySymbol, file, value); }
    }

    method RegisterFile(file: File, value: V) returns (ok: bool)
      requires file.name !in byName
      modifies this
      ensures Grew(old(bySymbol), old(byExtension)) && byName == old(byName)[file.name := value]
      ensures RegisterAll(old(Now()), Items(file), value) == Outcome(ok, Now())
      ensures ok ==> forall name :: DeclaresSymbol(file, name) ==> Entry(name, value) in bySymbol
      ensures ok ==> forall field :: DeclaresExtension(file, field) && FullyQualified(field) ==>
        ExtensionEntry(field.extendee[1..], field.number, value) in byExtension
      ensures forall e :: e in bySymbol ==> e in old(bySymbol) || (DeclaresSymbol(file, e.key) && e.value == value)
    {
      byName := byName[file.name := value];
      RegisterAllAdds(Now(), Items(file), value);
      ItemsHold(file);
      ok := AddItems(file, value);
      if ok { RegisterAllFinds(old(Now()), Items(file), value); }
    }

    /** The four loops of AddFile. */
    method AddItems(file: File, value: V) returns (ok: bool)
      modifies this`bySymbol, this`byExtension
      ensures RegisterAll(old(Now()), Items(file), value) == Outcome(ok, Now())
    {
      var path := Path(file);
      ghost var services := NameItems(path, file.services);
      ghost var extensions := FieldItems(path, file.extensions);
      ghost var enums := NameItems(path, file.enums);
      RegisterInTwo(Now(), MessageItems(path, file.messages), enums + (extensions + services), value);
      ok := AddMessages(path, file.messages, value);
      if !ok { return; }
      RegisterInTwo(Now(), enums, extensions + services, value);
      ok := AddNames(path, file.enums, value);
      if !ok { return; }
      RegisterInTwo(Now(), extensions, services, value);
      ok := AddExtensions(path, file.extensions, value);
      if !ok { return; }
      ok := AddNames(path, file.services, value);
    }

    /** AddSymbol, as far as AddFile depends on it. */
    method Declare(name: string, value: V) returns (ok: bool)
      modifies this`bySymbol
      ensures ok <==> Accepts(old(Now()), Symbol(name))
      ensures Now() == if ok then Registered(old(Now()), Symbol(name), value) else old(Now())
    {
      ok := AddSymbol(name, value);
    }

    method AddMessages(path: string, messages: seq<Message>, value: V) returns (ok: bool)
      modifies this`bySymbol, this`byExtension
      ensures RegisterAll(old(Now()), MessageItems(path, messages), value) == Outcome(ok, Now())
    {
      assert messages[0..] == messages;
      for i := 0 to |messages|
        invariant RegisterAll(Now(), MessageItems(path, messages[i..]), value)
               == RegisterAll(old(Now()), MessageItems(path, messages), value)
      {
        assert messages[i..][0] == messages[i] && messages[i..][1..] == messages[i + 1..];
        ghost var nested, rest := NestedItems(messages[i]), MessageItems(path, messages[i + 1..]);
        RegisterOne(Now(), Symbol(path + messages[i].name), nested + rest, value);
        ok := Declare(path + messages[i].name, value);
        if !ok { return; }
        RegisterInTwo(Now(), nested, rest, value);
        ok := AddNestedExtensions(messages[i], value);
        if !ok { return; }
      }
      return true;
    }

    method AddNames(path: string, names: seq<string>, value: V) returns (ok: bool)
      modifies this`bySymbol
      ensures RegisterAll(old(Now()), NameItems(path, names), value) == Outcome(ok, Now())
    {
      assert names[0..] == names;
      for i := 0 to |names|
        invariant RegisterAll(Now(), NameItems(path, names[i..]), value)
               == RegisterAll(old(Now()), NameItems(path, names), value)
      {
        assert names[i..][0] == names[i] && names[i..][1..] == names[i + 1..];
        RegisterOne(Now(), Symbol(path + names[i]), NameItems(path, names[i + 1..]), value);
        ok := Declare(path + names[i], value);
        if !ok { return; }
      }
      return true;
    }

    method AddExtensions(path: string, fields: seq<Field>, value: V) returns (ok: bool)
      modifies this`bySymbol, this`byExtension
      ensures RegisterAll(old(Now()), FieldItems(path, fields), value) == Outcome(ok, Now())
    {
      assert fields[0..] == fields;
      for i := 0 to |fields|
        invariant RegisterAll(Now(), FieldItems(path, fields[i..]), value)
               == RegisterAll(old(Now()), FieldItems(path, fields), value)
      {
        assert fields[i..][0] == fields[i] && fields[i..][1..] == fields[i + 1..];
        ghost var rest := FieldItems(path, fields[i + 1..]);
        RegisterOne(Now(), Symbol(path + fields[i].name), [Extension(fields[i])] + rest, value);
        ok := Declare(path + fields[i].name, value);
        if !ok { return; }
        RegisterOne(Now(), Extension(fields[i]), rest, value);
        ok := AddExtension(fields[i], value);
        if !ok { return; }
      }
      return true;
    }

    /** Registers the extensions declared in a message at any depth, inner ones first; fails
        exactly when one of them was taken or two of them are the same. */
    method AddNestedExtensions(message: Message, value: V) returns (ok: bool)
      modifies this`byExtension
      ensures RegisterAll(old(Now()), NestedItems(message), value) == Outcome(ok, Now())
      ensures Grew(bySymbol, old(byExtension))
      ensures ok ==> forall field :: InMessage(field, message) && FullyQualified(field) ==>
        ExtensionEntry(field.extendee[1..], field.number, value) in byExtension
      ensures ok <==> !Clash(old(Now()), NestedItems(message))
      decreases message
    {
      ghost var whole := RegisterAll(Now(), NestedItems(message), value);
      NestedMeans(Now(), message, value);
      assert message.nestedTypes[0..] == message.nestedTypes && message.extensions[0..] == message.extensions;
      ghost var fields := ExtensionItems(message.extensions);
      for i := 0 to |message.nestedTypes|
        invariant RegisterAll(Now(), AllNestedItems(message.nestedTypes[i..]) + fields, value) == whole
      {
        assert message.nestedTypes[i..][0] == message.nestedTypes[i];
        assert message.nestedTypes[i..][1..] == message.nestedTypes[i + 1..];
        NextNested(Now(), message.nestedTypes[i..], fields, value);
        ok := AddNestedExtensions(message.nestedTypes[i], value);
        if !ok { return; }
      }
      assert [] + fields == fields;
      for i := 0 to |message.extensions|
        invariant RegisterAll(Now(), ExtensionItems(message.extensions[i..]), value) == whole
      {
        assert message.extensions[i..][0] == message.extensions[i];
        assert message.extensions[i..][1..] == message.extensions[i + 1..];
        RegisterOne(Now(), Extension(message.extensions[i]), ExtensionItems(message.extensions[i + 1..]), value);
        ok := AddExtension(message.extensions[i], value);
        if !ok { return; }
      }
      return true;
    }

    // ----- Lookup --------------------------------------------------------------

    method Find(name: string) returns (found: Option<V>)
      ensures found == FindSymbol(bySymbol, name)
      ensures Separate(bySymbol) ==> found == LinearSearch(bySymbol, name)
    {
      if Separate(bySymbol) { FindIsLinearSearch(bySymbol, name); }
      var iter := FindLastLessOrEqual(bySymbol, name);
      found := if iter != |bySymbol| && IsSubSymbol(bySymbol[iter].key, name) then Some(bySymbol[iter].value) else None;
    }

    /** Appends, in ascending order, the registered numbers of the type that are not
        negative: the walk starts at number 0. */
    method FindAllExtensionNumbers(containingType: string, output: seq<int>) returns (success: bool, r: seq<int>)
      ensures output <= r && Ascending(r[|output|..]) && (success <==> r != output)
      ensures forall n :: n in r[|output|..] <==> n >= 0 && HasExtension(byExtension, containingType, n)
    {
      var first := LowerBound(byExtension, containingType, 0);
      var it := first;
      success, r := false, output;
      while it != |byExtension| && byExtension[it].extendee == containingType
        invariant first <= it <= |byExtension| && |r| == |output| + it - first
        invariant output <= r && (success <==> r != output)
        invariant forall k :: first <= k < it ==>
          byExtension[k].extendee == containingType && r[|output| + k - first] == byExtension[k].number
      {
        r := r + [byExtension[it].number];
        success := true;
        it := it + 1;
      }
      WalkMeetsAll(byExtension, containingType, it, r[|output|..]);
    }
  }
}
