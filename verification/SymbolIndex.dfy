/** The index of SimpleDescriptorDatabase: which file defines a symbol, or one of
    the scopes that enclose it. */
module SymbolIndex {

  import opened Basics
  import opened DottedNames

  datatype Entry<V> = Entry(key: string, value: V)

  /** std::map<string, Value>: an iterator is an index, end() is the length. */
  type SymbolMap<V> = s: seq<Entry<V>> | Sorted(s)

  // ----- Order of std::string ------------------------------------------------

  predicate Less(a: string, b: string)
  {
    b != "" && (a == "" || a[0] < b[0] || (a[0] == b[0] && Less(a[1..], b[1..])))
  }

  predicate Sorted<V>(s: seq<Entry<V>>)
  {
    forall i, j :: 0 <= i < j < |s| ==> Less(s[i].key, s[j].key)
  }

  lemma {:induction false} LessTransitive(a: string, b: string, c: string)
    requires Less(a, b) && Less(b, c)
    ensures Less(a, c)
  {
    if a != "" && a[0] == b[0] && b[0] == c[0] {
      LessTransitive(a[1..], b[1..], c[1..]);
    }
  }

  lemma {:induction false} LessTotal(a: string, b: string)
    ensures (if Less(a, b) then 1 else 0) + (if a == b then 1 else 0) + (if Less(b, a) then 1 else 0) == 1
  {
    if a != "" && b != "" && a[0] == b[0] {
      LessTotal(a[1..], b[1..]);
      assert a == [a[0]] + a[1..] && b == [b[0]] + b[1..];
    }
  }

  // ----- Symbols -------------------------------------------------------------

  predicate LegalChar(c: char)
  {
    c == '.' || c == '_' || '0' <= c <= '9' || 'A' <= c <= 'Z' || 'a' <= c <= 'z'
  }

  predicate Legal(name: string)
  {
    forall i :: 0 <= i < |name| ==> LegalChar(name[i])
  }

  method ValidateSymbolName(name: string) returns (valid: bool)
    ensures valid == Legal(name)
  {
    for i := 0 to |name|
      invariant forall j :: 0 <= j < i ==> LegalChar(name[j])
    {
      if name[i] != '.' && name[i] != '_' &&
         (name[i] < '0' || name[i] > '9') &&
         (name[i] < 'A' || name[i] > 'Z') &&
         (name[i] < 'a' || name[i] > 'z') {
        return false;
      }
    }
    return true;
  }

  /** Identifiers, joined by dots, are legal, and nothing else but stray dots is. */
  lemma LegalMeans(name: string)
    ensures Legal(name) <==> forall i :: 0 <= i < |name| ==> name[i] == '.' || IsIdentifierChar(name[i])
    ensures Legal(name) ==> forall i :: 0 <= i < |name| ==> name[i] >= '.'
    ensures IsIdentifier(name) ==> Legal(name)
  {
  }

  lemma QualifiedIsLegal(scope: string, name: string)
    requires Legal(scope) && IsIdentifier(name)
    ensures Legal(scope + "." + name)
  {
  }

  predicate HasPrefix(s: string, prefix: string)
  {
    |s| >= |prefix| && s[..|prefix|] == prefix
  }

  predicate IsSubSymbol(scope: string, name: string)
  {
    scope == name || (HasPrefix(name, scope) && name[|scope|] == '.')
  }

  /** What IsSubSymbol means, without indices: `scope` is the name or a dotted
      prefix of it. */
  ghost predicate Encloses(scope: string, name: string)
  {
    scope == name || exists rest: string :: name == scope + "." + rest
  }

  lemma EnclosesIsSubSymbol(scope: string, name: string)
    ensures IsSubSymbol(scope, name) <==> Encloses(scope, name)
  {
    if scope != name && IsSubSymbol(scope, name) {
      assert name == scope + "." + name[|scope| + 1..];
    }
  }

  lemma {:induction false} PrefixIsLess(a: string, rest: string)
    requires rest != ""
    ensures Less(a, a + rest)
  {
    if a == "" {
      assert a + rest == rest;
    } else {
      PrefixIsLess(a[1..], rest);
      assert (a + rest)[1..] == a[1..] + rest;
    }
  }

  lemma SubSymbolIsGreater(scope: string, name: string)
    requires IsSubSymbol(scope, name) && scope != name
    ensures Less(scope, name)
  {
    assert name == scope + name[|scope|..];
    PrefixIsLess(scope, name[|scope|..]);
  }

  /** Why one floor lookup is enough: '.' sorts below every other legal character,
      so legal names between a scope and a name in it are themselves in the scope.
      The name looked up may hold any characters. */
  lemma {:induction false} BetweenIsEnclosed(scope: string, middle: string, name: string)
    requires IsSubSymbol(scope, name) && Legal(middle)
    requires Less(scope, middle) && !Less(name, middle)
    ensures IsSubSymbol(scope, middle)
  {
    LessTotal(scope, middle);
    if scope != "" {
      BetweenIsEnclosed(scope[1..], middle[1..], name[1..]);
      assert scope == [scope[0]] + scope[1..] && middle == [middle[0]] + middle[1..];
    }
  }

  // ----- Lookup --------------------------------------------------------------

  /** std::map::upper_bound: the first key that sorts after `name`. */
  function UpperBound<V>(s: SymbolMap<V>, name: string): (i: nat)
    ensures i <= |s|
    ensures forall j :: 0 <= j < i ==> !Less(name, s[j].key)
    ensures forall j :: i <= j < |s| ==> Less(name, s[j].key)
  {
    if s == [] then 0
    else if Less(name, s[0].key) then
      assert forall j :: 0 < j < |s| ==> Less(s[0].key, s[j].key);
      assert forall j :: 0 < j < |s| ==> Less(name, s[j].key) by {
        forall j | 0 < j < |s| ensures Less(name, s[j].key) { LessTransitive(name, s[0].key, s[j].key); }
      }
      0
    else
      assert forall j :: 0 < j < |s| ==> s[1..][j - 1] == s[j];
      UpperBound(s[1..], name) + 1
  }

  function FindLastLessOrEqual<V>(s: SymbolMap<V>, name: string): nat
  {
    var iter := UpperBound(s, name);
    if iter != 0 then iter - 1 else iter
  }

  function FindSymbol<V>(s: SymbolMap<V>, name: string): Option<V>
  {
    var iter := FindLastLessOrEqual(s, name);
    if iter != |s| && IsSubSymbol(s[iter].key, name) then Some(s[iter].value) else None
  }

  /** The reference: try every entry in turn. */
  function LinearSearch<V>(s: seq<Entry<V>>, name: string): Option<V>
  {
    if s == [] then None
    else if IsSubSymbol(s[0].key, name) then Some(s[0].value)
    else LinearSearch(s[1..], name)
  }

  /** The invariant of the index: legal keys, none enclosing another. */
  ghost predicate Separate<V>(s: SymbolMap<V>)
  {
    && (forall i :: 0 <= i < |s| ==> Legal(s[i].key))
    && (forall i, j :: 0 <= i < |s| && 0 <= j < |s| && i != j ==> !IsSubSymbol(s[i].key, s[j].key))
  }

  lemma {:induction false} LinearSearchMeaning<V>(s: seq<Entry<V>>, name: string)
    ensures LinearSearch(s, name).None? <==> forall i :: 0 <= i < |s| ==> !IsSubSymbol(s[i].key, name)
    ensures LinearSearch(s, name).Some? ==>
      exists i :: 0 <= i < |s| && IsSubSymbol(s[i].key, name) && LinearSearch(s, name) == Some(s[i].value)
  {
    if s != [] {
      LinearSearchMeaning(s[1..], name);
      assert forall j :: 0 < j < |s| ==> s[1..][j - 1] == s[j];
    }
  }

  /** A hit is sound whatever the index holds. */
  lemma HitIsSound<V>(s: SymbolMap<V>, name: string)
    ensures FindSymbol(s, name).Some? ==>
      exists i :: 0 <= i < |s| && Encloses(s[i].key, name) && FindSymbol(s, name) == Some(s[i].value)
  {
    var iter := FindLastLessOrEqual(s, name);
    if iter != |s| {
      EnclosesIsSubSymbol(s[iter].key, name);
    }
  }

  lemma FloorOfKey<V>(s: SymbolMap<V>, i: nat)
    requires i < |s|
    ensures FindLastLessOrEqual(s, s[i].key) == i
  {
    LessTotal(s[i].key, s[i].key);
    assert i + 1 < |s| ==> Less(s[i].key, s[i + 1].key);
    assert UpperBound(s, s[i].key) == i + 1;
  }

  /** A name that is itself a key is found whatever else the index holds. */
  lemma ExactKeyIsFound<V>(s: SymbolMap<V>, i: nat)
    requires i < |s|
    ensures FindSymbol(s, s[i].key) == Some(s[i].value)
  {
    FloorOfKey(s, i);
  }

  /** A scope among the keys is where the floor lookup lands. */
  lemma ScopeIsFloor<V>(s: SymbolMap<V>, i: nat, name: string)
    requires Separate(s) && i < |s| && IsSubSymbol(s[i].key, name)
    ensures FindLastLessOrEqual(s, name) == i
  {
    var upper := UpperBound(s, name);
    if s[i].key == name {
      FloorOfKey(s, i);
    } else {
      SubSymbolIsGreater(s[i].key, name);
      LessTotal(s[i].key, name);
      assert i < upper;
      if i < upper - 1 {
        assert Less(s[i].key, s[upper - 1].key);
        BetweenIsEnclosed(s[i].key, s[upper - 1].key, name);
      }
    }
  }

  /** With no key enclosing another, one floor lookup is the linear search, for
      every name, legal or not. */
  lemma FindIsLinearSearch<V>(s: SymbolMap<V>, name: string)
    requires Separate(s)
    ensures FindSymbol(s, name) == LinearSearch(s, name)
  {
    LinearSearchMeaning(s, name);
    if i :| 0 <= i < |s| && IsSubSymbol(s[i].key, name) && LinearSearch(s, name) == Some(s[i].value) {
      ScopeIsFloor(s, i, name);
    }
  }

  // ----- Insertion -----------------------------------------------------------

  ghost predicate Conflict<V>(s: seq<Entry<V>>, name: string)
  {
    exists i :: 0 <= i < |s| && (IsSubSymbol(s[i].key, name) || IsSubSymbol(name, s[i].key))
  }

  /** The checks AddSymbol makes: the floor, and the entry after it. */
  predicate Detected<V>(s: SymbolMap<V>, name: string)
  {
    var iter := FindLastLessOrEqual(s, name);
    && iter != |s|
    && (IsSubSymbol(s[iter].key, name) || (iter + 1 != |s| && IsSubSymbol(name, s[iter + 1].key)))
  }

  /** The case AddSymbol misses: every key sorts after the new name, so the floor is
      the first key, which is stepped past although the new name encloses it; and
      the new name does not enclose the second key. */
  predicate Gap<V>(s: SymbolMap<V>, name: string)
  {
    && s != []
    && Less(name, s[0].key)
    && IsSubSymbol(name, s[0].key)
    && (|s| == 1 || !IsSubSymbol(name, s[1].key))
  }

  lemma UpperBoundIsZero<V>(s: SymbolMap<V>, name: string)
    ensures UpperBound(s, name) == 0 <==> s == [] || Less(name, s[0].key)
  {
  }

  /** An entry enclosed by the name, not at the floor, has the floor's successor
      enclosed by it as well. */
  lemma SuccessorIsEnclosed<V>(s: SymbolMap<V>, name: string, i: nat)
    requires i < |s| && IsSubSymbol(name, s[i].key) && name != s[i].key
    requires forall j :: 0 <= j < |s| ==> Legal(s[j].key)
    ensures UpperBound(s, name) <= i && IsSubSymbol(name, s[UpperBound(s, name)].key)
  {
    var upper := UpperBound(s, name);
    SubSymbolIsGreater(name, s[i].key);
    if upper < i {
      assert Less(s[upper].key, s[i].key);
      LessTotal(s[upper].key, s[i].key);
      BetweenIsEnclosed(name, s[upper].key, s[i].key);
    }
  }

  /** Checking the floor and its successor finds every conflict except in the gap,
      and finds nothing that is not a conflict. */
  lemma DetectsConflicts<V>(s: SymbolMap<V>, name: string)
    ensures Detected(s, name) ==> Conflict(s, name)
    ensures Separate(s) ==> (Conflict(s, name) <==> Detected(s, name) || Gap(s, name))
  {
    UpperBoundIsZero(s, name);
    if Separate(s) && Conflict(s, name) {
      var i :| 0 <= i < |s| && (IsSubSymbol(s[i].key, name) || IsSubSymbol(name, s[i].key));
      if IsSubSymbol(s[i].key, name) {
        ScopeIsFloor(s, i, name);
      } else {
        SuccessorIsEnclosed(s, name, i);
      }
    }
    if Gap(s, name) {
      assert IsSubSymbol(name, s[0].key);
    }
  }

  lemma GapIsNotDetected<V>(s: SymbolMap<V>, name: string)
    requires Gap(s, name)
    ensures !Detected(s, name)
  {
    UpperBoundIsZero(s, name);
    LessTotal(name, s[0].key);
    if IsSubSymbol(s[0].key, name) {
      SubSymbolIsGreater(s[0].key, name);
    }
  }

  /** std::map::insert of a key that is not present. */
  function Inserted<V>(s: SymbolMap<V>, name: string, value: V): SymbolMap<V>
    requires !exists i :: 0 <= i < |s| && s[i].key == name
  {
    var at := UpperBound(s, name);
    var r := s[..at] + [Entry(name, value)] + s[at..];
    assert Sorted(r) by {
      forall i | 0 <= i < at ensures Less(s[i].key, name) { LessTotal(name, s[i].key); }
      forall i, j | 0 <= i < at && at <= j < |s| ensures Less(s[i].key, s[j].key) { }
      forall i, j | 0 <= i < j < |r| ensures Less(r[i].key, r[j].key) {
        if j > at { assert r[j] == s[j - 1]; }
        if i > at { assert r[i] == s[i - 1]; }
      }
    }
    r
  }

  lemma InsertedEntries<V>(s: SymbolMap<V>, name: string, value: V)
    requires !exists i :: 0 <= i < |s| && s[i].key == name
    ensures forall e :: e in Inserted(s, name, value) <==> e in s || e == Entry(name, value)
  {
    var at := UpperBound(s, name);
    assert s == s[..at] + s[at..];
  }

  lemma DetectsEqualKey<V>(s: SymbolMap<V>, name: string)
    requires !Detected(s, name)
    ensures !exists i :: 0 <= i < |s| && s[i].key == name
  {
    forall i | 0 <= i < |s| ensures s[i].key != name {
      if s[i].key == name { FloorOfKey(s, i); }
    }
  }

  /** One AddSymbol, as a function of the index. */
  function Added<V>(s: SymbolMap<V>, name: string, value: V): SymbolMap<V>
  {
    if Legal(name) && !Detected(s, name) then
      DetectsEqualKey(s, name);
      Inserted(s, name, value)
    else s
  }

  lemma InEntries<V>(s: seq<Entry<V>>, e: Entry<V>) returns (i: nat)
    requires e in s
    ensures i < |s| && s[i] == e
  {
    i :| i < |s| && s[i] == e;
  }

  ghost predicate SeparateEntries<V>(s: SymbolMap<V>)
  {
    && (forall e :: e in s ==> Legal(e.key))
    && (forall e, f :: e in s && f in s && e != f ==> !IsSubSymbol(e.key, f.key))
  }

  lemma SeparateIsByEntries<V>(s: SymbolMap<V>)
    ensures Separate(s) <==> SeparateEntries(s)
  {
    if SeparateEntries(s) {
      forall i, j | 0 <= i < |s| && 0 <= j < |s| && i != j ensures !IsSubSymbol(s[i].key, s[j].key) {
        LessTotal(s[i].key, s[j].key);
        if i < j { assert Less(s[i].key, s[j].key); } else { assert Less(s[j].key, s[i].key); }
        assert s[i] in s && s[j] in s;
      }
    }
    if Separate(s) {
      forall e, f | e in s && f in s && e != f ensures !IsSubSymbol(e.key, f.key) {
        var i := InEntries(s, e);
        var j := InEntries(s, f);
      }
    }
  }

  lemma ConflictByEntries<V>(s: SymbolMap<V>, name: string)
    ensures Conflict(s, name) <==> exists e :: e in s && (IsSubSymbol(e.key, name) || IsSubSymbol(name, e.key))
  {
    if e :| e in s && (IsSubSymbol(e.key, name) || IsSubSymbol(name, e.key)) {
      var i := InEntries(s, e);
    }
    if i :| 0 <= i < |s| && (IsSubSymbol(s[i].key, name) || IsSubSymbol(name, s[i].key)) {
      assert s[i] in s;
    }
  }

  lemma SeparateWithOneMore<V>(s: SymbolMap<V>, r: SymbolMap<V>, name: string, value: V)
    requires forall e :: e in r <==> e in s || e == Entry(name, value)
    requires !exists i :: 0 <= i < |s| && s[i].key == name
    ensures Separate(r) <==> Separate(s) && Legal(name) && !Conflict(s, name)
  {
    SeparateIsByEntries(s);
    SeparateIsByEntries(r);
    ConflictByEntries(s, name);
    var added := Entry(name, value);
    assert added in r && added.key == name;
    forall e | e in s ensures e in r && e != added {
      var i := InEntries(s, e);
    }
  }

  /** The invariant survives an AddSymbol exactly when the name is not added in the
      gap; once lost it does not come back. */
  lemma AddedKeepsSeparate<V>(s: SymbolMap<V>, name: string, value: V)
    ensures Separate(Added(s, name, value)) <==> Separate(s) && !(Legal(name) && Gap(s, name))
  {
    DetectsConflicts(s, name);
    if Legal(name) && !Detected(s, name) {
      DetectsEqualKey(s, name);
      InsertedEntries(s, name, value);
      SeparateWithOneMore(s, Added(s, name, value), name, value);
      if Gap(s, name) {
        assert IsSubSymbol(name, s[0].key);
      }
    } else if Legal(name) && Gap(s, name) {
      GapIsNotDetected(s, name);
    }
  }

  /** Any sequence of AddSymbol calls. */
  function Run<V>(s: SymbolMap<V>, calls: seq<Entry<V>>): SymbolMap<V>
    decreases calls
  {
    if calls == [] then s else Run(Added(s, calls[0].key, calls[0].value), calls[1..])
  }

  predicate MeetsGap<V>(s: SymbolMap<V>, calls: seq<Entry<V>>)
    decreases calls
  {
    calls != [] &&
    ((Legal(calls[0].key) && Gap(s, calls[0].key)) || MeetsGap(Added(s, calls[0].key, calls[0].value), calls[1..]))
  }

  /** Over a whole run, the keys are free of enclosures exactly when they were at
      the start and no call met the gap. */
  lemma {:induction false} RunKeepsSeparate<V>(s: SymbolMap<V>, calls: seq<Entry<V>>)
    ensures Separate(Run(s, calls)) <==> Separate(s) && !MeetsGap(s, calls)
    decreases calls
  {
    if calls != [] {
      AddedKeepsSeparate(s, calls[0].key, calls[0].value);
      RunKeepsSeparate(Added(s, calls[0].key, calls[0].value), calls[1..]);
    }
  }

  /** From an empty index, after any calls none of which met the gap, every lookup
      is the linear search. */
  lemma RunFindsByLinearSearch<V>(calls: seq<Entry<V>>, name: string)
    requires !MeetsGap([], calls)
    ensures FindSymbol(Run([], calls), name) == LinearSearch(Run([], calls), name)
  {
    RunKeepsSeparate([], calls);
    FindIsLinearSearch(Run([], calls), name);
  }

  /** What the gap costs: of the symbols that only the new name encloses, those
      below the first old key are found and all others are lost. */
  lemma GapLosesSymbols<V>(s: SymbolMap<V>, name: string, value: V, symbol: string)
    requires Legal(name) && Gap(s, name)
    requires IsSubSymbol(name, symbol) && !exists i :: 0 <= i < |s| && IsSubSymbol(s[i].key, symbol)
    ensures LinearSearch(Added(s, name, value), symbol) == Some(value)
    ensures FindSymbol(Added(s, name, value), symbol) == if Less(symbol, s[0].key) then Some(value) else None
  {
    GapIsNotDetected(s, name);
    DetectsEqualKey(s, name);
    UpperBoundIsZero(s, name);
    var r := Added(s, name, value);
    assert r == [Entry(name, value)] + s;
    if symbol != name { SubSymbolIsGreater(name, symbol); }
    LessTotal(symbol, name);
    var iter := FindLastLessOrEqual(r, symbol);
    if Less(symbol, s[0].key) {
      assert r[1] == s[0];
    } else {
      assert r[1] == s[0] && r[iter] == s[iter - 1];
    }
  }

  /** The gap is met by "a.b" and then "a", which loses "a.z". */
  lemma GapExample(value: nat)
    ensures MeetsGap([], [Entry("a.b", value), Entry("a", value)])
    ensures FindSymbol(Added([Entry("a.b", value)], "a", value), "a.z") == None
  {
    var first := [Entry("a.b", value)];
    assert Added([], "a.b", value) == first;
    assert Gap(first, "a");
    assert "a.z"[..1] == "a" && "a.z"[2] != "a.b"[2];
    LessTotal("a.b", "a.z");
    assert Less("a.b", "a.z") by { assert Less(".b", ".z") by { assert Less("b", "z"); } }
    GapLosesSymbols(first, "a", value, "a.z");
  }
}
