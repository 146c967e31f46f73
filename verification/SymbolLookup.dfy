/** Scoped name lookup in DescriptorBuilder, over a fixed symbol table. */
module SymbolLookup {
  import opened Basics
  import opened DottedNames
  import opened PoolTables
  import SymbolIndex

  datatype File = File(name: string, package: string)

  datatype Found = Null | Found(kind: Kind, file: File)
  {
    predicate IsType()
    {
      Found? && (kind.Message? || kind.Enum?)
    }

    predicate IsAggregate()
    {
      Found? && (kind.Message? || kind.Package? || kind.Enum? || kind.Service?)
    }
  }

  datatype ResolveMode = LookupAll | LookupTypes

  predicate IsInPackage(file: File, name: string)
  {
    SymbolIndex.IsSubSymbol(name, file.package)
  }

  /** The file's package is this one or one inside it. */
  ghost predicate PackageHas(file: File, name: string)
  {
    file.package == name || exists rest: string :: file.package == name + "." + rest
  }

  lemma InPackageMeans(file: File, name: string)
    ensures IsInPackage(file, name) <==> PackageHas(file, name)
  {
    SymbolIndex.EnclosesIsSubSymbol(name, file.package);
  }

  // ----- Which symbols the file may use ------------------------------------------

  /** The table, and what the file being built may see of it. */
  datatype View = View(symbols: map<string, Found>, enforce: bool, file: File, dependencies: set<File>)
  {
    predicate Declared(file: File)
    {
      file == this.file || file in dependencies
    }

    /** A package counts as visible when any visible file is in it, whichever file the
        table recorded for it. */
    predicate Visible(name: string)
    {
      && name in symbols && symbols[name].Found?
      && (!enforce || Declared(symbols[name].file)
          || (symbols[name].kind.Package? && exists f :: f in dependencies + {file} && IsInPackage(f, name)))
    }

    function Seen(name: string): Found
    {
      if Visible(name) then symbols[name] else Null
    }

    /** What is seen: the table's entry when dependencies are not enforced, when it is of the
        file itself or of an import, and when it is a package that one of these is in. */
    lemma SeenMeans(name: string)
      ensures Seen(name).Found? ==> name in symbols && Seen(name) == symbols[name]
      ensures Seen(name).Found? <==>
        && name in symbols && symbols[name].Found?
        && var symbol := symbols[name];
          || !enforce || symbol.file == file || symbol.file in dependencies
          || (symbol.kind.Package? && exists f :: f in dependencies + {file} && PackageHas(f, name))
    {
      forall f: File ensures IsInPackage(f, name) <==> PackageHas(f, name) { InPackageMeans(f, name); }
    }

    // ----- The specification ---------------------------------------------------------

    /** What the scope `outer` is asked for. */
    function InScope(outer: string, name: string): string
    {
      outer + "." + name
    }

    function FirstPart(name: string): string
    {
      if FirstDot(name) < 0 then name else name[..FirstDot(name)]
    }

    predicate Compound(name: string)
    {
      FirstDot(name) >= 0
    }

    /** The scope has something that ends the search: for a compound name an aggregate
        called like its first part, for a simple name anything, or any type. */
    predicate Commits(outer: string, name: string, mode: ResolveMode)
    {
      var found := Seen(InScope(outer, FirstPart(name)));
      && found.Found?
      && (if Compound(name) then found.IsAggregate() else mode.LookupAll? || found.IsType())
    }

    /** Innermost scope first; `scope` has its last component chopped off. */
    function Resolve(name: string, scope: string, mode: ResolveMode): string
      decreases |scope|
    {
      var dot := LastDot(scope);
      if dot < 0 then name
      else if Commits(scope[..dot], name, mode) then InScope(scope[..dot], name)
      else Resolve(name, scope[..dot], mode)
    }

    /** The full name that a lookup settles on, found or not. */
    function Settled(name: string, relativeTo: string, mode: ResolveMode): string
    {
      if name != "" && name[0] == '.' then name[1..] else Resolve(name, relativeTo, mode)
    }

    /** The recursion, said outright: the settled name is in the innermost scope that
        commits, whatever the scopes outside it hold. */
    lemma {:induction false} ResolveIsInnermost(name: string, scope: string, i: nat, mode: ResolveMode)
      requires i < |scope| && IsInnermost(scope, i, name, mode)
      ensures Resolve(name, scope, mode) == InScope(scope[..i], name)
      decreases |scope|
    {
      var dot := LastDot(scope);
      assert CommitsAt(scope, i, name, mode);
      if i < dot {
        var outer := scope[..dot];
        assert !CommitsAt(scope, dot, name, mode);
        SameCommits(scope, dot, name, mode);
        ResolveIsInnermost(name, outer, i, mode);
      }
    }

    /** When no scope commits, only the name itself is tried, with no scope at all. */
    lemma {:induction false} ResolveAtRoot(name: string, scope: string, mode: ResolveMode)
      requires NoneCommits(scope, name, mode)
      ensures Resolve(name, scope, mode) == name
      decreases |scope|
    {
      var dot := LastDot(scope);
      if dot >= 0 {
        assert !CommitsAt(scope, dot, name, mode);
        SameCommits(scope, dot, name, mode);
        ResolveAtRoot(name, scope[..dot], mode);
      }
    }

    /** An inner aggregate called like the first part of a compound name hides every
        outer one, even when the rest of the name exists only outside. */
    lemma InnerHidesOuter(name: string, scope: string, i: nat, mode: ResolveMode)
      requires i < |scope| && IsInnermost(scope, i, name, mode)
      requires Compound(name) && name[0] != '.' && !Visible(InScope(scope[..i], name))
      ensures Seen(Settled(name, scope, mode)) == Null
    {
      ResolveIsInnermost(name, scope, i, mode);
    }

    /** In type mode a simple name found in a scope is a type; only a name found with
        no scope at all may be something else. */
    lemma TypeModeFindsTypes(name: string, scope: string, i: nat)
      requires i < |scope| && IsInnermost(scope, i, name, LookupTypes) && !Compound(name)
      ensures Seen(Settled(name, scope, LookupTypes)).IsType()
    {
      ResolveIsInnermost(name, scope, i, LookupTypes);
    }

    /** A message, package, enum or service called `part` in the scope that ends before the
        `i`th character. */
    ghost predicate AggregateAt(scope: string, i: nat, part: string)
      requires i < |scope|
    {
      var found := Seen(scope[..i] + "." + part);
      scope[i] == '.' && found.Found? && found.kind in {Kind.Message, Kind.Package, Kind.Enum, Kind.Service}
    }

    ghost predicate LastAggregateAt(scope: string, i: nat, part: string)
      requires i < |scope|
    {
      AggregateAt(scope, i, part) && forall j :: i < j < |scope| ==> !AggregateAt(scope, j, part)
    }

    /** A compound name is looked for in the innermost scope with a visible aggregate called
        like its first part, and nowhere else; as it stands if no scope has one. */
    lemma CompoundNames(name: string, relativeTo: string, mode: ResolveMode)
      requires FirstDot(name) > 0
      ensures forall i :: 0 <= i < |relativeTo| && LastAggregateAt(relativeTo, i, name[..FirstDot(name)]) ==>
        Settled(name, relativeTo, mode) == relativeTo[..i] + "." + name
      ensures (forall j :: 0 <= j < |relativeTo| ==> !AggregateAt(relativeTo, j, name[..FirstDot(name)])) ==>
        Settled(name, relativeTo, mode) == name
    {
      var part := name[..FirstDot(name)];
      forall j | 0 <= j < |relativeTo|
        ensures AggregateAt(relativeTo, j, part) <==> CommitsAt(relativeTo, j, name, mode)
      {
      }
      forall i | 0 <= i < |relativeTo| && LastAggregateAt(relativeTo, i, part)
        ensures Settled(name, relativeTo, mode) == relativeTo[..i] + "." + name
      {
        ResolveIsInnermost(name, relativeTo, i, mode);
      }
      if forall j :: 0 <= j < |relativeTo| ==> !AggregateAt(relativeTo, j, part) {
        ResolveAtRoot(name, relativeTo, mode);
      }
    }

    /** Anything visible, or a visible message or enum when types are asked for. */
    ghost predicate AnswerAt(scope: string, i: nat, name: string, mode: ResolveMode)
      requires i < |scope|
    {
      var found := Seen(scope[..i] + "." + name);
      scope[i] == '.' && found.Found? && (mode.LookupAll? || found.kind in {Kind.Message, Kind.Enum})
    }

    ghost predicate LastAnswerAt(scope: string, i: nat, name: string, mode: ResolveMode)
      requires i < |scope|
    {
      AnswerAt(scope, i, name, mode) && forall j :: i < j < |scope| ==> !AnswerAt(scope, j, name, mode)
    }

    /** A simple name is looked for in the innermost scope that has an answer. */
    lemma SimpleNames(name: string, relativeTo: string, mode: ResolveMode)
      requires FirstDot(name) < 0
      ensures forall i :: 0 <= i < |relativeTo| && LastAnswerAt(relativeTo, i, name, mode) ==>
        Settled(name, relativeTo, mode) == relativeTo[..i] + "." + name
      ensures (forall j :: 0 <= j < |relativeTo| ==> !AnswerAt(relativeTo, j, name, mode)) ==>
        Settled(name, relativeTo, mode) == name
    {
      forall j | 0 <= j < |relativeTo|
        ensures AnswerAt(relativeTo, j, name, mode) <==> CommitsAt(relativeTo, j, name, mode)
      {
      }
      forall i | 0 <= i < |relativeTo| && LastAnswerAt(relativeTo, i, name, mode)
        ensures Settled(name, relativeTo, mode) == relativeTo[..i] + "." + name
      {
        ResolveIsInnermost(name, relativeTo, i, mode);
      }
      if forall j :: 0 <= j < |relativeTo| ==> !AnswerAt(relativeTo, j, name, mode) {
        ResolveAtRoot(name, relativeTo, mode);
      }
    }

    /** Something that is no aggregate, a field for one, never decides where a compound
        name is looked for, whatever it is called. */
    lemma {:induction false} OthersArePassedOver(key: string, name: string, relativeTo: string, mode: ResolveMode)
      requires FirstDot(name) > 0 && key in symbols && symbols[key].Found?
      requires symbols[key].kind in {Kind.Field, Kind.Oneof, Kind.EnumValue, Kind.Method}
      ensures Settled(name, relativeTo, mode) == this.(symbols := symbols - {key}).Settled(name, relativeTo, mode)
      decreases |relativeTo|
    {
      var dot := LastDot(relativeTo);
      if dot >= 0 {
        OthersArePassedOver(key, name, relativeTo[..dot], mode);
      }
    }

    lemma SameCommits(scope: string, dot: nat, name: string, mode: ResolveMode)
      requires dot < |scope|
      ensures forall i :: 0 <= i < dot ==>
        scope[..dot][..i] == scope[..i] && (CommitsAt(scope[..dot], i, name, mode) <==> CommitsAt(scope, i, name, mode))
    {
      forall i | 0 <= i < dot
        ensures scope[..dot][..i] == scope[..i] && (CommitsAt(scope[..dot], i, name, mode) <==> CommitsAt(scope, i, name, mode))
      {
        assert scope[..dot][..i] == scope[..i];
      }
    }

    ghost predicate CommitsAt(scope: string, i: nat, name: string, mode: ResolveMode)
      requires i < |scope|
    {
      scope[i] == '.' && Commits(scope[..i], name, mode)
    }

    ghost predicate IsInnermost(scope: string, i: nat, name: string, mode: ResolveMode)
      requires i < |scope|
    {
      CommitsAt(scope, i, name, mode) && forall j :: i < j < |scope| ==> !CommitsAt(scope, j, name, mode)
    }

    ghost predicate NoneCommits(scope: string, name: string, mode: ResolveMode)
    {
      forall j :: 0 <= j < |scope| ==> !CommitsAt(scope, j, name, mode)
    }
  }

  // ----- The builder -------------------------------------------------------------

  class DescriptorBuilder {
    const view: View
    var possibleUndeclaredDependency: Option<File>
    var possibleUndeclaredDependencyName: string
    var undefineResolvedName: string
    var unusedDependency: set<File>

    constructor (view: View, unused: set<File>)
      ensures this.view == view && unusedDependency == unused
    {
      this.view := view;
      unusedDependency := unused;
      possibleUndeclaredDependency, possibleUndeclaredDependencyName, undefineResolvedName := None, "", "";
    }

    /** The recorded dependency, if any, is a file that defines the recorded name but
        is not imported. */
    ghost predicate HintIsTrue()
      reads this
    {
      possibleUndeclaredDependency.Some? ==>
        var name := possibleUndeclaredDependencyName;
        && name in view.symbols && view.symbols[name].Found? && !view.Visible(name)
        && view.symbols[name].file == possibleUndeclaredDependency.value
        && !view.Declared(possibleUndeclaredDependency.value)
    }

    method FindSymbol(name: string) returns (result: Found)
      requires HintIsTrue()
      modifies this
      ensures HintIsTrue() && result == view.Seen(name)
      ensures var refused := result.Null? && name in view.symbols && view.symbols[name].Found?;
        && possibleUndeclaredDependency == (if refused then Some(view.symbols[name].file) else old(possibleUndeclaredDependency))
        && possibleUndeclaredDependencyName == (if refused then name else old(possibleUndeclaredDependencyName))
      ensures undefineResolvedName == old(undefineResolvedName)
      ensures unusedDependency == old(unusedDependency)
           || (result.Found? && unusedDependency == old(unusedDependency) - {result.file})
      ensures result.Found? && view.enforce && view.Declared(result.file) ==> result.file !in unusedDependency
    {
      if name !in view.symbols { return Null; }
      result := view.symbols[name];
      if result.Null? { return; }
      if !view.enforce { return; }
      if result.file == view.file || result.file in view.dependencies {
        unusedDependency := unusedDependency - {result.file};
        return;
      }
      if result.kind.Package? {
        if IsInPackage(view.file, name) { return; }
        if exists f :: f in view.dependencies && IsInPackage(f, name) { return; }
      }
      possibleUndeclaredDependency := Some(result.file);
      possibleUndeclaredDependencyName := name;
      return Null;
    }

    /** One turn of the loop: the first part in this scope, then the rest. */
    method TryScope(scope: string, firstPart: string, name: string, mode: ResolveMode) returns (settled: bool, result: Found)
      requires HintIsTrue() && firstPart == view.FirstPart(name) && undefineResolvedName == ""
      modifies this
      ensures HintIsTrue() && unusedDependency <= old(unusedDependency)
      ensures settled == view.Commits(scope, name, mode)
      ensures var found := view.Seen(scope + "." + firstPart);
        settled == (found.Found? &&
                    if |firstPart| < |name| then found.kind in {Kind.Message, Kind.Package, Kind.Enum, Kind.Service}
                    else mode.LookupAll? || found.kind in {Kind.Message, Kind.Enum})
      ensures settled ==> result == view.Seen(view.InScope(scope, name))
      ensures undefineResolvedName ==
        if settled && view.Compound(name) && result.Null? then view.InScope(scope, name) else ""
    {
      result := FindSymbol(scope + "." + firstPart);
      if result.Null? { return false, Null; }
      if |firstPart| < |name| {
        if !result.IsAggregate() { return false, Null; }
        assert firstPart + name[|firstPart|..] == name;
        var attempt := scope + "." + firstPart + name[|firstPart|..];
        assert attempt == view.InScope(scope, name);
        result := FindSymbol(attempt);
        if result.Null? { undefineResolvedName := attempt; }
        return true, result;
      }
      settled := !(mode.LookupTypes? && !result.IsType());
    }

    /** What is found for a name with a leading dot, a compound name and a simple name: the
        scope-chopping loop finds what the innermost-scope rule settles on. */
    method LookupSymbolNoPlaceholder(name: string, relativeTo: string, mode: ResolveMode) returns (result: Found)
      modifies this
      ensures HintIsTrue() && result == view.Seen(view.Settled(name, relativeTo, mode))
      ensures name != "" && name[0] == '.' ==> result == view.Seen(name[1..])
      ensures FirstDot(name) > 0 ==>
        forall i :: 0 <= i < |relativeTo| && view.LastAggregateAt(relativeTo, i, name[..FirstDot(name)]) ==>
          result == view.Seen(relativeTo[..i] + "." + name)
      ensures FirstDot(name) > 0 && (forall j :: 0 <= j < |relativeTo| ==> !view.AggregateAt(relativeTo, j, name[..FirstDot(name)])) ==>
        result == view.Seen(name)
      ensures FirstDot(name) < 0 ==>
        forall i :: 0 <= i < |relativeTo| && view.LastAnswerAt(relativeTo, i, name, mode) ==>
          result == view.Seen(relativeTo[..i] + "." + name)
      ensures FirstDot(name) < 0 && (forall j :: 0 <= j < |relativeTo| ==> !view.AnswerAt(relativeTo, j, name, mode)) ==>
        result == view.Seen(name)
      ensures unusedDependency <= old(unusedDependency)
      ensures undefineResolvedName == "" ||
        (result.Null? && view.Compound(name) && undefineResolvedName == view.Settled(name, relativeTo, mode))
      ensures result.Null? && undefineResolvedName == "" ==> view.Settled(name, relativeTo, mode) == (if name != "" && name[0] == '.' then name[1..] else name)
    {
      result := Search(name, relativeTo, mode);
      if FirstDot(name) > 0 { view.CompoundNames(name, relativeTo, mode); }
      if FirstDot(name) < 0 { view.SimpleNames(name, relativeTo, mode); }
    }

    /** The scope-chopping loop. A compound name that settles in a scope and is not there
        is remembered. */
    method Search(name: string, relativeTo: string, mode: ResolveMode) returns (result: Found)
      modifies this
      ensures HintIsTrue() && result == view.Seen(view.Settled(name, relativeTo, mode))
      ensures unusedDependency <= old(unusedDependency)
      ensures undefineResolvedName == "" ||
        (result.Null? && view.Compound(name) && undefineResolvedName == view.Settled(name, relativeTo, mode))
      ensures result.Null? && undefineResolvedName == "" ==> view.Settled(name, relativeTo, mode) == (if name != "" && name[0] == '.' then name[1..] else name)
    {
      possibleUndeclaredDependency := None;
      undefineResolvedName := "";
      if |name| > 0 && name[0] == '.' {
        result := FindSymbol(name[1..]);
        return;
      }
      var nameDotPos := FirstDot(name);
      var firstPart := if nameDotPos < 0 then name else name[..nameDotPos];
      var scope := relativeTo;
      while true
        invariant HintIsTrue() && undefineResolvedName == ""
        invariant unusedDependency <= old(unusedDependency)
        invariant view.Resolve(name, scope, mode) == view.Resolve(name, relativeTo, mode)
        decreases |scope|
      {
        var dotPos := LastDot(scope);
        if dotPos < 0 {
          result := FindSymbol(name);
          return;
        }
        scope := scope[..dotPos];
        var settled;
        settled, result := TryScope(scope, firstPart, name, mode);
        if settled { return; }
      }
    }
  }
}
