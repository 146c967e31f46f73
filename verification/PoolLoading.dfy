/** Loading files into a DescriptorPool from a fallback database, with no underlay,
    unknown dependencies disallowed and no weak imports. Transactions are those that
    module PoolTables proves of the undo log: a stack of saved contents. */
module PoolLoading {
  import opened Basics
  import opened DottedNames

  /** A symbol other than a package, or the first file seen to use a package. */
  datatype Symbol = Package(file: string) | Definition(file: string)

  type SymbolTable = map<string, Symbol>

  datatype Contents = Contents(files: seq<FileProto>, symbols: SymbolTable)

  /** What a FileDescriptorProto says that loading depends on. `definitions` are the
      symbols the file declares; `lookups` are those that cross-linking may ask for,
      in the order it would ask; a `sound` file has no errors of its own, such as
      those found when types are linked, options interpreted and proto3 validated. */
  datatype FileProto = FileProto(name: string, package: string, dependencies: seq<string>,
                                 definitions: seq<string>, lookups: seq<string>, sound: bool)

  /** A finite fallback database that returns a file of the name asked for. Which file
      it reports for a symbol is arbitrary: false positives and negatives are allowed. */
  datatype Database = Database(files: map<string, FileProto>, definer: string -> Option<string>)
  {
    predicate Valid()
    {
      forall name :: name in files ==> files[name].name == name
    }

    function FindFileByName(name: string): Option<FileProto>
    {
      if name in files then Some(files[name]) else None
    }

    function FindFileContainingSymbol(symbol: string): Option<FileProto>
    {
      var file := definer(symbol);
      if file.Some? && file.value in files then Some(files[file.value]) else None
    }
  }

  // ----- What a pool holds -----------------------------------------------------

  /** Files in the order they were added. */
  function Names(files: seq<FileProto>): set<string>
  {
    set f | f in files :: f.name
  }

  lemma NamesGrow(files: seq<FileProto>, more: seq<FileProto>)
    requires files <= more
    ensures Names(files) <= Names(more)
  {
    assert forall f :: f in files ==> f in more;
  }

  /** FindFile: the position of the file, or -1. */
  function FindFile(files: seq<FileProto>, name: string): (r: int)
    ensures -1 <= r < |files|
    ensures r >= 0 ==> files[r].name == name
    ensures r < 0 <==> name !in Names(files)
  {
    if files == [] then -1
    else if files[|files| - 1].name == name then |files| - 1
    else FindFile(files[..|files| - 1], name)
  }

  ghost predicate Distinct(files: seq<FileProto>)
  {
    forall i, j :: 0 <= i < j < |files| ==> files[i].name != files[j].name
  }

  predicate Imported(dependencies: seq<string>, files: seq<FileProto>)
  {
    forall d :: d in dependencies ==> d in Names(files)
  }

  lemma ImportedNext(dependencies: seq<string>, i: nat, before: seq<FileProto>, after: seq<FileProto>)
    requires i < |dependencies| && Imported(dependencies[..i], before)
    requires Names(before) <= Names(after) && dependencies[i] in Names(after)
    ensures Imported(dependencies[..i + 1], after)
  {
    assert dependencies[..i + 1] == dependencies[..i] + [dependencies[i]];
  }

  /** Insertion order is a topological order: imports come first. */
  ghost predicate ImportsFirst(files: seq<FileProto>)
  {
    forall i :: 0 <= i < |files| ==> Imported(files[i].dependencies, files[..i])
  }

  predicate IsPackage(symbols: SymbolTable, name: string)
  {
    name in symbols && symbols[name].Package?
  }

  /** Every package's parent is a package, save for packages whose parent is `hole`. */
  ghost predicate ClosedExcept(symbols: SymbolTable, hole: Option<string>)
  {
    forall name :: IsPackage(symbols, name) && LastDot(name) >= 0 && hole != Some(name[..LastDot(name)]) ==>
      IsPackage(symbols, name[..LastDot(name)])
  }

  /** What holds whenever no transaction is open. */
  ghost predicate Clean(files: seq<FileProto>, symbols: SymbolTable)
  {
    && Distinct(files) && ImportsFirst(files) && ClosedExcept(symbols, None)
    && FilesOk(files) && Tabled(files, symbols)
  }

  ghost predicate FilesOk(files: seq<FileProto>)
  {
    forall f :: f in files ==> NoDuplicates(f.dependencies) && (f.package == "" || ValidPackage(f.package))
  }

  /** Every symbol is declared by the loaded file it is recorded for, and everything a
      loaded file declares is there. */
  ghost predicate Tabled(files: seq<FileProto>, symbols: SymbolTable)
  {
    && (forall n :: n in symbols ==> DeclaredBy(files, n, symbols[n]))
    && (forall f, n :: f in files && n in f.definitions ==> n in symbols && symbols[n] == Definition(f.name))
    && (forall f, n :: f in files && n in Packages(f) ==> IsPackage(symbols, n))
  }

  ghost predicate DeclaredBy(files: seq<FileProto>, name: string, symbol: Symbol)
  {
    exists f :: f in files && f.name == symbol.file &&
      if symbol.Package? then name in Packages(f) else name in f.definitions
  }

  lemma TabledWithFile(others: seq<FileProto>, proto: FileProto, before: SymbolTable, after: SymbolTable)
    requires Tabled(others, before) && AddedBy(proto, before, after)
    ensures Tabled(others + [proto], after)
  {
    var files := others + [proto];
    forall n | n in after ensures DeclaredBy(files, n, after[n]) {
      if n in before {
        DeclaredStays(others, proto, n, before[n]);
      } else {
        assert proto in files;
      }
    }
    forall f, n | f in files && n in f.definitions ensures n in after && after[n] == Definition(f.name) {
      if f in others { assert n in before; }
    }
    forall f, n | f in files && n in Packages(f) ensures IsPackage(after, n) {
      if f in others { assert IsPackage(before, n); }
    }
  }

  lemma DeclaredStays(others: seq<FileProto>, proto: FileProto, name: string, symbol: Symbol)
    requires DeclaredBy(others, name, symbol)
    ensures DeclaredBy(others + [proto], name, symbol)
  {
    var f :| f in others && f.name == symbol.file && if symbol.Package? then name in Packages(f) else name in f.definitions;
    assert f in others + [proto];
  }

  /** The dotted prefixes of a legal package name are legal. */
  lemma {:induction false} PrefixesAreValid(name: string)
    requires ValidPackage(name)
    ensures forall n :: n in Prefixes(name) ==> ValidPackage(n)
    decreases |name|
  {
    if LastDot(name) >= 0 { PrefixesAreValid(name[..LastDot(name)]); }
  }

  /** The packages around this one that are there already are legal. */
  ghost predicate PrefixesOk(symbols: SymbolTable, name: string)
  {
    forall n :: n in Prefixes(name) && IsPackage(symbols, n) ==> ValidPackage(n)
  }

  lemma TabledPackagesAreValid(files: seq<FileProto>, symbols: SymbolTable, name: string)
    requires FilesOk(files) && Tabled(files, symbols)
    ensures PrefixesOk(symbols, name)
  {
    forall n | n in Prefixes(name) && IsPackage(symbols, n) ensures ValidPackage(n) {
      assert DeclaredBy(files, n, symbols[n]);
      var f :| f in files && f.name == symbols[n].file && n in Packages(f);
      PrefixesAreValid(f.package);
    }
  }

  lemma {:induction false} PrefixesAreShorter(name: string)
    ensures forall n :: n in Prefixes(name) ==> |n| <= |name|
    decreases |name|
  {
    if LastDot(name) >= 0 { PrefixesAreShorter(name[..LastDot(name)]); }
  }

  lemma {:induction false} AllPrefixesArePackages(symbols: SymbolTable, name: string, i: nat)
    requires ClosedExcept(symbols, None) && IsPackage(symbols, name)
    requires i < |name| && name[i] == '.'
    ensures IsPackage(symbols, name[..i])
  {
    PrefixesOfParent(name, i);
    if i < LastDot(name) {
      AllPrefixesArePackages(symbols, name[..LastDot(name)], i);
    }
  }

  ghost predicate Imports(files: seq<FileProto>, name: string, other: string)
  {
    exists f :: f in files && f.name == name && other in f.dependencies
  }

  /** `path` follows imports, at least one. */
  ghost predicate ImportPath(files: seq<FileProto>, path: seq<string>)
  {
    |path| >= 2 && forall k :: 0 <= k < |path| - 1 ==> Imports(files, path[k], path[k + 1])
  }

  lemma ImportIsEarlier(files: seq<FileProto>, name: string, other: string)
    requires Distinct(files) && ImportsFirst(files) && Imports(files, name, other)
    ensures 0 <= FindFile(files, other) < FindFile(files, name)
  {
    var f :| f in files && f.name == name && other in f.dependencies;
    var i :| 0 <= i < |files| && files[i] == f;
    assert other in Names(files[..i]);
    var g :| g in files[..i] && g.name == other;
    var j :| 0 <= j < i && files[j] == g;
    assert g in files && f in files;
  }

  /** Whatever a loaded file imports, however indirectly, is loaded and is not the
      file itself. */
  lemma {:induction false} ImportsAreClosedAndAcyclic(files: seq<FileProto>, path: seq<string>)
    requires Distinct(files) && ImportsFirst(files) && ImportPath(files, path)
    ensures 0 <= FindFile(files, path[|path| - 1]) < FindFile(files, path[0])
    ensures path[|path| - 1] != path[0]
  {
    var last := |path| - 1;
    ImportIsEarlier(files, path[last - 1], path[last]);
    if last > 1 {
      ImportsAreClosedAndAcyclic(files, path[..last]);
    }
  }

  lemma DefinitionsKeepClosed(before: SymbolTable, after: SymbolTable)
    requires ClosedExcept(before, None)
    requires forall n :: n in before ==> n in after && after[n] == before[n]
    requires forall n :: n in after && n !in before ==> after[n].Definition?
    ensures ClosedExcept(after, None)
  {
    forall name | IsPackage(after, name) && LastDot(name) >= 0 ensures IsPackage(after, name[..LastDot(name)]) {
      assert IsPackage(before, name);
    }
  }

  /** A new file whose imports were all there. */
  lemma FileKeepsClean(files: seq<FileProto>, before: SymbolTable, after: SymbolTable)
    requires files != [] && Clean(files[..|files| - 1], before) && ClosedExcept(after, None)
    requires Addable(files[|files| - 1], files[..|files| - 1], before) && AddedBy(files[|files| - 1], before, after)
    requires files[|files| - 1].name !in Names(files[..|files| - 1])
    ensures Clean(files, after)
  {
    var others := files[..|files| - 1];
    assert files == others + [files[|files| - 1]];
    TabledWithFile(others, files[|files| - 1], before, after);
    forall i, j | 0 <= i < j < |files| ensures files[i].name != files[j].name {
      assert others[i] in others;
      assert j == |others| || others[j] == files[j];
    }
    forall i | 0 <= i < |files| ensures Imported(files[i].dependencies, files[..i]) {
      if i < |others| {
        assert others[i] == files[i] && others[..i] == files[..i];
      }
    }
  }

  // ----- Databases without errors ----------------------------------------------

  /** A package and the packages around it. */
  function Prefixes(name: string): set<string>
    decreases |name|
  {
    var dot := LastDot(name);
    {name} + (if dot < 0 then {} else Prefixes(name[..dot]))
  }

  /** No prefix of the package is taken by something else. */
  predicate Fits(name: string, symbols: SymbolTable)
  {
    forall n :: n in Prefixes(name) ==> n !in symbols || symbols[n].Package?
  }

  function Packages(f: FileProto): set<string>
  {
    if f.package == "" then {} else Prefixes(f.package)
  }

  predicate ValidPackage(name: string)
    decreases |name|
  {
    var dot := LastDot(name);
    if dot < 0 then IsIdentifier(name) else IsIdentifier(name[dot + 1..]) && ValidPackage(name[..dot])
  }

  /** The package itself and what comes before one of its dots. */
  lemma {:induction false} PrefixesMeans(name: string)
    ensures forall n :: n in Prefixes(name) <==> n == name || exists i :: 0 <= i < |name| && name[i] == '.' && n == name[..i]
    decreases |name|
  {
    var dot := LastDot(name);
    if dot >= 0 {
      PrefixesMeans(name[..dot]);
      assert forall i :: 0 <= i < dot ==> name[..dot][..i] == name[..i];
    }
  }

  /** Identifiers joined by single dots. */
  ghost predicate Dotted(name: string)
  {
    && name != "" && name[0] != '.' && name[|name| - 1] != '.'
    && (forall i :: 0 <= i < |name| ==> name[i] == '.' || IsIdentifierChar(name[i]))
    && (forall i :: 0 < i < |name| ==> name[i - 1] != '.' || name[i] != '.')
  }

  lemma DottedParts(name: string, dot: nat)
    requires dot < |name| && name[dot] == '.' && forall i :: dot < i < |name| ==> name[i] != '.'
    requires Dotted(name)
    ensures IsIdentifier(name[dot + 1..]) && Dotted(name[..dot])
  {
    var outer := name[..dot];
    assert outer != "" && outer[|outer| - 1] == name[dot - 1];
    assert name[dot - 1] != '.';
  }

  lemma DottedWhole(name: string, dot: nat)
    requires dot < |name| && name[dot] == '.'
    requires IsIdentifier(name[dot + 1..]) && Dotted(name[..dot])
    ensures Dotted(name)
  {
    var outer, last := name[..dot], name[dot + 1..];
    assert forall i :: 0 <= i < dot ==> name[i] == outer[i];
    assert forall i :: dot < i < |name| ==> name[i] == last[i - dot - 1];
    assert name[|name| - 1] == last[|last| - 1] && outer[|outer| - 1] == name[dot - 1];
  }

  lemma {:induction false} ValidPackageMeans(name: string)
    ensures ValidPackage(name) <==> Dotted(name)
    decreases |name|
  {
    var dot := LastDot(name);
    if dot >= 0 {
      ValidPackageMeans(name[..dot]);
      if Dotted(name) { DottedParts(name, dot); }
      if ValidPackage(name) { DottedWhole(name, dot); }
    }
  }

  predicate NoDuplicates(s: seq<string>)
  {
    forall i, j :: 0 <= i < j < |s| ==> s[i] != s[j]
  }

  lemma NoDuplicatesNext(s: seq<string>, i: nat)
    requires i < |s|
    ensures NoDuplicates(s[..i + 1]) <==> NoDuplicates(s[..i]) && s[i] !in s[..i]
    ensures s[..i + 1] == s[..i] + [s[i]] && s[..|s|] == s
  {
    var next := s[..i + 1];
    if NoDuplicates(s[..i]) && s[i] !in s[..i] {
      forall j, k | 0 <= j < k < |next| ensures next[j] != next[k] {
        assert s[..i][j] == next[j];
      }
    }
    if NoDuplicates(next) {
      forall j | 0 <= j < i ensures s[..i][j] != s[i] {
        assert next[j] != next[i];
      }
      forall j, k | 0 <= j < k < i ensures s[..i][j] != s[..i][k] {
        assert next[j] != next[k];
      }
    }
  }

  /** The file `to` is `from` or something it imports, however indirectly; imports are
      lower than the file. */
  predicate Reaches(db: Database, height: string -> nat, from: string, to: string)
    decreases height(from)
  {
    from in db.files &&
    (from == to || exists d :: d in db.files[from].dependencies && height(d) < height(from) && Reaches(db, height, d, to))
  }

  /** A symbol that cross-linking may ask for without loading anything: one that the file
      or something it imports declares, or one for which the database names no file or
      such a file. Names tried in outer scopes, where nothing has them, are of this kind. */
  predicate Harmless(db: Database, height: string -> nat, f: FileProto, symbol: string)
  {
    || (exists g :: g in db.files && Reaches(db, height, f.name, g) && symbol in db.files[g].definitions)
    || db.FindFileContainingSymbol(symbol).None?
    || Reaches(db, height, f.name, db.FindFileContainingSymbol(symbol).value.name)
  }

  ghost predicate SoundFile(db: Database, height: string -> nat, f: FileProto)
  {
    && f.sound && NoDuplicates(f.dependencies) && NoDuplicates(f.definitions)
    && (f.package == "" || ValidPackage(f.package))
    && (forall d :: d in f.dependencies ==> d in db.files && height(d) < height(f.name))
    && (forall l :: l in f.lookups ==> Harmless(db, height, f, l))
  }

  /** A database in which every file is sound on its own, imports are in it and are
      acyclic, and no two definitions or packages clash. */
  ghost predicate SoundDatabase(db: Database, height: string -> nat)
  {
    && db.Valid()
    && (forall a :: a in db.files ==> SoundFile(db, height, db.files[a]))
    && (forall a, b :: a in db.files && b in db.files ==> Compatible(db.files[a], db.files[b]))
  }

  ghost predicate Compatible(f: FileProto, g: FileProto)
  {
    forall n :: n in f.definitions ==> n !in Packages(g) && (n in g.definitions ==> f.name == g.name)
  }

  function Definitions(symbols: SymbolTable): set<string>
  {
    set n | n in symbols && symbols[n].Definition?
  }

  function PackageNames(symbols: SymbolTable): set<string>
  {
    set n | n in symbols && symbols[n].Package?
  }

  function Defined(files: seq<FileProto>): set<string>
  {
    set f, n | f in files && n in f.definitions :: n
  }

  function Packaged(files: seq<FileProto>): set<string>
  {
    set f, n | f in files && n in Packages(f) :: n
  }

  /** The symbols are exactly what the files declare. */
  predicate Faithful(files: seq<FileProto>, symbols: SymbolTable)
  {
    Definitions(symbols) == Defined(files) && PackageNames(symbols) == Packaged(files)
  }

  ghost predicate FromDatabase(db: Database, files: seq<FileProto>)
  {
    forall f :: f in files ==> f.name in db.files && db.files[f.name] == f
  }

  ghost predicate ClosedUnderImports(files: seq<FileProto>)
  {
    forall f :: f in files ==> Imported(f.dependencies, files)
  }

  lemma {:induction false} ReachedIsLoaded(db: Database, height: string -> nat, files: seq<FileProto>, from: string, to: string)
    requires FromDatabase(db, files) && ClosedUnderImports(files) && from in Names(files) && Reaches(db, height, from, to)
    ensures to in Names(files)
    decreases height(from)
  {
    if from != to {
      var f :| f in files && f.name == from;
      var d :| d in db.files[from].dependencies && height(d) < height(from) && Reaches(db, height, d, to);
      assert Imported(f.dependencies, files);
      ReachedIsLoaded(db, height, files, d, to);
    }
  }

  /** What holds of a pool all of whose loads succeeded. */
  ghost predicate GoodState(db: Database, height: string -> nat, files: seq<FileProto>, symbols: SymbolTable)
  {
    && SoundDatabase(db, height)
    && FromDatabase(db, files) && ClosedUnderImports(files)
    && Faithful(files, symbols) && ClosedExcept(symbols, None)
  }

  /** Nothing the file declares clashes with what is there. */
  ghost predicate Addable(proto: FileProto, others: seq<FileProto>, symbols: SymbolTable)
  {
    && NoDuplicates(proto.dependencies) && Imported(proto.dependencies, others)
    && NoDuplicates(proto.definitions)
    && (forall n :: n in proto.definitions ==> n !in symbols && n !in Packages(proto))
    && (proto.package == "" || ValidPackage(proto.package))
    && (proto.package == "" || Fits(proto.package, symbols))
  }

  lemma SoundIsAddable(db: Database, height: string -> nat, proto: FileProto, others: seq<FileProto>, symbols: SymbolTable)
    requires GoodState(db, height, others, symbols)
    requires proto.name in db.files && db.files[proto.name] == proto && proto.name !in Names(others)
    requires Imported(proto.dependencies, others)
    ensures Addable(proto, others, symbols)
  {
    assert SoundFile(db, height, proto) && Compatible(proto, proto);
    forall f | f in others ensures Compatible(proto, f) && Compatible(f, proto) && f.name != proto.name {
      assert f.name in Names(others);
    }
    forall n | n in symbols ensures n !in proto.definitions && (n in Packages(proto) ==> IsPackage(symbols, n)) {
      assert n in Definitions(symbols) || n in PackageNames(symbols);
      var f :| f in others && (n in f.definitions || n in Packages(f));
    }
  }

  lemma {:induction false} PrefixesArePackages(symbols: SymbolTable, name: string)
    requires ClosedExcept(symbols, None) && IsPackage(symbols, name)
    ensures forall n :: n in Prefixes(name) ==> IsPackage(symbols, n)
    decreases |name|
  {
    if LastDot(name) >= 0 { PrefixesArePackages(symbols, name[..LastDot(name)]); }
  }

  /** The table after a file's packages and definitions, and nothing else, were added. */
  ghost predicate AddedBy(proto: FileProto, before: SymbolTable, after: SymbolTable)
  {
    && (forall n :: n in before ==> n in after && after[n] == before[n])
    && (forall n :: n in after && n !in before ==> n in proto.definitions || (n in Packages(proto) && after[n] == Package(proto.name)))
    && (forall n :: n in proto.definitions ==> n in after && after[n] == Definition(proto.name))
    && (forall n :: n in Packages(proto) ==> IsPackage(after, n))
  }

  /** First the packages, `packaged` with them, then the definitions, none of which was
      there. */
  ghost predicate AddedInSteps(proto: FileProto, before: SymbolTable, packaged: SymbolTable, after: SymbolTable)
  {
    && (forall n :: n in before ==> n in packaged && packaged[n] == before[n])
    && (forall n :: n in packaged && n !in before ==> n in Packages(proto) && packaged[n] == Package(proto.name))
    && (forall n :: n in Packages(proto) ==> IsPackage(packaged, n))
    && (forall n :: n in packaged ==> n in after && after[n] == packaged[n])
    && (forall n :: n in after && n !in packaged ==> n in proto.definitions && after[n] == Definition(proto.name))
    && (forall n :: n in proto.definitions ==> n in after && n !in packaged)
  }

  lemma StepsAdd(proto: FileProto, before: SymbolTable, packaged: SymbolTable, after: SymbolTable)
    requires AddedInSteps(proto, before, packaged, after)
    ensures AddedBy(proto, before, after)
    ensures forall n :: n in proto.definitions ==> n !in before && n !in Packages(proto)
    ensures proto.package != "" ==> Fits(proto.package, before)
  {
    if proto.package != "" {
      forall n | n in Prefixes(proto.package) && n in before ensures before[n].Package? {
        assert n in Packages(proto);
      }
    }
  }

  /** What is known once the parts of a file were added without an error. */
  ghost predicate PartsAdded(proto: FileProto, others: seq<FileProto>, before: SymbolTable, packaged: SymbolTable, after: SymbolTable)
  {
    && NoDuplicates(proto.dependencies) && Imported(proto.dependencies, others) && NoDuplicates(proto.definitions)
    && (PrefixesOk(before, proto.package) ==> proto.package == "" || ValidPackage(proto.package))
    && (ClosedExcept(before, None) ==> AddedInSteps(proto, before, packaged, after) && ClosedExcept(after, None))
  }

  /** Then the pool is clean with the file, and the file was one that could be added. */
  lemma OwnParts(files: seq<FileProto>, before: SymbolTable, packaged: SymbolTable, after: SymbolTable)
    requires files != [] && files[|files| - 1].name !in Names(files[..|files| - 1])
    requires PartsAdded(files[|files| - 1], files[..|files| - 1], before, packaged, after)
    ensures ClosedExcept(before, None) ==> AddedBy(files[|files| - 1], before, after) && ClosedExcept(after, None)
    ensures Clean(files[..|files| - 1], before) ==>
      Clean(files, after) && Addable(files[|files| - 1], files[..|files| - 1], before)
  {
    var proto, others := files[|files| - 1], files[..|files| - 1];
    if ClosedExcept(before, None) { StepsAdd(proto, before, packaged, after); }
    if Clean(others, before) {
      TabledPackagesAreValid(others, before, proto.package);
      FileKeepsClean(files, before, after);
    }
  }

  lemma FaithfulWithFile(files: seq<FileProto>, before: SymbolTable, after: SymbolTable)
    requires files != [] && Faithful(files[..|files| - 1], before) && AddedBy(files[|files| - 1], before, after)
    ensures Faithful(files, after)
  {
    var others, proto := files[..|files| - 1], files[|files| - 1];
    assert files == others + [proto];
    assert Defined(files) == Defined(others) + (set n | n in proto.definitions);
    assert Packaged(files) == Packaged(others) + Packages(proto);
    forall n | n in after ensures n in Definitions(after) <==> n in Defined(files) {
      assert n in before ==> (n in Definitions(before) <==> n in Definitions(after));
    }
    forall n | n in after ensures n in PackageNames(after) <==> n in Packaged(files) {
      assert n in before ==> (n in PackageNames(before) <==> n in PackageNames(after));
    }
    assert Definitions(after) == Defined(files);
  }

  lemma GoodWithFile(db: Database, height: string -> nat, files: seq<FileProto>, before: SymbolTable, after: SymbolTable)
    requires files != [] && GoodState(db, height, files[..|files| - 1], before)
    requires AddedBy(files[|files| - 1], before, after) && ClosedExcept(after, None)
    requires files[|files| - 1].name in db.files && db.files[files[|files| - 1].name] == files[|files| - 1]
    requires Imported(files[|files| - 1].dependencies, files[..|files| - 1])
    ensures GoodState(db, height, files, after)
  {
    FaithfulWithFile(files, before, after);
    NamesGrow(files[..|files| - 1], files);
    assert files == files[..|files| - 1] + [files[|files| - 1]];
  }

  /** The database has no file for the symbol, or it is loaded already. */
  predicate NothingToLoad(db: Database, files: seq<FileProto>, symbol: string)
  {
    var f := db.FindFileContainingSymbol(symbol);
    f.None? || f.value.name in Names(files)
  }

  /** Asking for the symbol loads nothing. */
  predicate Quiet(db: Database, files: seq<FileProto>, symbols: SymbolTable, symbol: string)
  {
    symbol in symbols || NothingToLoad(db, files, symbol)
  }

  /** The database names the file that declares the symbol, and no other file declares a
      scope around it. */
  ghost predicate Locates(db: Database, symbol: string)
  {
    var f := db.FindFileContainingSymbol(symbol);
    && f.Some? && symbol in f.value.definitions
    && forall g, i :: g in db.files && 0 <= i < |symbol| && symbol[i] == '.' && symbol[..i] in db.files[g].definitions ==>
         g == f.value.name
  }

  lemma LocatedIsLoadable(db: Database, height: string -> nat, files: seq<FileProto>, symbols: SymbolTable, symbol: string)
    requires GoodState(db, height, files, symbols) && Locates(db, symbol) && symbol !in symbols
    ensures !NothingToLoad(db, files, symbol)
    ensures forall i :: 0 <= i < |symbol| && symbol[i] == '.' && symbol[..i] in symbols ==> symbols[symbol[..i]].Package?
  {
    var f := db.FindFileContainingSymbol(symbol).value;
    assert symbol !in Definitions(symbols) && symbol !in Defined(files);
    forall g | g in files ensures g.name != f.name {
      assert db.files[g.name] == g && symbol !in g.definitions;
    }
    forall i | 0 <= i < |symbol| && symbol[i] == '.' && symbol[..i] in symbols ensures symbols[symbol[..i]].Package? {
      assert symbol[..i] !in Defined(files) && symbol[..i] !in Definitions(symbols);
    }
  }

  /** Cross-linking a loaded sound file loads nothing. */
  lemma LookupsAreQuiet(db: Database, height: string -> nat, proto: FileProto, files: seq<FileProto>, symbols: SymbolTable)
    requires GoodState(db, height, files, symbols) && SoundFile(db, height, proto) && proto in files
    ensures proto.sound && forall l :: l in proto.lookups ==> Quiet(db, files, symbols, l)
  {
    assert proto.name in Names(files);
    forall l | l in proto.lookups ensures Quiet(db, files, symbols, l) {
      assert Harmless(db, height, proto, l);
      if g :| g in db.files && Reaches(db, height, proto.name, g) && l in db.files[g].definitions {
        ReachedIsLoaded(db, height, files, proto.name, g);
        var f :| f in files && f.name == g;
        assert l in Defined(files) && l in Definitions(symbols);
      } else if db.FindFileContainingSymbol(l).Some? {
        ReachedIsLoaded(db, height, files, proto.name, db.FindFileContainingSymbol(l).value.name);
      }
    }
  }

  // ----- The pool --------------------------------------------------------------

  class DescriptorPool {
    const fallback: Option<Database>
    ghost const height: string -> nat
    var files: seq<FileProto>
    var symbols: SymbolTable
    var saved: seq<Contents>
    var pending: seq<string>
    var knownBadFiles: set<string>
    var knownBadSymbols: set<string>

    /** `height` is a witness that the imports of the database are acyclic, if they are. */
    constructor (fallback: Option<Database>, ghost height: string -> nat)
      requires fallback.Some? ==> fallback.value.Valid()
      ensures fallback.Some? && SoundDatabase(fallback.value, height) ==> Sound()
      ensures this.fallback == fallback && this.height == height && saved == [] && pending == [] && files == [] && symbols == map[]
      ensures Clean(files, symbols)
    {
      this.fallback, this.height := fallback, height;
      files, symbols, saved, pending := [], map[], [], [];
      knownBadFiles, knownBadSymbols := {}, {};
    }

    predicate HasDatabase()
    {
      fallback.Some? && fallback.value.Valid()
    }

    /** Nothing has gone wrong so far, with a database in which nothing can. */
    ghost predicate Healthy()
      reads this`files, this`symbols, this`knownBadFiles
    {
      fallback.Some? && GoodState(fallback.value, height, files, symbols) && knownBadFiles == {}
    }

    /** The files being loaded are all above this one. */
    ghost predicate Below(name: string)
      reads this`pending
    {
      forall p :: p in pending ==> height(name) < height(p)
    }

    /** The database files that are neither loaded nor being loaded: every nested
        load leaves fewer. */
    ghost function Left(): set<string>
      reads this
    {
      (if fallback.Some? then fallback.value.files.Keys else {}) - (set p | p in pending) - Names(files)
    }

    /** What every operation does, failed ones included. */
    twostate predicate OnlyGrows()
      reads this
    {
      && old(files) <= files
      && (forall name :: name in old(symbols) ==> name in symbols && symbols[name] == old(symbols[name]))
      && saved == old(saved) && pending == old(pending)
      && (forall p :: p in pending && p !in old(Names(files)) ==> p !in Names(files))
      && (old(Clean(files, symbols)) ==> Clean(files, symbols))
    }

    // ----- Transactions --------------------------------------------------------

    method AddCheckpoint()
      modifies this`saved
      ensures saved == old(saved) + [Contents(files, symbols)]
    {
      saved := saved + [Contents(files, symbols)];
    }

    method ClearLastCheckpoint()
      requires saved != []
      modifies this`saved
      ensures saved == old(saved[..|saved| - 1])
    {
      saved := saved[..|saved| - 1];
    }

    method RollbackToLastCheckpoint()
      requires saved != []
      modifies this`files, this`symbols, this`saved
      ensures saved == old(saved[..|saved| - 1])
      ensures Contents(files, symbols) == old(saved[|saved| - 1])
    {
      files, symbols := saved[|saved| - 1].files, saved[|saved| - 1].symbols;
      saved := saved[..|saved| - 1];
    }

    method AddFile(file: FileProto) returns (ok: bool)
      modifies this`files
      ensures ok <==> file.name !in Names(old(files))
      ensures files == if ok then old(files) + [file] else old(files)
      ensures ok ==> Names(files) == Names(old(files)) + {file.name} && Left() == old(Left()) - {file.name}
    {
      if FindFile(files, file.name) >= 0 { return false; }
      files := files + [file];
      assert Names(files) == Names(old(files)) + {file.name};
      return true;
    }

    // ----- Symbols -------------------------------------------------------------

    method AddSymbol(name: string, symbol: Symbol) returns (ok: bool)
      modifies this`symbols
      ensures ok <==> name !in old(symbols)
      ensures symbols == if ok then old(symbols)[name := symbol] else old(symbols)
    {
      if name in symbols { return false; }
      symbols := symbols[name := symbol];
      return true;
    }

    /** Adds the child before its parent and stops at the first package that exists,
        yet leaves no package without its prefixes unless it reports an error. */
    method AddPackage(name: string, file: string) returns (ok: bool)
      modifies this`symbols
      ensures forall n :: n in old(symbols) ==> n in symbols && symbols[n] == old(symbols[n])
      ensures forall n :: n in symbols && n !in old(symbols) ==> symbols[n] == Package(file) && n in Prefixes(name)
      ensures ValidPackage(name) && old(Fits(name, symbols)) ==> ok
      ensures ok && old(ClosedExcept(symbols, Some(name))) ==> ClosedExcept(symbols, None) && IsPackage(symbols, name)
      ensures ok && old(PrefixesOk(symbols, name)) ==> ValidPackage(name)
      decreases |name|
    {
      if LastDot(name) >= 0 { PrefixesAreShorter(name[..LastDot(name)]); }
      var added := AddSymbol(name, Package(file));
      if added {
        var dot := LastDot(name);
        if dot < 0 {
          ok := IsIdentifier(name);
        } else {
          ok := AddPackage(name[..dot], file);
          ok := ok && IsIdentifier(name[dot + 1..]);
        }
      } else {
        ok := symbols[name].Package?;
      }
    }

    // ----- Building a file -----------------------------------------------------

    /** Checks each import: all must be loaded, none listed twice, none the file itself. */
    method LinkDependencies(proto: FileProto) returns (ok: bool, recursive: bool)
      requires files != [] && files[|files| - 1] == proto && proto.name !in Names(files[..|files| - 1])
      ensures ok && !recursive <==> NoDuplicates(proto.dependencies) && Imported(proto.dependencies, files[..|files| - 1])
      ensures recursive <==> proto.name in proto.dependencies
    {
      ok, recursive := true, false;
      var seen := {};
      for i := 0 to |proto.dependencies|
        invariant proto.name !in proto.dependencies[..i]
        invariant forall d :: d in seen <==> d in proto.dependencies[..i]
        invariant ok <==> NoDuplicates(proto.dependencies[..i]) && Imported(proto.dependencies[..i], files[..|files| - 1])
      {
        var name := proto.dependencies[i];
        if name in seen { ok := false; }
        seen := seen + {name};
        var dependency := FindFile(files, name);
        if dependency == |files| - 1 {
          assert name == proto.name && name in proto.dependencies;
          return ok, true;
        }
        if dependency < 0 {
          ok := false;
        } else {
          assert files[..|files| - 1][dependency] == files[dependency];
          assert name in Names(files[..|files| - 1]);
        }
        NoDuplicatesNext(proto.dependencies, i);
      }
    }

    method AddDefinitions(proto: FileProto) returns (ok: bool)
      modifies this`symbols
      ensures forall n :: n in old(symbols) ==> n in symbols && symbols[n] == old(symbols[n])
      ensures forall n :: n in symbols && n !in old(symbols) ==> n in proto.definitions && symbols[n] == Definition(proto.name)
      ensures forall n :: n in proto.definitions ==> n in symbols
      ensures ok <==> NoDuplicates(proto.definitions) && forall n :: n in proto.definitions ==> n !in old(symbols)
    {
      ok := true;
      for i := 0 to |proto.definitions|
        invariant forall n :: n in old(symbols) ==> n in symbols && symbols[n] == old(symbols[n])
        invariant forall n :: n in symbols && n !in old(symbols) ==> n in proto.definitions[..i] && symbols[n] == Definition(proto.name)
        invariant forall n :: n in proto.definitions[..i] ==> n in symbols
        invariant ok <==> NoDuplicates(proto.definitions[..i]) && forall n :: n in proto.definitions[..i] ==> n !in old(symbols)
      {
        NoDuplicatesNext(proto.definitions, i);
        var added := AddSymbol(proto.definitions[i], Definition(proto.name));
        ok := ok && added;
      }
    }

    /** BuildFile: loads the imports before opening a transaction. */
    method BuildFile(proto: FileProto) returns (built: bool)
      requires fallback.Some? ==> HasDatabase() && fallback.value.FindFileByName(proto.name) == Some(proto)
      requires fallback.Some? ==> proto.name !in Names(files)
      modifies this
      ensures OnlyGrows() && (built ==> proto.name in Names(files))
      ensures fallback.None? && (!built || proto.name in old(Names(files))) ==> files == old(files) && symbols == old(symbols)
      ensures fallback.None? && built && proto.name !in old(Names(files)) ==> files == old(files) + [proto]
      ensures fallback.None? && built && proto.name !in old(Names(files)) && old(Clean(files, symbols)) ==>
        old(Addable(proto, files, symbols)) && AddedBy(proto, old(symbols), symbols)
      ensures old(pending == [] && CanAdd(proto)) ==> built
      ensures old(Healthy() && Below(proto.name)) ==> built && Healthy()
      decreases Left(), 6
    {
      if proto.name in Names(files) {
        // ExistingFileMatchesProto compares serialized forms.
        var matches: bool := *;
        if matches { return true; }
      }
      for i := 0 to |pending|
        invariant proto.name !in pending[..i]
      {
        assert pending[i] in pending;
        if pending[i] == proto.name { return false; }
      }
      if fallback.Some? {
        LoadImports(proto);
      }
      built := BuildFileImpl(proto);
    }

    method LoadImports(proto: FileProto)
      requires HasDatabase() && fallback.value.FindFileByName(proto.name) == Some(proto)
      requires proto.name !in Names(files) && proto.name !in pending
      modifies this
      ensures OnlyGrows() && proto.name !in Names(files)
      ensures old(Healthy() && Below(proto.name)) ==> Healthy() && Imported(proto.dependencies, files)
      decreases Left(), 5
    {
      ghost var left := Left();
      if Healthy() && Below(proto.name) { ImportsAreLoadable(proto, pending + [proto.name]); }
      pending := pending + [proto.name];
      assert proto.name in left && proto.name !in Left();
      LoadDependencies(proto.dependencies);
      pending := pending[..|pending| - 1];
    }

    /** In a sound database, imports are below everything that is being loaded. */
    lemma ImportsAreLoadable(proto: FileProto, pending': seq<string>)
      requires Healthy() && Below(proto.name) && fallback.value.FindFileByName(proto.name) == Some(proto)
      requires pending' == pending + [proto.name]
      ensures forall d, p :: d in proto.dependencies && p in pending' ==> d in fallback.value.files && height(d) < height(p)
    {
      assert SoundFile(fallback.value, height, proto);
    }

    ghost predicate Loadable(dependencies: seq<string>)
      reads this`pending
    {
      fallback.Some? && forall d :: d in dependencies ==> d in fallback.value.files && Below(d)
    }

    method LoadDependencies(dependencies: seq<string>)
      requires HasDatabase()
      modifies this
      ensures OnlyGrows()
      ensures old(Healthy() && Loadable(dependencies)) ==> Healthy() && Imported(dependencies, files)
      decreases Left(), 10
    {
      ghost var expected := Healthy() && Loadable(dependencies);
      for i := 0 to |dependencies|
        invariant OnlyGrows()
        invariant expected ==> Healthy() && Imported(dependencies[..i], files)
      {
        assert expected ==> Loadable([dependencies[i]]);
        ghost var before := files;
        LoadDependency(dependencies[i]);
        if expected { ImportedNext(dependencies, i, before, files); }
      }
      assert dependencies[..|dependencies|] == dependencies;
    }

    method LoadDependency(name: string)
      requires HasDatabase()
      modifies this
      ensures OnlyGrows() && Names(old(files)) <= Names(files)
      ensures old(Healthy() && Loadable([name])) ==> Healthy() && name in Names(files)
      decreases Left(), 9
    {
      if FindFile(files, name) < 0 {
        var ignored := TryFindFileInFallbackDatabase(name);
      }
      NamesGrow(old(files), files);
    }

    method TryFindFileInFallbackDatabase(name: string) returns (found: bool)
      requires fallback.Some? ==> HasDatabase() && name !in Names(files)
      modifies this
      ensures OnlyGrows() && (found ==> name in Names(files))
      ensures old(Healthy() && Loadable([name])) ==> found && Healthy()
      ensures fallback.Some? && name !in fallback.value.files ==>
        !found && files == old(files) && symbols == old(symbols)
      ensures fallback.Some? && !found ==> name in knownBadFiles
      decreases Left(), 8
    {
      if fallback.None? { return false; }
      if name in knownBadFiles { return false; }
      var proto := fallback.value.FindFileByName(name);
      found := false;
      if proto.Some? {
        found := BuildFileFromDatabase(proto.value);
      }
      if !found { knownBadFiles := knownBadFiles + {name}; }
    }

    method BuildFileFromDatabase(proto: FileProto) returns (built: bool)
      requires HasDatabase() && fallback.value.FindFileByName(proto.name) == Some(proto)
      requires proto.name !in Names(files)
      modifies this
      ensures OnlyGrows() && (built ==> proto.name in Names(files))
      ensures !built ==> proto.name in knownBadFiles
      ensures old(Healthy() && Below(proto.name)) ==> built && Healthy()
      decreases Left(), 7
    {
      if proto.name in knownBadFiles { return false; }
      built := BuildFile(proto);
      if !built { knownBadFiles := knownBadFiles + {proto.name}; }
    }

    /** One transaction: the file and everything it brings in, or nothing. */
    method BuildFileImpl(proto: FileProto) returns (built: bool)
      requires fallback.Some? ==> HasDatabase() && fallback.value.FindFileByName(proto.name) == Some(proto)
      requires proto.name !in pending
      modifies this
      ensures OnlyGrows() && (built ==> proto.name in Names(files))
      ensures if built then old(files) + [proto] <= files else files == old(files) && symbols == old(symbols)
      ensures built ==> proto.name !in old(Names(files))
      ensures built && old(Clean(files, symbols)) ==> old(Addable(proto, files, symbols))
      ensures fallback.None? && built ==> files == old(files) + [proto]
      ensures fallback.None? && built && old(Clean(files, symbols)) ==> AddedBy(proto, old(symbols), symbols)
      ensures old(CanAdd(proto)) ==> built
      ensures old(Healthy() && Imported(proto.dependencies, files) && proto.name !in Names(files)) ==> built && Healthy()
      decreases Left(), 5
    {
      ghost var fits := CanAdd(proto);
      ghost var expected := Healthy() && Imported(proto.dependencies, files) && proto.name !in Names(files);
      AddCheckpoint();
      var added := AddFile(proto);
      if !added {
        RollbackToLastCheckpoint();
        return false;
      }
      if expected { ExpectedAfterAdd(old(files), proto); }
      if fits { AloneAfterAdd(old(files), proto); }
      built := Commit(proto, old(files));
    }

    /** There is no database, and the file fits what is there. */
    ghost predicate CanAdd(proto: FileProto)
      reads this`files, this`symbols
    {
      fallback.None? && proto.sound && proto.name !in Names(files) && Clean(files, symbols) && Addable(proto, files, symbols)
    }

    lemma AloneAfterAdd(before: seq<FileProto>, proto: FileProto)
      requires fallback.None? && proto.sound && Clean(before, symbols) && Addable(proto, before, symbols)
      requires files == before + [proto]
      ensures Alone(proto)
    {
      assert files[..|files| - 1] == before;
    }

    lemma ExpectedAfterAdd(before: seq<FileProto>, proto: FileProto)
      requires fallback.Some? && knownBadFiles == {} && GoodState(fallback.value, height, before, symbols)
      requires fallback.value.FindFileByName(proto.name) == Some(proto)
      requires files == before + [proto] && Imported(proto.dependencies, before) && proto.name !in Names(before)
      ensures Expected(proto)
    {
      assert files[..|files| - 1] == before;
    }

    /** Adds the rest of the file, and closes or rolls back the transaction. */
    method Commit(proto: FileProto, ghost before: seq<FileProto>) returns (built: bool)
      requires fallback.Some? ==> HasDatabase()
      requires files == before + [proto] && proto.name !in Names(before)
      requires saved != [] && saved[|saved| - 1] == Contents(before, symbols)
      modifies this
      ensures saved == old(saved[..|saved| - 1]) && pending == old(pending)
      ensures if built then before + [proto] <= files else files == before && symbols == old(symbols)
      ensures forall p :: p in pending && p !in old(Names(files)) ==> p !in Names(files)
      ensures forall name :: name in old(symbols) ==> name in symbols && symbols[name] == old(symbols[name])
      ensures built && Clean(before, old(symbols)) ==> Clean(files, symbols) && Addable(proto, before, old(symbols))
      ensures fallback.None? && built ==> files == before + [proto]
      ensures fallback.None? && built && Clean(before, old(symbols)) ==> AddedBy(proto, old(symbols), symbols)
      ensures old(Alone(proto)) ==> built
      ensures old(Expected(proto)) ==> built && Healthy()
      decreases Left(), if fallback.None? then 4 else 12
    {
      assert files[..|files| - 1] == before;
      built := AddContents(proto);
      if !built {
        RollbackToLastCheckpoint();
        NamesGrow(files, old(files));
      } else {
        ClearLastCheckpoint();
      }
    }

    /** The part of BuildFileImpl that can go wrong. */
    method AddContents(proto: FileProto) returns (ok: bool)
      requires fallback.Some? ==> HasDatabase()
      requires files != [] && files[|files| - 1] == proto && proto.name !in Names(files[..|files| - 1])
      modifies this
      ensures old(files) <= files && saved == old(saved) && pending == old(pending)
      ensures forall p :: p in pending && p !in old(Names(files)) ==> p !in Names(files)
      ensures forall name :: name in old(symbols) ==> name in symbols && symbols[name] == old(symbols[name])
      ensures ok && old(Clean(files[..|files| - 1], symbols)) ==>
        Clean(files, symbols) && old(Addable(proto, files[..|files| - 1], symbols))
      ensures fallback.None? ==> files == old(files)
      ensures fallback.None? && ok && old(Clean(files[..|files| - 1], symbols)) ==> AddedBy(proto, old(symbols), symbols)
      ensures old(Alone(proto)) ==> ok
      ensures old(Expected(proto)) ==> ok && Healthy()
      decreases Left(), if fallback.None? then 3 else 11
    {
      var abandoned;
      ok, abandoned := AddOwnFirst(proto);
      if abandoned { return false; }
      ok := LinkAndCheck(proto, ok);
    }

    /** The state in which cross-linking starts. */
    method AddOwnFirst(proto: FileProto) returns (ok: bool, abandoned: bool)
      requires files != [] && files[|files| - 1] == proto && proto.name !in Names(files[..|files| - 1])
      modifies this`symbols
      ensures forall name :: name in old(symbols) ==> name in symbols && symbols[name] == old(symbols[name])
      ensures ok && !abandoned && old(Clean(files[..|files| - 1], symbols)) ==>
        Clean(files, symbols) && old(Addable(proto, files[..|files| - 1], symbols)) && AddedBy(proto, old(symbols), symbols)
      ensures old(Alone(proto)) ==> ok && !abandoned && proto.sound
      ensures old(Expected(proto)) ==> ok && !abandoned && proto.sound && Healthy() && AllQuiet(proto.lookups)
    {
      if Expected(proto) { ExpectedFits(proto); }
      ok, abandoned := AddOwn(proto);
      if old(Expected(proto)) { ExpectedHolds(proto, old(symbols)); }
    }

    /** What follows once the file's own parts are in the tables. */
    method LinkAndCheck(proto: FileProto, before: bool) returns (ok: bool)
      requires fallback.Some? ==> HasDatabase()
      modifies this
      ensures OnlyGrows() && (ok ==> before) && (before && proto.sound ==> ok)
      ensures old(AllQuiet(proto.lookups)) ==>
        files == old(files) && symbols == old(symbols) && knownBadFiles == old(knownBadFiles)
      ensures fallback.None? ==> files == old(files) && symbols == old(symbols)
      decreases Left(), if fallback.None? then 2 else 10
    {
      CrossLink(proto.lookups);
      // Type linking, options and proto3 validation.
      var error: bool := *;
      ok := before && (proto.sound || !error);
    }

    /** There is no database, and the last file fits what was there before it. */
    ghost predicate Alone(proto: FileProto)
      reads this`files, this`symbols
    {
      fallback.None? && files != [] && proto.sound && Clean(files[..|files| - 1], symbols)
      && Addable(proto, files[..|files| - 1], symbols)
    }

    /** The last file is one that cannot fail, and nothing before it failed. */
    ghost predicate Expected(proto: FileProto)
      reads this`files, this`symbols, this`knownBadFiles
    {
      && fallback.Some? && knownBadFiles == {} && files != [] && files[|files| - 1] == proto
      && GoodState(fallback.value, height, files[..|files| - 1], symbols)
      && proto.name in fallback.value.files && fallback.value.files[proto.name] == proto
      && proto.name !in Names(files[..|files| - 1])
      && Imported(proto.dependencies, files[..|files| - 1])
    }

    lemma ExpectedFits(proto: FileProto)
      requires Expected(proto)
      ensures Addable(proto, files[..|files| - 1], symbols) && ClosedExcept(symbols, None)
    {
      SoundIsAddable(fallback.value, height, proto, files[..|files| - 1], symbols);
    }

    /** Cross-linking such a file will load nothing. */
    lemma ExpectedHolds(proto: FileProto, before: SymbolTable)
      requires fallback.Some? && knownBadFiles == {} && files != [] && files[|files| - 1] == proto
      requires GoodState(fallback.value, height, files[..|files| - 1], before)
      requires proto.name in fallback.value.files && fallback.value.files[proto.name] == proto
      requires Imported(proto.dependencies, files[..|files| - 1])
      requires AddedBy(proto, before, symbols) && ClosedExcept(symbols, None)
      ensures Healthy() && proto.sound
      ensures forall l :: l in proto.lookups ==> Quiet(fallback.value, files, symbols, l)
    {
      GoodWithFile(fallback.value, height, files, before, symbols);
      assert SoundFile(fallback.value, height, proto) && proto in files;
      LookupsAreQuiet(fallback.value, height, proto, files, symbols);
    }

    /** The file's own package, imports and definitions. A file that imports itself is
        given up at once; other errors are collected. */
    method AddOwn(proto: FileProto) returns (ok: bool, abandoned: bool)
      requires files != [] && files[|files| - 1] == proto && proto.name !in Names(files[..|files| - 1])
      modifies this`symbols
      ensures forall name :: name in old(symbols) ==> name in symbols && symbols[name] == old(symbols[name])
      ensures ok && !abandoned && Clean(files[..|files| - 1], old(symbols)) ==>
        Clean(files, symbols) && Addable(proto, files[..|files| - 1], old(symbols)) && AddedBy(proto, old(symbols), symbols)
      ensures Addable(proto, files[..|files| - 1], old(symbols)) && ClosedExcept(old(symbols), None) ==>
        ok && !abandoned && AddedBy(proto, old(symbols), symbols) && ClosedExcept(symbols, None)
    {
      ghost var packaged;
      ok, abandoned, packaged := AddParts(proto);
      if ok && !abandoned { OwnParts(files, old(symbols), packaged, symbols); }
    }

    method AddParts(proto: FileProto) returns (ok: bool, abandoned: bool, ghost packaged: SymbolTable)
      requires files != [] && files[|files| - 1] == proto && proto.name !in Names(files[..|files| - 1])
      modifies this`symbols
      ensures forall name :: name in old(symbols) ==> name in symbols && symbols[name] == old(symbols[name])
      ensures ok && !abandoned ==> PartsAdded(proto, files[..|files| - 1], old(symbols), packaged, symbols)
      ensures Addable(proto, files[..|files| - 1], old(symbols)) ==> ok && !abandoned
    {
      ok := AddOwnPackage(proto);
      packaged := symbols;
      var linked;
      linked, abandoned := LinkDependencies(proto);
      if abandoned { return; }
      var defined := AddOwnDefinitions(proto);
      ok := ok && linked && defined;
    }

    method AddOwnPackage(proto: FileProto) returns (ok: bool)
      modifies this`symbols
      ensures forall n :: n in old(symbols) ==> n in symbols && symbols[n] == old(symbols[n])
      ensures forall n :: n in symbols && n !in old(symbols) ==> n in Packages(proto) && symbols[n] == Package(proto.name)
      ensures ok && old(PrefixesOk(symbols, proto.package)) ==> proto.package == "" || ValidPackage(proto.package)
      ensures ok && old(ClosedExcept(symbols, None)) ==>
        ClosedExcept(symbols, None) && forall n :: n in Packages(proto) ==> IsPackage(symbols, n)
      ensures proto.package == "" || (ValidPackage(proto.package) && old(Fits(proto.package, symbols))) ==> ok
    {
      ok := true;
      if proto.package != "" {
        ok := AddPackage(proto.package, proto.name);
        if ok && old(ClosedExcept(symbols, None)) {
          PrefixesArePackages(symbols, proto.package);
        }
      }
    }

    method AddOwnDefinitions(proto: FileProto) returns (ok: bool)
      modifies this`symbols
      ensures forall n :: n in old(symbols) ==> n in symbols && symbols[n] == old(symbols[n])
      ensures forall n :: n in symbols && n !in old(symbols) ==> n in proto.definitions && symbols[n] == Definition(proto.name)
      ensures forall n :: n in proto.definitions ==> n in symbols
      ensures ok <==> NoDuplicates(proto.definitions) && forall n :: n in proto.definitions ==> n !in old(symbols)
      ensures old(ClosedExcept(symbols, None)) ==> ClosedExcept(symbols, None)
    {
      ok := AddDefinitions(proto);
      if old(ClosedExcept(symbols, None)) { DefinitionsKeepClosed(old(symbols), symbols); }
    }

    ghost predicate AllQuiet(lookups: seq<string>)
      reads this`files, this`symbols
    {
      fallback.Some? && forall l :: l in lookups ==> Quiet(fallback.value, files, symbols, l)
    }

    /** Cross-linking asks for symbols, skipping some depending on what it found, and
        may re-enter the loader for each. */
    method CrossLink(lookups: seq<string>)
      requires fallback.Some? ==> HasDatabase()
      modifies this
      ensures OnlyGrows()
      ensures old(AllQuiet(lookups)) ==>
        files == old(files) && symbols == old(symbols) && knownBadFiles == old(knownBadFiles)
      ensures fallback.None? ==> files == old(files) && symbols == old(symbols)
      decreases Left(), if fallback.None? then 1 else 9
    {
      for i := 0 to |lookups|
        invariant OnlyGrows()
        invariant old(AllQuiet(lookups)) ==>
          files == old(files) && symbols == old(symbols) && knownBadFiles == old(knownBadFiles)
        invariant fallback.None? ==> files == old(files) && symbols == old(symbols)
      {
        assert lookups[i] in lookups;
        var wanted: bool := *;
        if wanted && lookups[i] !in symbols {
          var ignored := TryFindSymbolInFallbackDatabase(lookups[i]);
        }
      }
    }

    method IsSubSymbolOfBuiltType(name: string) returns (r: bool)
      ensures r <==> exists i :: 0 <= i < |name| && name[i] == '.' && name[..i] in symbols && symbols[name[..i]].Definition?
    {
      var prefix := name;
      while true
        invariant prefix <= name && (prefix == name || name[|prefix|] == '.')
        invariant forall i :: |prefix| <= i < |name| && name[i] == '.' ==>
          !(name[..i] in symbols && symbols[name[..i]].Definition?)
        decreases |prefix|
      {
        var dot := LastDot(prefix);
        if dot < 0 { return false; }
        prefix := prefix[..dot];
        assert prefix == name[..dot];
        if prefix in symbols && symbols[prefix].Definition? { return true; }
      }
    }

    /** Not there yet, not known to be bad, and the database knows where it is. */
    ghost predicate Findable(name: string)
      reads this`symbols, this`knownBadSymbols
    {
      fallback.Some? && name !in symbols && name !in knownBadSymbols && Locates(fallback.value, name)
    }

    method TryFindSymbolInFallbackDatabase(name: string) returns (found: bool)
      requires fallback.Some? ==> HasDatabase()
      modifies this
      ensures OnlyGrows()
      ensures old(fallback.Some? && NothingToLoad(fallback.value, files, name)) ==>
        files == old(files) && symbols == old(symbols) && knownBadFiles == old(knownBadFiles)
      ensures found ==> fallback.Some? && fallback.value.FindFileContainingSymbol(name).Some?
                        && NothingToLoad(fallback.value, files, name)
      ensures fallback.None? ==> files == old(files) && symbols == old(symbols)
      ensures fallback.Some? && !found ==> name in knownBadSymbols
      ensures old(Healthy() && pending == []) ==> Healthy()
      ensures old(Healthy() && pending == [] && Findable(name)) ==> found
      decreases Left(), if fallback.None? then 0 else 8
    {
      if fallback.None? { return false; }
      if name in knownBadSymbols { return false; }
      if Healthy() && Findable(name) {
        LocatedIsLoadable(fallback.value, height, files, symbols, name);
      }
      var builtType := IsSubSymbolOfBuiltType(name);
      var proto := fallback.value.FindFileContainingSymbol(name);
      found := false;
      if !builtType && proto.Some? && FindFile(files, proto.value.name) < 0 {
        found := BuildFileFromDatabase(proto.value);
      }
      if !found { knownBadSymbols := knownBadSymbols + {name}; }
    }

    // ----- The public operations -----------------------------------------------

    /** What callers see between operations: no open transaction, and everything
        loaded is closed under imports, acyclic and in topological order, with every
        package's prefixes present. */
    ghost predicate Ready()
      reads this
    {
      saved == [] && pending == [] && Clean(files, symbols) && (fallback.Some? ==> HasDatabase())
    }

    /** A sound database, and a pool that holds exactly what its files declare. */
    ghost predicate Sound()
      reads this`files, this`symbols
    {
      fallback.Some? && GoodState(fallback.value, height, files, symbols)
    }

    method FindFileByName(name: string) returns (found: bool)
      requires Ready()
      modifies this
      ensures Ready() && OnlyGrows() && (found ==> name in Names(files))
      ensures old(Sound()) ==> Sound() && (found <==> name in fallback.value.files)
      ensures old(name in Names(files)) ==> found && files == old(files) && symbols == old(symbols)
    {
      knownBadSymbols, knownBadFiles := {}, {};
      if FindFile(files, name) >= 0 { return true; }
      found := TryFindFileInFallbackDatabase(name);
    }

    method FindSymbolByName(name: string) returns (result: Option<Symbol>)
      requires Ready()
      modifies this
      ensures Ready() && OnlyGrows()
      ensures result.Some? ==> name in symbols && result.value == symbols[name]
      ensures result.Some? ==> exists f :: f in files && f.name == result.value.file && (name in f.definitions || name in Packages(f))
      ensures old(Sound()) ==> Sound() && (Locates(fallback.value, name) ==> result.Some?)
      ensures old(name in symbols) ==> result.Some? && files == old(files) && symbols == old(symbols)
    {
      knownBadSymbols, knownBadFiles := {}, {};
      if name in symbols {
        assert DeclaredBy(files, name, symbols[name]);
        return Some(symbols[name]);
      }
      var loaded := TryFindSymbolInFallbackDatabase(name);
      if loaded && old(Sound()) && Locates(fallback.value, name) && name !in symbols {
        LocatedIsLoadable(fallback.value, height, files, symbols, name);
      }
      assert name in symbols ==> DeclaredBy(files, name, symbols[name]);
      result := if loaded && name in symbols then Some(symbols[name]) else None;
    }

    /** Only for a pool without a database. A new file is built only if its imports are
        there and not repeated, nothing it defines is there or defined twice, and its
        package is legal and clashes with nothing; if it has no error of its own it is then
        built. What is added is the file, and exactly its packages and definitions. */
    method BuildFileDirectly(proto: FileProto) returns (built: bool)
      requires Ready() && fallback.None?
      modifies this
      ensures Ready() && OnlyGrows() && (built ==> proto.name in Names(files))
      ensures !built || proto.name in old(Names(files)) ==> files == old(files) && symbols == old(symbols)
      ensures built && proto.name !in old(Names(files)) ==> files == old(files) + [proto] && AddedBy(proto, old(symbols), symbols)
      ensures built && proto.name !in old(Names(files)) ==>
        && (forall d :: d in proto.dependencies ==> d in old(Names(files)))
        && (forall i, j :: 0 <= i < j < |proto.dependencies| ==> proto.dependencies[i] != proto.dependencies[j])
        && (forall i, j :: 0 <= i < j < |proto.definitions| ==> proto.definitions[i] != proto.definitions[j])
        && (forall n :: n in proto.definitions ==> n !in old(symbols))
        && (proto.package == "" || ValidPackage(proto.package))
      ensures proto.sound && proto.name !in old(Names(files)) && old(Addable(proto, files, symbols)) ==> built
    {
      knownBadSymbols, knownBadFiles := {}, {};
      built := BuildFile(proto);
    }
  }
}
