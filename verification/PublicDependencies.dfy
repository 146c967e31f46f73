/** The files whose symbols a file may use: its imports, and whatever those import
    publicly, however indirectly. */
module PublicDependencies {

  /** A FileDescriptor, by address. */
  type File = nat

  /** A dependency that was not found or had errors is null. */
  datatype Pointer = Null | To(file: File)

  /** The public imports of each file: a finite graph, in which files may be shared
      and may even form cycles. */
  type Graph = map<File, seq<Pointer>>

  predicate WellFormed(g: Graph)
  {
    forall f :: f in g ==> PointsInto(g[f], g.Keys)
  }

  predicate PointsInto(pointers: seq<Pointer>, files: set<File>)
  {
    forall p :: p in pointers && p.To? ==> p.file in files
  }

  /** Everything a member of `some` imports publicly is in `all`. */
  predicate ImportsInto(g: Graph, some: set<File>, all: set<File>)
  {
    forall f :: f in some && f in g ==> PointsInto(g[f], all)
  }

  predicate Closed(g: Graph, files: set<File>)
  {
    ImportsInto(g, files, files)
  }

  /** The least set that holds the imports and is closed under public imports. */
  ghost predicate IsLeast(g: Graph, imports: seq<Pointer>, files: set<File>)
  {
    && PointsInto(imports, files) && Closed(g, files)
    && forall s: set<File> :: Closed(g, s) && PointsInto(imports, s) ==> files <= s
  }

  /** A chain of imports: the first direct, the others public. */
  predicate Chain(g: Graph, imports: seq<Pointer>, chain: seq<File>)
  {
    && chain != []
    && var last := |chain| - 1;
       if last == 0 then To(chain[0]) in imports
       else Chain(g, imports, chain[..last]) && PublicImport(g, chain[last - 1], chain[last])
  }

  predicate PublicImport(g: Graph, f: File, other: File)
  {
    f in g && To(other) in g[f]
  }

  lemma ReachesItsImports(g: Graph, imports: seq<Pointer>, f: File, other: File)
    requires Reachable(g, imports, f) && PublicImport(g, f, other)
    ensures Reachable(g, imports, other)
  {
    var chain :| Chain(g, imports, chain) && chain[|chain| - 1] == f;
    assert (chain + [other])[..|chain|] == chain;
    assert Chain(g, imports, chain + [other]);
  }

  ghost predicate Reachable(g: Graph, imports: seq<Pointer>, file: File)
  {
    exists chain :: Chain(g, imports, chain) && chain[|chain| - 1] == file
  }

  lemma {:induction false} ChainStaysInside(g: Graph, imports: seq<Pointer>, chain: seq<File>, files: set<File>)
    requires Chain(g, imports, chain) && PointsInto(imports, files) && Closed(g, files)
    ensures chain[|chain| - 1] in files
  {
    if |chain| > 1 {
      var last := |chain| - 1;
      ChainStaysInside(g, imports, chain[..last], files);
    } else {
      assert To(chain[0]) in imports;
    }
  }

  /** The least set is the set of files that chains of public imports reach. */
  lemma LeastIsReachable(g: Graph, imports: seq<Pointer>, files: set<File>)
    requires IsLeast(g, imports, files)
    ensures forall f :: f in files <==> Reachable(g, imports, f)
  {
    forall f | Reachable(g, imports, f) ensures f in files {
      var chain :| Chain(g, imports, chain) && chain[|chain| - 1] == f;
      ChainStaysInside(g, imports, chain, files);
    }
    var reached := set f | f in files && Reachable(g, imports, f);
    forall p | p in imports && p.To? ensures p.file in reached {
      assert Chain(g, imports, [p.file]);
      assert [p.file][0] == p.file;
    }
    forall f | f in reached && f in g ensures PointsInto(g[f], reached) {
      forall p | p in g[f] && p.To? ensures p.file in reached {
        ReachesItsImports(g, imports, f, p.file);
      }
    }
    assert Closed(g, reached);
  }

  class DescriptorBuilder {
    const graph: Graph
    var dependencies: set<File>

    constructor (graph: Graph)
      ensures this.graph == graph
    {
      this.graph := graph;
      dependencies := {};
    }

    /** Visits each file once. What it adds is needed, and all that the files it added
        import is there when it returns. */
    method RecordPublicDependencies(file: Pointer)
      requires WellFormed(graph) && dependencies <= graph.Keys && PointsInto([file], graph.Keys)
      modifies this
      ensures old(dependencies) <= dependencies <= graph.Keys && PointsInto([file], dependencies)
      ensures ImportsInto(graph, dependencies - old(dependencies), dependencies)
      ensures forall s: set<File> :: Closed(graph, s) && PointsInto([file], s) ==> dependencies - old(dependencies) <= s
      decreases graph.Keys - dependencies, 0
    {
      if file.Null? || file.file in dependencies { return; }
      assert file in [file];
      dependencies := dependencies + {file.file};
      var imports := graph[file.file];
      RecordAll(imports);
      assert forall s: set<File> :: Closed(graph, s) && PointsInto([file], s) ==> file.file in s && PointsInto(imports, s);
    }

    method RecordAll(imports: seq<Pointer>)
      requires WellFormed(graph) && dependencies <= graph.Keys && PointsInto(imports, graph.Keys)
      modifies this
      ensures old(dependencies) <= dependencies <= graph.Keys && PointsInto(imports, dependencies)
      ensures ImportsInto(graph, dependencies - old(dependencies), dependencies)
      ensures forall s: set<File> :: Closed(graph, s) && PointsInto(imports, s) ==> dependencies - old(dependencies) <= s
      decreases graph.Keys - dependencies, 1
    {
      for i := 0 to |imports|
        invariant old(dependencies) <= dependencies <= graph.Keys
        invariant PointsInto(imports[..i], dependencies)
        invariant ImportsInto(graph, dependencies - old(dependencies), dependencies)
        invariant forall s: set<File> :: Closed(graph, s) && PointsInto(imports, s) ==> dependencies - old(dependencies) <= s
      {
        RecordPublicDependencies(imports[i]);
        assert PointsInto(imports[..i + 1], dependencies) by {
          assert imports[..i + 1] == imports[..i] + [imports[i]];
        }
      }
    }

    method BuildDependencySet(imports: seq<Pointer>)
      requires WellFormed(graph) && PointsInto(imports, graph.Keys)
      modifies this
      ensures IsLeast(graph, imports, dependencies)
    {
      dependencies := {};
      RecordAll(imports);
      assert dependencies - {} == dependencies;
    }
  }
}
