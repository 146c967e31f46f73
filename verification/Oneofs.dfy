/** The last part of CrossLinkMessage: three passes that give each oneof the array
    of its fields. */
module Oneofs {

  class OneofDescriptor {
    var fieldCount: nat
    var fields: array<nat>

    constructor ()
      ensures fieldCount == 0
    {
      fieldCount := 0;
      fields := new nat[0];
    }

    /** Room for the fields counted, and the count starts again. */
    method Allocate() returns (ok: bool)
      modifies this
      ensures fresh(fields) && fields.Length == old(fieldCount) && fieldCount == 0
      ensures ok <==> old(fieldCount) != 0
    {
      ok := fieldCount != 0;
      fields := new nat[fieldCount];
      fieldCount := 0;
    }
  }

  // ----- The specification -----------------------------------------------------

  /** The fields of oneof `o` among the first `n`, in declaration order; `containing`
      gives each field's oneof, -1 for none. */
  function Members(containing: seq<int>, o: int, n: nat): seq<nat>
    requires n <= |containing|
  {
    if n == 0 then []
    else if containing[n - 1] == o then Members(containing, o, n - 1) + [n - 1]
    else Members(containing, o, n - 1)
  }

  /** Any field between two fields of the oneof is in it too. */
  predicate Contiguous(containing: seq<int>, o: int, n: nat)
    requires n <= |containing|
  {
    forall i, j, k :: 0 <= i < j < k < n && containing[i] == o && containing[k] == o ==> containing[j] == o
  }

  /** What the count pass complains of at field `i`: not the first of its oneof, and
      the field before it is not in the oneof. */
  predicate Breaks(containing: seq<int>, i: nat)
    requires i < |containing|
  {
    containing[i] >= 0 && |Members(containing, containing[i], i)| > 0 && containing[i - 1] != containing[i]
  }

  lemma {:induction false} MembersAre(containing: seq<int>, o: int, n: nat)
    requires n <= |containing|
    ensures forall i :: i in Members(containing, o, n) <==> 0 <= i < n && containing[i] == o
    ensures forall a, b :: 0 <= a < b < |Members(containing, o, n)| ==>
      Members(containing, o, n)[a] < Members(containing, o, n)[b]
  {
    if n > 0 {
      MembersAre(containing, o, n - 1);
      var others := Members(containing, o, n - 1);
      assert forall a :: 0 <= a < |others| ==> others[a] in others;
    }
  }

  lemma {:induction false} MembersGrow(containing: seq<int>, o: int, i: nat, n: nat)
    requires i <= n <= |containing|
    ensures Members(containing, o, i) <= Members(containing, o, n)
  {
    if i < n { MembersGrow(containing, o, i, n - 1); }
  }

  /** A field's place: the number of fields of its oneof before it. */
  lemma PlaceOf(containing: seq<int>, i: nat)
    requires i < |containing|
    ensures var all := Members(containing, containing[i], |containing|);
            var place := |Members(containing, containing[i], i)|;
            place < |all| && all[place] == i
  {
    MembersGrow(containing, containing[i], i + 1, |containing|);
  }

  /** One more field breaks a run exactly when it breaks the run of its own oneof. */
  lemma NextField(containing: seq<int>, n: nat, p: int)
    requires n < |containing| && p >= 0
    ensures !Contiguous(containing, p, n + 1) <==>
            !Contiguous(containing, p, n) || (p == containing[n] && Breaks(containing, n))
  {
    MembersAre(containing, p, n);
    if p == containing[n] && Breaks(containing, n) {
      var i := Members(containing, p, n)[0];
      assert i in Members(containing, p, n);
      assert containing[i] == p && containing[n] == p && containing[n - 1] != p;
    }
    if !Contiguous(containing, p, n + 1) && Contiguous(containing, p, n) {
      var i, j, k :| 0 <= i < j < k < n + 1 && containing[i] == p && containing[k] == p && containing[j] != p;
      assert k == n && i in Members(containing, p, n);
    }
  }

  /** The one check per field finds every oneof that is not one run, and no other. */
  lemma {:induction false} BreaksMeansNotContiguous(containing: seq<int>, n: nat)
    requires n <= |containing|
    ensures (exists i :: 0 <= i < n && Breaks(containing, i)) <==> exists o :: o >= 0 && !Contiguous(containing, o, n)
  {
    if n > 0 {
      BreaksMeansNotContiguous(containing, n - 1);
      if i :| 0 <= i < n && Breaks(containing, i) {
        if i < n - 1 {
          var o :| o >= 0 && !Contiguous(containing, o, n - 1);
          NextField(containing, n - 1, o);
        } else {
          NextField(containing, n - 1, containing[n - 1]);
        }
      }
      if o :| o >= 0 && !Contiguous(containing, o, n) {
        NextField(containing, n - 1, o);
      }
    }
  }

  // ----- The message -----------------------------------------------------------

  class MessageDescriptor {
    const containing: seq<int>
    const oneofDecls: seq<OneofDescriptor>
    const indexInOneof: array<nat>

    constructor (containing: seq<int>, oneofDecls: seq<OneofDescriptor>)
      ensures this.containing == containing && this.oneofDecls == oneofDecls
      ensures fresh(indexInOneof) && indexInOneof.Length == |containing|
    {
      this.containing, this.oneofDecls := containing, oneofDecls;
      indexInOneof := new nat[|containing|];
    }

    ghost predicate Valid()
    {
      && indexInOneof.Length == |containing|
      && (forall i :: 0 <= i < |containing| ==> -1 <= containing[i] < |oneofDecls|)
      && (forall o, p :: 0 <= o < p < |oneofDecls| ==> oneofDecls[o] != oneofDecls[p])
    }

    function Of(o: int, n: nat): seq<nat>
      requires n <= |containing|
    {
      Members(containing, o, n)
    }

    method CountFields() returns (ok: bool)
      requires Valid() && forall o :: 0 <= o < |oneofDecls| ==> oneofDecls[o].fieldCount == 0
      modifies oneofDecls
      ensures forall o :: 0 <= o < |oneofDecls| ==> oneofDecls[o].fieldCount == |Of(o, |containing|)|
      ensures ok <==> forall i :: 0 <= i < |containing| ==> !Breaks(containing, i)
    {
      ok := true;
      for i := 0 to |containing|
        invariant forall o :: 0 <= o < |oneofDecls| ==> oneofDecls[o].fieldCount == |Of(o, i)|
        invariant ok <==> forall j :: 0 <= j < i ==> !Breaks(containing, j)
      {
        assert Breaks(containing, i) <==>
          containing[i] >= 0 && oneofDecls[containing[i]].fieldCount > 0 && containing[i - 1] != containing[i];
        if containing[i] >= 0 {
          var decl := oneofDecls[containing[i]];
          if decl.fieldCount > 0 && containing[i - 1] != containing[i] { ok := false; }
          decl.fieldCount := decl.fieldCount + 1;
        }
      }
    }

    method AllocateFields() returns (ok: bool)
      requires Valid()
      requires forall o :: 0 <= o < |oneofDecls| ==> oneofDecls[o].fieldCount == |Of(o, |containing|)|
      modifies oneofDecls
      ensures Allocated()
      ensures forall o :: 0 <= o < |oneofDecls| ==> fresh(oneofDecls[o].fields) && oneofDecls[o].fieldCount == 0
      ensures ok <==> forall o :: 0 <= o < |oneofDecls| ==> Of(o, |containing|) != []
    {
      ok := true;
      for i := 0 to |oneofDecls|
        invariant forall o :: i <= o < |oneofDecls| ==> oneofDecls[o].fieldCount == |Of(o, |containing|)|
        invariant forall o :: 0 <= o < i ==> oneofDecls[o].fieldCount == 0 && fresh(oneofDecls[o].fields)
        invariant forall o :: 0 <= o < i ==> oneofDecls[o].fields.Length == |Of(o, |containing|)|
        invariant forall o, p :: 0 <= o < p < i ==> oneofDecls[o].fields != oneofDecls[p].fields
        invariant ok <==> forall o :: 0 <= o < i ==> Of(o, |containing|) != []
      {
        var some := oneofDecls[i].Allocate();
        ok := ok && some;
      }
    }

    /** Each oneof has its own array, of the right length. */
    ghost predicate Allocated()
      reads oneofDecls
    {
      && (forall o :: 0 <= o < |oneofDecls| ==>
            oneofDecls[o].fields.Length == |Of(o, |containing|)| && oneofDecls[o].fields != indexInOneof)
      && (forall o, p :: 0 <= o < p < |oneofDecls| ==> oneofDecls[o].fields != oneofDecls[p].fields)
    }

    /** Fields before `n` are in their places. */
    ghost predicate Placed(n: nat)
      requires n <= |containing|
      reads oneofDecls, indexInOneof, set o | 0 <= o < |oneofDecls| :: oneofDecls[o].fields
    {
      && indexInOneof.Length == |containing|
      && (forall i :: 0 <= i < |containing| ==> -1 <= containing[i] < |oneofDecls|)
      && forall j :: 0 <= j < n && containing[j] >= 0 ==> PlacedAt(j, oneofDecls[containing[j]].fields)
    }

    predicate PlacedAt(j: nat, fields: array<nat>)
      requires j < |containing| == indexInOneof.Length
      reads indexInOneof, fields
    {
      indexInOneof[j] == |Of(containing[j], j)| < fields.Length && fields[indexInOneof[j]] == j
    }

    ghost predicate Counted(n: nat)
      requires n <= |containing|
      reads oneofDecls
    {
      forall o :: 0 <= o < |oneofDecls| ==> oneofDecls[o].fieldCount == |Of(o, n)|
    }

    ghost predicate UsesOnly(arrays: set<array<nat>>)
      reads oneofDecls
    {
      forall o :: 0 <= o < |oneofDecls| ==> oneofDecls[o].fields in arrays
    }

    method FillFields(ghost arrays: set<array<nat>>)
      requires Valid() && Allocated() && Counted(0) && UsesOnly(arrays)
      modifies oneofDecls, indexInOneof, arrays
      ensures Allocated() && Placed(|containing|) && Counted(|containing|)
    {
      for i := 0 to |containing|
        invariant Allocated() && Placed(i) && Counted(i) && UsesOnly(arrays)
      {
        FillField(i, arrays);
      }
    }

    method FillField(i: nat, ghost arrays: set<array<nat>>)
      requires Valid() && Allocated() && UsesOnly(arrays)
      requires i < |containing| && Placed(i) && Counted(i)
      modifies oneofDecls, indexInOneof, arrays
      ensures Allocated() && Placed(i + 1) && Counted(i + 1) && UsesOnly(arrays)
    {
      if containing[i] >= 0 {
        PlaceOf(containing, i);
        var decl := oneofDecls[containing[i]];
        PlaceField(i, decl);
        decl.fieldCount := decl.fieldCount + 1;
      }
    }

    method PlaceField(i: nat, decl: OneofDescriptor)
      requires Valid() && Allocated() && i < |containing| && containing[i] >= 0 && decl == oneofDecls[containing[i]]
      requires decl.fieldCount == |Of(containing[i], i)| < decl.fields.Length
      requires Placed(i)
      modifies indexInOneof, decl.fields
      ensures Placed(i + 1)
    {
      indexInOneof[i] := decl.fieldCount;
      decl.fields[decl.fieldCount] := i;
      forall j | 0 <= j < i && containing[j] >= 0 ensures PlacedAt(j, oneofDecls[containing[j]].fields) {
        assert old(PlacedAt(j, oneofDecls[containing[j]].fields));
        if containing[j] == containing[i] {
          MembersGrow(containing, containing[i], j + 1, i);
        }
      }
    }

    /** With every field in its place, each array is the list of its oneof's fields. */
    lemma PlacedIsMembers(o: nat)
      requires Valid() && Allocated() && Placed(|containing|) && o < |oneofDecls|
      ensures oneofDecls[o].fields[..] == Of(o, |containing|)
    {
      var all := Of(o, |containing|);
      MembersAre(containing, o, |containing|);
      forall k | 0 <= k < |all| ensures oneofDecls[o].fields[k] == all[k] {
        var j := all[k];
        assert j in all;
        PlaceOf(containing, j);
        var place := |Of(o, j)|;
        assert all[place] == j;
        assert place == k;
        assert PlacedAt(j, oneofDecls[o].fields);
      }
    }

    /** Every oneof gets exactly its fields in declaration order, every field its place
        there; an error is raised exactly when a oneof is empty or not one run. */
    method LinkOneofs() returns (ok: bool)
      requires Valid() && forall o :: 0 <= o < |oneofDecls| ==> oneofDecls[o].fieldCount == 0
      modifies oneofDecls, indexInOneof
      ensures forall o :: 0 <= o < |oneofDecls| ==>
        oneofDecls[o].fieldCount == oneofDecls[o].fields.Length && oneofDecls[o].fields[..] == Of(o, |containing|)
      ensures forall i :: 0 <= i < |containing| && containing[i] >= 0 ==>
        indexInOneof[i] < oneofDecls[containing[i]].fieldCount
        && oneofDecls[containing[i]].fields[indexInOneof[i]] == i
      ensures ok <==> forall o :: 0 <= o < |oneofDecls| ==>
        Of(o, |containing|) != [] && Contiguous(containing, o, |containing|)
    {
      var consecutive := CountFields();
      var nonempty := AllocateFields();
      FillFields(set o | 0 <= o < |oneofDecls| :: oneofDecls[o].fields);
      forall o | 0 <= o < |oneofDecls| ensures oneofDecls[o].fields[..] == Of(o, |containing|) {
        PlacedIsMembers(o);
      }
      BreaksMeansNotContiguous(containing, |containing|);
      ok := consecutive && nonempty;
    }
  }
}
