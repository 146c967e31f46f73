/** The arena's cleanup list under concurrent pushes. AddListNode exchanges the head
    for its node and only then links the node to what it got, so between the two the
    list is broken; no push is in flight when CleanupList walks it. */
module CleanupProtocol {

  type NodeId = nat
  type Elem = nat

  /** A Node pointer; a new node's is not yet written. */
  datatype Link = Unset | Null | To(id: NodeId)

  datatype Node = Node(elem: Elem, next: Link)

  datatype Pc = Idle | Filled(node: NodeId) | Exchanged(node: NodeId, previous: Link)

  /** `order` records the nodes in the order of their exchanges. */
  datatype State = State(nodes: map<NodeId, Node>, head: Link, threads: seq<Pc>, order: seq<NodeId>)

  datatype Action =
    | Fill(t: nat, node: NodeId, elem: Elem)
    | Exchange(t: nat)
    | WriteNext(t: nat)
    | Cleanup(t: nat)

  predicate Quiescent(s: State)
  {
    forall t :: 0 <= t < |s.threads| ==> s.threads[t].Idle?
  }

  predicate Enabled(s: State, action: Action)
  {
    && action.t < |s.threads|
    && match action
       case Fill(t, node, _) => s.threads[t].Idle? && node !in s.nodes
       case Exchange(t) => s.threads[t].Filled?
       case WriteNext(t) => s.threads[t].Exchanged? && s.threads[t].node in s.nodes
       case Cleanup(_) => Quiescent(s)
  }

  function After(s: State, action: Action): State
    requires Enabled(s, action)
  {
    match action
    case Fill(t, node, elem) =>
      s.(nodes := s.nodes[node := Node(elem, Unset)], threads := s.threads[t := Filled(node)])
    case Exchange(t) =>
      var node := s.threads[t].node;
      s.(head := To(node), order := s.order + [node], threads := s.threads[t := Exchanged(node, s.head)])
    case WriteNext(t) =>
      var node := s.threads[t].node;
      s.(nodes := s.nodes[node := s.nodes[node].(next := s.threads[t].previous)], threads := s.threads[t := Idle])
    case Cleanup(_) => State(map[], Null, s.threads, [])
  }

  // ----- Invariant ---------------------------------------------------------------

  /** What node `k`, in exchange order, must come to point to. */
  function Before(order: seq<NodeId>, k: nat): Link
    requires k <= |order|
  {
    if k == 0 then Null else To(order[k - 1])
  }

  ghost predicate PcOk(s: State, pc: Pc)
  {
    match pc
    case Idle => true
    case Filled(node) => node in s.nodes && node !in s.order && s.nodes[node].next == Unset
    case Exchanged(node, previous) =>
      node in s.nodes && s.nodes[node].next == Unset
      && exists k :: 0 <= k < |s.order| && s.order[k] == node && previous == Before(s.order, k)
  }

  predicate SameNode(p: Pc, q: Pc)
  {
    !p.Idle? && !q.Idle? && p.node == q.node
  }

  /** Node `k` is linked, or a thread is about to link it. */
  ghost predicate NodeOk(s: State, k: nat)
    requires k < |s.order|
  {
    var node := s.order[k];
    && node in s.nodes
    && (s.nodes[node].next == Before(s.order, k) || exists t :: 0 <= t < |s.threads| && Pushing(s.threads[t], node))
  }

  predicate Pushing(pc: Pc, node: NodeId)
  {
    pc.Exchanged? && pc.node == node
  }

  ghost predicate Inv(s: State)
  {
    && s.head == Before(s.order, |s.order|)
    && (forall i, j :: 0 <= i < j < |s.order| ==> s.order[i] != s.order[j])
    && (forall k :: 0 <= k < |s.order| ==> NodeOk(s, k))
    && (forall t :: 0 <= t < |s.threads| ==> PcOk(s, s.threads[t]))
    && (forall t, u :: 0 <= t < u < |s.threads| ==> !SameNode(s.threads[t], s.threads[u]))
  }

  ghost predicate Start(s: State)
  {
    s.nodes == map[] && s.head == Null && s.order == [] && Quiescent(s)
  }

  lemma FillKeepsInv(s: State, t: nat, node: NodeId, elem: Elem)
    requires Inv(s) && Enabled(s, Fill(t, node, elem))
    ensures Inv(After(s, Fill(t, node, elem)))
  {
    var s' := After(s, Fill(t, node, elem));
    forall k | 0 <= k < |s.order| ensures NodeOk(s', k) && s.order[k] != node {
      assert NodeOk(s, k);
      if u :| 0 <= u < |s.threads| && Pushing(s.threads[u], s.order[k]) {
        assert Pushing(s'.threads[u], s.order[k]);
      }
    }
    forall u | 0 <= u < |s'.threads| ensures PcOk(s', s'.threads[u]) {
      assert PcOk(s, s.threads[u]);
    }
  }

  lemma ExchangeKeepsInv(s: State, t: nat)
    requires Inv(s) && Enabled(s, Exchange(t))
    ensures Inv(After(s, Exchange(t)))
  {
    var s' := After(s, Exchange(t));
    var n := |s.order|;
    assert PcOk(s, s.threads[t]);
    forall k | 0 <= k < n + 1 ensures NodeOk(s', k) {
      if k < n {
        assert NodeOk(s, k) && s'.order[k] == s.order[k] && Before(s'.order, k) == Before(s.order, k);
        if u :| 0 <= u < |s.threads| && Pushing(s.threads[u], s.order[k]) {
          assert Pushing(s'.threads[u], s.order[k]);
        }
      } else {
        assert Pushing(s'.threads[t], s'.order[n]);
      }
    }
    forall u | 0 <= u < |s'.threads| ensures PcOk(s', s'.threads[u]) {
      if u != t { ExchangeKeepsOthers(s, t, u); } else { assert s'.order[n] == s.threads[t].node; }
    }
  }

  lemma ExchangeKeepsOthers(s: State, t: nat, u: nat)
    requires Inv(s) && Enabled(s, Exchange(t)) && u < |s.threads| && u != t
    ensures PcOk(After(s, Exchange(t)), s.threads[u])
  {
    var s' := After(s, Exchange(t));
    assert PcOk(s, s.threads[u]) && !SameNode(s.threads[t], s.threads[u]);
    if s.threads[u].Exchanged? {
      var k :| 0 <= k < |s.order| && s.order[k] == s.threads[u].node && s.threads[u].previous == Before(s.order, k);
      assert s'.order[k] == s.order[k] && Before(s'.order, k) == Before(s.order, k);
    }
  }

  lemma WriteNextKeepsInv(s: State, t: nat)
    requires Inv(s) && Enabled(s, WriteNext(t))
    ensures Inv(After(s, WriteNext(t)))
  {
    var s' := After(s, WriteNext(t));
    var node := s.threads[t].node;
    assert PcOk(s, s.threads[t]);
    forall k | 0 <= k < |s.order| ensures NodeOk(s', k) {
      assert NodeOk(s, k);
      if s.order[k] != node {
        if u :| 0 <= u < |s.threads| && Pushing(s.threads[u], s.order[k]) {
          assert Pushing(s'.threads[u], s.order[k]);
        }
      }
    }
    forall u | 0 <= u < |s'.threads| ensures PcOk(s', s'.threads[u]) {
      assert PcOk(s, s.threads[u]);
      if u != t { assert !SameNode(s.threads[t], s.threads[u]); }
    }
  }

  lemma StepKeepsInv(s: State, action: Action)
    requires Inv(s) && Enabled(s, action)
    ensures Inv(After(s, action))
  {
    match action
    case Fill(t, node, elem) => FillKeepsInv(s, t, node, elem);
    case Exchange(t) => ExchangeKeepsInv(s, t);
    case WriteNext(t) => WriteNextKeepsInv(s, t);
    case Cleanup(_) =>
  }

  predicate EnabledRun(s: State, run: seq<Action>)
    decreases run
  {
    run == [] || (Enabled(s, run[0]) && EnabledRun(After(s, run[0]), run[1..]))
  }

  function Run(s: State, run: seq<Action>): State
    requires EnabledRun(s, run)
    decreases run
  {
    if run == [] then s else Run(After(s, run[0]), run[1..])
  }

  lemma {:induction false} RunKeepsInv(s: State, run: seq<Action>)
    requires Inv(s) && EnabledRun(s, run)
    ensures Inv(Run(s, run))
    decreases run
  {
    if run != [] {
      StepKeepsInv(s, run[0]);
      RunKeepsInv(After(s, run[0]), run[1..]);
    }
  }

  // ----- The walk ----------------------------------------------------------------

  /** `head` leads through the first `k` nodes of `order`, backwards, and ends. */
  predicate Leads(nodes: map<NodeId, Node>, head: Link, order: seq<NodeId>, k: nat)
    requires k <= |order|
    decreases k
  {
    head == Before(order, k)
    && (k == 0 || (order[k - 1] in nodes && Leads(nodes, nodes[order[k - 1]].next, order, k - 1)))
  }

  lemma {:induction false} LinkedListLeads(s: State, k: nat)
    requires Inv(s) && Quiescent(s) && k <= |s.order|
    ensures Leads(s.nodes, Before(s.order, k), s.order, k)
  {
    if k > 0 {
      assert NodeOk(s, k - 1);
      LinkedListLeads(s, k - 1);
    }
  }

  /** Once no push is in flight, the list holds every node pushed since the last
      cleanup, once, newest exchange first. */
  lemma QuiescentListIsWhole(start: State, run: seq<Action>)
    requires Start(start) && EnabledRun(start, run) && Quiescent(Run(start, run))
    ensures var s := Run(start, run);
      && Leads(s.nodes, s.head, s.order, |s.order|)
      && forall i, j :: 0 <= i < j < |s.order| ==> s.order[i] != s.order[j]
  {
    RunKeepsInv(start, run);
    LinkedListLeads(Run(start, run), |Run(start, run).order|);
  }

  /** Every node ever filled is in the list or still being pushed. */
  ghost predicate AllPushed(s: State)
  {
    forall node :: node in s.nodes ==>
      node in s.order || exists t :: 0 <= t < |s.threads| && s.threads[t] == Filled(node)
  }

  lemma StepKeepsAllPushed(s: State, action: Action)
    requires Inv(s) && Enabled(s, action) && AllPushed(s)
    ensures AllPushed(After(s, action))
  {
    var s' := After(s, action);
    forall node | node in s'.nodes
      ensures node in s'.order || exists t :: 0 <= t < |s'.threads| && s'.threads[t] == Filled(node)
    {
      if action.Fill? && node == action.node {
        assert s'.threads[action.t] == Filled(node);
      } else if node !in s.order {
        var t :| 0 <= t < |s.threads| && s.threads[t] == Filled(node);
        if action == Exchange(t) {
          assert s'.order[|s.order|] == node;
        } else {
          assert s'.threads[t] == Filled(node);
        }
      }
    }
  }

  lemma {:induction false} RunPushesAll(s: State, run: seq<Action>)
    requires Inv(s) && AllPushed(s) && EnabledRun(s, run) && Quiescent(Run(s, run))
    ensures forall node :: node in Run(s, run).nodes ==> node in Run(s, run).order
    decreases run
  {
    if run != [] {
      StepKeepsInv(s, run[0]);
      StepKeepsAllPushed(s, run[0]);
      RunPushesAll(After(s, run[0]), run[1..]);
    }
  }

  /** The elements of the first `k` nodes of `order`, backwards. */
  function Backwards(nodes: map<NodeId, Node>, order: seq<NodeId>, k: nat): seq<Elem>
    requires k <= |order| && forall i :: 0 <= i < k ==> order[i] in nodes
  {
    if k == 0 then [] else [nodes[order[k - 1]].elem] + Backwards(nodes, order, k - 1)
  }

  lemma {:induction false} BackwardsAt(nodes: map<NodeId, Node>, order: seq<NodeId>, k: nat)
    requires k <= |order| && forall i :: 0 <= i < k ==> order[i] in nodes
    ensures |Backwards(nodes, order, k)| == k
    ensures forall i :: 0 <= i < k ==> Backwards(nodes, order, k)[i] == nodes[order[k - 1 - i]].elem
  {
    if k > 0 { BackwardsAt(nodes, order, k - 1); }
  }

  lemma {:induction false} LeadsThroughNodes(nodes: map<NodeId, Node>, head: Link, order: seq<NodeId>, k: nat)
    requires k <= |order| && Leads(nodes, head, order, k)
    ensures forall i :: 0 <= i < k ==> order[i] in nodes
    decreases k
  {
    if k > 0 { LeadsThroughNodes(nodes, nodes[order[k - 1]].next, order, k - 1); }
  }

  /** CleanupList: runs each element's cleanup once, in reverse order of exchange. */
  method CleanupList(nodes: map<NodeId, Node>, head: Link, ghost order: seq<NodeId>) returns (ran: seq<Elem>)
    requires Leads(nodes, head, order, |order|)
    ensures (forall i :: 0 <= i < |order| ==> order[i] in nodes) && ran == Backwards(nodes, order, |order|)
    ensures |ran| == |order| && forall i :: 0 <= i < |ran| ==> ran[i] == nodes[order[|order| - 1 - i]].elem
  {
    LeadsThroughNodes(nodes, head, order, |order|);
    BackwardsAt(nodes, order, |order|);
    var at := head;
    ran := [];
    ghost var k: nat := |order|;
    while at != Null
      invariant k <= |order| && Leads(nodes, at, order, k)
      invariant ran + Backwards(nodes, order, k) == Backwards(nodes, order, |order|)
      decreases k
    {
      ran := ran + [nodes[at.id].elem];
      at := nodes[at.id].next;
      k := k - 1;
    }
    assert ran + [] == ran;
  }
}
