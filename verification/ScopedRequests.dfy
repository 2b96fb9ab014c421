/**
 Scoped media given raw paths (go/workspace/workspace.go), several on one in-memory medium:
 each behaves as a private medium, through every interleaving.
 */
module ScopedRequests {
  import opened Paths
  import opened PathTree
  import opened MemoryState
  import opened ScopedState
  import opened ScopedSimulation

  datatype Answer = Refused(reason: Cleaned) | Ran(status: Status)

  datatype Passed = Pass(op: Op) | Reject(reason: Cleaned)

  /** Only EnsureDir takes the root itself; a rename cleans the old path before the new one. */
  function Cleaning(request: Op, clean: (string, bool) -> Cleaned): Passed {
    var path := clean(request.path, request.OpEnsureDir?);
    if !path.Clean? then Reject(path)
    else if request.OpRename? then
      var to := clean(request.to, false);
      if to.Clean? then Pass(OpRename(path.path, to.path, request.orders)) else Reject(to)
    else Pass(WithPath(request, path.path))
  }

  function WithPath(op: Op, path: string): Op {
    match op
    case OpWrite(_, content, mode, now) => OpWrite(path, content, mode, now)
    case OpClose(_, content, mode, now) => OpClose(path, content, mode, now)
    case OpEnsureDir(_) => OpEnsureDir(path)
    case OpDelete(_) => OpDelete(path)
    case OpDeleteAll(_) => OpDeleteAll(path)
    case OpRename(_, to, orders) => OpRename(path, to, orders)
  }

  /** The request with its paths cleaned: what the private medium is asked. */
  function Private(request: Op): Passed {
    Cleaning(request, CleanMediumSubpath)
  }

  /** The request with its paths scoped: what the medium underneath is asked. */
  function Forwarded(root: string, request: Op): Passed {
    Cleaning(request, (path, allowRoot) => ScopedPath(root, path, allowRoot))
  }

  function WithOrders(op: Op, orders: Orders): Op {
    if op.OpRename? then op.(orders := orders) else op
  }

  /** The operation ran, going through its maps in some order. */
  ghost predicate Runs(m: Mem, op: Op, status: Status, after: Mem) {
    exists orders :: RunsInOrder(m, op, orders, status, after)
  }

  ghost predicate RunsInOrder(m: Mem, op: Op, orders: Orders, status: Status, after: Mem) {
    Legal(m, WithOrders(op, orders)) && Apply(m, WithOrders(op, orders)) == Step(status, after)
  }

  /** One call of a scoped medium's method, as it changes the medium underneath. */
  ghost predicate ScopedCall(m: Mem, root: string, request: Op, answer: Answer, after: Mem) {
    var passed := Forwarded(root, request);
    if passed.Reject? then answer == Refused(passed.reason) && after == m
    else answer.Ran? && Runs(m, passed.op, answer.status, after)
  }

  /** The same call of a private medium, whose root always exists. */
  ghost predicate PrivateCall(m: Mem, request: Op, answer: Answer, after: Mem) {
    var passed := Private(request);
    if passed.Reject? then answer == Refused(passed.reason) && after == m
    else if passed.op.path == "" then answer == Ran(Done) && after == m
    else answer.Ran? && CleanOp(passed.op) && Runs(m, passed.op, answer.status, after)
  }

  lemma PrivateIsClean(request: Op)
    ensures var passed := Private(request);
            passed.Pass? ==>
              (CleanOp(passed.op) || (passed.op.path == "" && passed.op.OpEnsureDir?)) &&
              (passed.op.path == "" ==> passed.op.OpEnsureDir?)
  {
    hide CleanMediumSubpath, Split;
    CleanedIsClean(request.path, request.OpEnsureDir?);
    if CleanRelative("") {
      CleanRelativeFixed("");
    }
    if request.OpRename? {
      CleanedIsClean(request.to, false);
    }
  }

  /** Scoping is cleaning and putting the root in front; the same requests are refused, for the same reason. */
  lemma ForwardedIsScoped(root: string, request: Op)
    requires CleanRelative(root)
    ensures var (private, forwarded) := (Private(request), Forwarded(root, request));
            (forwarded.Pass? <==> private.Pass?) &&
            (private.Reject? ==> forwarded == private) &&
            (private.Pass? && private.op.path == "" ==> forwarded.op == OpEnsureDir(root)) &&
            (private.Pass? && private.op.path != "" ==>
               forwarded.op.path == In(root, private.op.path) &&
               (private.op.OpRename? ==> forwarded.op.to == In(root, private.op.to)) &&
               forall inner: Orders, outer ::
                 outer == Orders(InAll(root, inner.files), InAll(root, inner.dirs)) ==>
                 WithOrders(forwarded.op, outer) == Scoped(root, WithOrders(private.op, inner)))
  {
    hide CleanMediumSubpath, ScopedPath, CleanRelative, InAll;
    ScopedPathBelow(root, request.path, request.OpEnsureDir?);
    PrivateIsClean(request);
    var path := CleanMediumSubpath(request.path, request.OpEnsureDir?);
    CleanedIsClean(request.path, request.OpEnsureDir?);
    if request.OpRename? {
      ScopedPathBelow(root, request.to, false);
      CleanedIsClean(request.to, false);
      if CleanRelative("") {
        CleanRelativeFixed("");
      }
    }
  }

  /** EnsureDir of a root that is stored, with the directories above it, changes nothing. */
  lemma EnsureRoot(m: Mem, root: string)
    requires Anchored(m, root)
    ensures EnsureDir(m, root) == Step(Done, m)
  {
    hide Ancestors, CleanRelative;
    assert m.dirs + Ancestors(root) + {root} == m.dirs;
  }

  /** The orders of the medium underneath come from orders of the private medium. */
  lemma InnerOrders(m: Mem, root: string, private: Op, forwarded: Op, orders: Orders) returns (inner: Orders,
      outer: Orders)
    requires CleanRelative(root) && CleanOp(private)
    requires private.OpRename? <==> forwarded.OpRename?
    requires forwarded.path == In(root, private.path)
    requires private.OpRename? ==> forwarded.to == In(root, private.to)
    requires Legal(m, WithOrders(forwarded, orders))
    ensures outer == Orders(InAll(root, inner.files), InAll(root, inner.dirs))
    ensures WithOrders(forwarded, outer) == WithOrders(forwarded, orders)
    ensures private.OpRename? ==> LegalOrders(Project(m, root), private.path, private.to, inner)
  {
    hide In, InAll, Project, LegalOrders, CleanRelative;
    if private.OpRename? {
      inner := OrdersComeFromInside(m, root, private.path, private.to, orders);
      outer := orders;
    } else {
      inner := Orders([], []);
      outer := Orders(InAll(root, []), InAll(root, []));
    }
  }

  /**
   Whatever a caller passes, a scoped call is the same call of a private medium, with the same
   answer; it changes nothing outside the root, and the root stays anchored.
   */
  lemma ScopedCallIsPrivate(m: Mem, root: string, request: Op, answer: Answer, after: Mem)
    requires Anchored(m, root) && ScopedCall(m, root, request, answer, after)
    ensures PrivateCall(Project(m, root), request, answer, Project(after, root))
    ensures SameOutside(m, after, root) && Anchored(after, root)
  {
    hide Anchored, Apply, Legal, CleanOp, Project, SameOutside, Simulates, Scoped, In, InAll, CleanRelative,
      Private, Forwarded, WithOrders;
    AnchoredIsClean(m, root);
    ForwardedIsScoped(root, request);
    PrivateIsClean(request);
    SimulatesNothing(m, root);
    SimulatesIs(m, m, root, Project(m, root));
    var (private, forwarded) := (Private(request), Forwarded(root, request));
    if private.Pass? {
      var orders :| RunsInOrder(m, forwarded.op, orders, answer.status, after);
      if private.op.path == "" {
        EnsureRoot(m, root);
        RunsEnsureDir(m, root, orders, answer.status, after);
      } else {
        SameKind(root, request);
        var inner, outer := InnerOrders(m, root, private.op, forwarded.op, orders);
        var op := WithOrders(private.op, inner);
        LegalWithOrders(Project(m, root), private.op, inner);
        ScopedStep(m, root, op);
        assert Scoped(root, op) == WithOrders(forwarded.op, orders);
        SimulatesIs(m, after, root, Apply(Project(m, root), op).mem);
        StepIs(Apply(Project(m, root), op));
        assert RunsInOrder(Project(m, root), private.op, inner, answer.status, Project(after, root));
      }
    }
  }

  lemma StepIs(step: Step)
    ensures step == Step(step.status, step.mem)
  {
  }

  lemma SameKind(root: string, request: Op)
    ensures var (private, forwarded) := (Private(request), Forwarded(root, request));
            private.Pass? && forwarded.Pass? ==> (private.op.OpRename? <==> forwarded.op.OpRename?)
  {
    hide CleanMediumSubpath, ScopedPath;
  }

  lemma LegalWithOrders(m: Mem, op: Op, orders: Orders)
    requires op.OpRename? ==> LegalOrders(m, op.path, op.to, orders)
    ensures Legal(m, WithOrders(op, orders))
    ensures CleanOp(op) ==> CleanOp(WithOrders(op, orders))
  {
    hide LegalOrders, CleanRelative;
  }

  lemma RunsEnsureDir(m: Mem, path: string, orders: Orders, status: Status, after: Mem)
    requires RunsInOrder(m, OpEnsureDir(path), orders, status, after)
    ensures EnsureDir(m, path) == Step(status, after)
  {
  }

  // Many scoped media over one medium

  datatype Call = Call(root: string, request: Op, answer: Answer)

  ghost predicate IsSharedRun(states: seq<Mem>, calls: seq<Call>) {
    |states| == |calls| + 1 &&
    forall i | 0 <= i < |calls| :: ScopedCall(states[i], calls[i].root, calls[i].request, calls[i].answer, states[i + 1])
  }

  /** No root lies in another. */
  ghost predicate Apart(roots: set<string>) {
    forall a, b :: a in roots && b in roots && a != b ==> !Under(a, b)
  }

  /**
   Through every interleaving of calls of any number of scoped media, each medium's own
   calls act on its private medium, and nobody else's calls touch it.
   */
  lemma {:induction false} SharedRun(roots: set<string>, states: seq<Mem>, calls: seq<Call>)
    requires IsSharedRun(states, calls) && Apart(roots)
    requires forall r :: r in roots ==> Anchored(states[0], r)
    requires forall i | 0 <= i < |calls| :: calls[i].root in roots
    ensures forall i, r | 0 <= i < |states| && r in roots :: Anchored(states[i], r)
    ensures forall i, r | 0 <= i < |calls| && r in roots :: SharedStep(states, calls, i, r)
  {
    hide Anchored, ScopedCall, PrivateCall, Project, SameOutside, Under;
    for n := 0 to |calls|
      invariant forall i, r | 0 <= i <= n && r in roots :: Anchored(states[i], r)
      invariant forall i, r | 0 <= i < n && r in roots :: SharedStep(states, calls, i, r)
    {
      var call := calls[n];
      ScopedCallIsPrivate(states[n], call.root, call.request, call.answer, states[n + 1]);
      forall r | r in roots ensures Anchored(states[n + 1], r) && SharedStep(states, calls, n, r) {
        if r != call.root {
          WorkspacesApart(states[n], states[n + 1], call.root, r);
        }
      }
    }
  }

  /** Call `i` seen from the private medium below `root`. */
  ghost predicate SharedStep(states: seq<Mem>, calls: seq<Call>, i: nat, root: string)
    requires i < |calls| && |states| == |calls| + 1
  {
    var (before, after) := (Project(states[i], root), Project(states[i + 1], root));
    if calls[i].root == root then PrivateCall(before, calls[i].request, calls[i].answer, after) else after == before
  }
}
