/** The guard that runs before schema parsing: an explicit-stack depth-first walk over an object
    graph that refuses cycles and objects owning a `__proto__` key. */
module DtoGuard {
  import opened Wrappers


  /** A value is a primitive (or null), or a reference to an object of the heap. */
  datatype Value = Prim | Ref(node: nat)

  /** The objects, the values each one owns in property order, and those owning `__proto__`. */
  datatype Heap = Heap(values: map<nat, seq<Value>>, proto: set<nat>)

  /** Every reference leads to an object of the heap. */
  ghost predicate Closed(h: Heap, root: Value) {
    && (root.Ref? ==> root.node in h.values)
    && forall n, i :: n in h.values && 0 <= i < |h.values[n]| && h.values[n][i].Ref? ==>
         h.values[n][i].node in h.values
  }

  ghost predicate Edge(h: Heap, u: nat, v: nat) {
    u in h.values && Ref(v) in h.values[u]
  }

  ghost predicate IsPath(h: Heap, p: seq<nat>) {
    p != [] && forall i :: 0 <= i < |p| - 1 ==> Edge(h, p[i], p[i + 1])
  }

  ghost predicate PathFrom(h: Heap, root: Value, p: seq<nat>) {
    IsPath(h, p) && root == Ref(p[0])
  }

  ghost predicate Cycle(h: Heap, p: seq<nat>) {
    IsPath(h, p) && |p| > 1 && p[0] == p[|p| - 1]
  }

  /** Some path from the root ends in an object owning `__proto__`, or in one that lies on a
      cycle. */
  ghost predicate Refusable(h: Heap, root: Value) {
    exists p :: PathFrom(h, root, p)
      && (p[|p| - 1] in h.proto || exists c :: Cycle(h, c) && c[0] == p[|p| - 1])
  }

  datatype Frame = Frame(value: Value, exit: bool)

  function EnterFrames(values: seq<Value>): seq<Frame> {
    seq(|values|, i requires 0 <= i < |values| => Frame(values[i], false))
  }

  /** How the pending stack reads: for every active object, innermost on top, its exit frame and
      above it the values it owns that still wait to be visited. */
  datatype Levels = Bottom | Push(below: Levels, node: nat, waiting: seq<Value>)
  {
    ghost function Frames(): seq<Frame> {
      match this
      case Bottom => []
      case Push(below, node, waiting) =>
        below.Frames() + [Frame(Ref(node), true)] + EnterFrames(waiting)
    }

    /** The active objects, outermost first. */
    ghost function Path(): seq<nat> {
      match this
      case Bottom => []
      case Push(below, node, waiting) => below.Path() + [node]
    }

    /** The active objects are an ancestor path from the root, none of them finished or owning
        `__proto__`, and none met twice. */
    ghost predicate Active(h: Heap, root: Value, done: seq<nat>) {
      match this
      case Bottom => true
      case Push(below, node, waiting) =>
        && below.Active(h, root, done)
        && node in h.values && node !in h.proto && node !in done && node !in below.Path()
        && (forall i :: 0 <= i < |waiting| ==> waiting[i] in h.values[node])
        && (if below.Bottom? then root == Ref(node) else Edge(h, below.node, node))
    }

    /** Whatever an active object references is finished, waits above its exit frame, or is the
        next active object. */
    ghost predicate Covered(h: Heap, done: seq<nat>, next: set<nat>) {
      match this
      case Bottom => true
      case Push(below, node, waiting) =>
        && (forall c :: Edge(h, node, c) ==> c in done || Ref(c) in waiting || c in next)
        && below.Covered(h, done, {node})
    }
  }

  /** Finishing order: a finished object owns no `__proto__` and only references objects that
      finished before it. */
  ghost predicate Finished(h: Heap, done: seq<nat>) {
    && Distinct(done)
    && (forall k :: 0 <= k < |done| ==> done[k] !in h.proto)
    && (forall k, c :: 0 <= k < |done| && Edge(h, done[k], c) ==> c in done[..k])
  }

  /** The walk before its root is entered. */
  ghost predicate AtStart(root: Value, pending: seq<Frame>, levels: Levels, done: seq<nat>) {
    pending == [Frame(root, false)] && levels.Bottom? && done == []
  }

  /** The walk once its root is entered. */
  ghost predicate Underway(h: Heap, root: Value, pending: seq<Frame>, levels: Levels, done: seq<nat>) {
    && pending == levels.Frames()
    && levels.Active(h, root, done) && levels.Covered(h, done, {}) && Finished(h, done)
    && (levels.Bottom? ==> root.Ref? ==> root.node in done)
  }

  lemma {:induction false} CoveredStays(h: Heap, levels: Levels, done: seq<nat>, more: seq<nat>,
                                        next: set<nat>, next': set<nat>)
    requires levels.Covered(h, done, next)
    requires forall c :: c in done ==> c in more
    requires forall c :: c in next ==> c in next' || c in more
    ensures levels.Covered(h, more, next')
    decreases levels
  {
    if levels.Push? {
      CoveredStays(h, levels.below, done, more, {levels.node}, {levels.node});
    }
  }

  lemma {:induction false} ActiveStays(h: Heap, root: Value, levels: Levels, done: seq<nat>, n: nat)
    requires levels.Active(h, root, done) && n !in levels.Path()
    ensures levels.Active(h, root, done + [n])
    decreases levels
  {
    if levels.Push? {
      assert levels.Path()[|levels.Path()| - 1] == levels.node;
      forall m | m in levels.below.Path() ensures m in levels.Path() {}
      ActiveStays(h, root, levels.below, done, n);
    }
  }

  lemma {:induction false} ActiveIsPath(h: Heap, root: Value, levels: Levels, done: seq<nat>)
    requires levels.Active(h, root, done) && levels.Push?
    ensures PathFrom(h, root, levels.Path())
    ensures levels.Path()[|levels.Path()| - 1] == levels.node
    decreases levels
  {
    if levels.below.Push? {
      ActiveIsPath(h, root, levels.below, done);
    }
  }

  /* --- One lemma per kind of frame -------------------------------------------------------- */

  /** The top frame belongs to the innermost active object: its own exit, or its last value. */
  lemma TopFrame(levels: Levels)
    requires levels.Push?
    ensures var f := levels.Frames();
      && f != []
      && (levels.waiting == [] ==>
            f[|f| - 1] == Frame(Ref(levels.node), true) && f[..|f| - 1] == levels.below.Frames())
      && (levels.waiting != [] ==>
            var rest := levels.waiting[..|levels.waiting| - 1];
            && f[|f| - 1] == Frame(levels.waiting[|levels.waiting| - 1], false)
            && f[..|f| - 1] == levels.(waiting := rest).Frames())
  {
    var f, w := levels.Frames(), levels.waiting;
    if w == [] {
      assert f == levels.below.Frames() + [Frame(Ref(levels.node), true)];
    } else {
      var rest := w[..|w| - 1];
      assert EnterFrames(w) == EnterFrames(rest) + [Frame(w[|w| - 1], false)];
      assert f == levels.(waiting := rest).Frames() + [Frame(w[|w| - 1], false)];
    }
  }

  /** Dropping a waiting value that needs no visit of its own. */
  lemma DropKeepsInv(h: Heap, root: Value, pending: seq<Frame>, levels: Levels, done: seq<nat>)
    requires Underway(h, root, pending, levels, done) && levels.Push? && levels.waiting != []
    requires var v := levels.waiting[|levels.waiting| - 1]; v.Prim? || v.node in done
    ensures Underway(h, root, pending[..|pending| - 1],
                     levels.(waiting := levels.waiting[..|levels.waiting| - 1]), done)
  {
    TopFrame(levels);
    var w := levels.waiting;
    assert w == w[..|w| - 1] + [w[|w| - 1]];
  }

  /** Leaving the innermost active object: all it references is finished. */
  lemma ExitKeepsInv(h: Heap, root: Value, pending: seq<Frame>, levels: Levels, done: seq<nat>)
    requires Underway(h, root, pending, levels, done) && levels.Push? && levels.waiting == []
    ensures Underway(h, root, pending[..|pending| - 1], levels.below, done + [levels.node])
  {
    TopFrame(levels);
    var n, done' := levels.node, done + [levels.node];
    ActiveStays(h, root, levels.below, done, n);
    CoveredStays(h, levels.below, done, done', {n}, {});
    assert Finished(h, done') by {
      forall k, c | 0 <= k < |done'| && Edge(h, done'[k], c) ensures c in done'[..k] {
        assert done'[..k] == done[..k];
      }
    }
  }

  /** Entering a value that was waiting. */
  lemma EnterKeepsInv(h: Heap, root: Value, pending: seq<Frame>, levels: Levels, done: seq<nat>)
    requires Underway(h, root, pending, levels, done) && levels.Push? && levels.waiting != []
    requires var v := levels.waiting[|levels.waiting| - 1];
      v.Ref? && v.node in h.values && v.node !in levels.Path() && v.node !in done && v.node !in h.proto
    ensures var n, w := levels.waiting[|levels.waiting| - 1].node, levels.waiting;
      Underway(h, root,
        pending[..|pending| - 1] + [Frame(Ref(n), true)] + EnterFrames(h.values[n]),
        Push(levels.(waiting := w[..|w| - 1]), n, h.values[n]), done)
  {
    TopFrame(levels);
    var w := levels.waiting;
    var n, shorter := w[|w| - 1].node, levels.(waiting := w[..|w| - 1]);
    assert w == w[..|w| - 1] + [w[|w| - 1]];
    assert shorter.Path() == levels.Path();
    assert shorter.Active(h, root, done) && Edge(h, levels.node, n);
    assert shorter.Covered(h, done, {n});
  }

  lemma RefusalIsJustified(h: Heap, root: Value, levels: Levels, done: seq<nat>, n: nat)
    requires levels.Active(h, root, done)
    requires if levels.Bottom? then root == Ref(n) else Edge(h, levels.node, n)
    requires n in levels.Path() || n in h.proto
    ensures Refusable(h, root)
  {
    var path := levels.Path();
    var p := path + [n];
    if levels.Push? {
      ActiveIsPath(h, root, levels, done);
    }
    assert PathFrom(h, root, p);
    if n in path {
      var k :| 0 <= k < |path| && path[k] == n;
      var c := path[k..] + [n];
      forall i | 0 <= i < |c| - 1 ensures Edge(h, c[i], c[i + 1]) {
        assert Edge(h, p[k + i], p[k + i + 1]);
      }
      assert Cycle(h, c) && c[0] == p[|p| - 1];
    }
  }

  /** Dropping and entering, at the root or below it. */
  lemma Drop(h: Heap, root: Value, pending: seq<Frame>, levels: Levels, done: seq<nat>)
      returns (r: Levels)
    requires pending != [] && !pending[|pending| - 1].exit
    requires AtStart(root, pending, levels, done) || Underway(h, root, pending, levels, done)
    requires var v := pending[|pending| - 1].value; v.Prim? || v.node in done
    ensures Underway(h, root, pending[..|pending| - 1], r, done) && r.Path() == levels.Path()
  {
    if levels.Bottom? {
      r := Bottom;
      assert pending == [Frame(root, false)];
    } else {
      TopFrame(levels);
      DropKeepsInv(h, root, pending, levels, done);
      r := levels.(waiting := levels.waiting[..|levels.waiting| - 1]);
    }
  }

  lemma Enter(h: Heap, root: Value, pending: seq<Frame>, levels: Levels, done: seq<nat>)
      returns (r: Levels)
    requires Closed(h, root) && pending != [] && !pending[|pending| - 1].exit
    requires AtStart(root, pending, levels, done) || Underway(h, root, pending, levels, done)
    requires var v := pending[|pending| - 1].value;
      v.Ref? && v.node !in levels.Path() && v.node !in done && v.node !in h.proto
    ensures var n := pending[|pending| - 1].value.node;
      && n in h.values
      && Underway(h, root, pending[..|pending| - 1] + [Frame(Ref(n), true)] + EnterFrames(h.values[n]),
                  r, done)
      && r.Path() == levels.Path() + [n]
  {
    if levels.Bottom? {
      assert pending == [Frame(root, false)] && pending[..0] == [];
      r := Push(Bottom, root.node, h.values[root.node]);
    } else {
      TopFrame(levels);
      var w := levels.waiting;
      assert w[|w| - 1] in h.values[levels.node];
      EnterKeepsInv(h, root, pending, levels, done);
      r := Push(levels.(waiting := w[..|w| - 1]), w[|w| - 1].node, h.values[w[|w| - 1].node]);
    }
  }

  /** Along any path, finished objects are met in strictly earlier and earlier finishing order. */
  lemma {:induction false} PathDescends(h: Heap, done: seq<nat>, p: seq<nat>, a: nat)
    requires Finished(h, done) && IsPath(h, p) && a < |done| && done[a] == p[0]
    ensures p[|p| - 1] in done[..a + 1] && (|p| > 1 ==> p[|p| - 1] in done[..a])
    decreases |p|
  {
    if |p| > 1 {
      assert Edge(h, p[0], p[1]);
      var b :| 0 <= b < a && done[b] == p[1];
      forall i | 0 <= i < |p[1..]| - 1 ensures Edge(h, p[1..][i], p[1..][i + 1]) {
        assert Edge(h, p[i + 1], p[i + 2]);
      }
      PathDescends(h, done, p[1..], b);
    }
  }

  lemma AcceptanceIsJustified(h: Heap, root: Value, done: seq<nat>)
    requires Finished(h, done) && (root.Ref? ==> root.node in done)
    ensures !Refusable(h, root)
  {
    forall p | PathFrom(h, root, p)
      ensures p[|p| - 1] !in h.proto && forall c :: Cycle(h, c) ==> c[0] != p[|p| - 1]
    {
      var a :| 0 <= a < |done| && done[a] == p[0];
      PathDescends(h, done, p, a);
      var b :| 0 <= b < |done| && done[b] == p[|p| - 1];
      forall c | Cycle(h, c) && c[0] == done[b] ensures false {
        PathDescends(h, done, c, b);
      }
    }
  }

  /** The two sets the walk keeps are the ancestor path and the finished objects; `expanded` logs
      every object entered. */
  ghost predicate Tracks(levels: Levels, done: seq<nat>, active: set<nat>, completed: set<nat>,
                         expanded: seq<nat>) {
    && (forall n :: n in active <==> n in levels.Path())
    && (forall n :: n in completed <==> n in done)
    && (forall n :: n in expanded <==> n in active || n in completed)
    && Distinct(expanded)
  }

  lemma TracksEnter(levels: Levels, r: Levels, done: seq<nat>, active: set<nat>,
                    completed: set<nat>, expanded: seq<nat>, node: nat)
    requires Tracks(levels, done, active, completed, expanded)
    requires r.Path() == levels.Path() + [node] && node !in active && node !in completed
    ensures Tracks(r, done, active + {node}, completed, expanded + [node])
  {}

  lemma TracksExit(levels: Levels, done: seq<nat>, active: set<nat>, completed: set<nat>,
                   expanded: seq<nat>)
    requires Tracks(levels, done, active, completed, expanded)
    requires levels.Push? && levels.node !in levels.below.Path()
    ensures levels.node in active
    ensures Tracks(levels.below, done + [levels.node], active - {levels.node},
                   completed + {levels.node}, expanded)
  {
    assert levels.Path()[|levels.Path()| - 1] == levels.node;
  }

  /** An exit frame as the loop handles it. */
  lemma ExitStep(h: Heap, root: Value, pending: seq<Frame>, levels: Levels, done: seq<nat>,
                 active: set<nat>, completed: set<nat>, expanded: seq<nat>)
    requires AtStart(root, pending, levels, done) || Underway(h, root, pending, levels, done)
    requires Tracks(levels, done, active, completed, expanded)
    requires pending != [] && pending[|pending| - 1].exit
    ensures levels.Push? && pending[|pending| - 1].value == Ref(levels.node)
    ensures Underway(h, root, pending[..|pending| - 1], levels.below, done + [levels.node])
    ensures Tracks(levels.below, done + [levels.node], active - {levels.node},
                   completed + {levels.node}, expanded)
    ensures (active - {levels.node}) + (completed + {levels.node}) == active + completed
  {
    TopFrame(levels);
    ExitKeepsInv(h, root, pending, levels, done);
    TracksExit(levels, done, active, completed, expanded);
  }

  /** The value on top is the root, or one the innermost active object references. */
  lemma TopIsReached(h: Heap, root: Value, pending: seq<Frame>, levels: Levels, done: seq<nat>)
    requires AtStart(root, pending, levels, done) || Underway(h, root, pending, levels, done)
    requires pending != [] && !pending[|pending| - 1].exit && pending[|pending| - 1].value.Ref?
    ensures levels.Active(h, root, done)
    ensures var v := pending[|pending| - 1].value;
      if levels.Bottom? then root == v else Edge(h, levels.node, v.node)
  {
    if levels.Push? {
      TopFrame(levels);
    }
  }

  lemma FewerLeft(all: set<nat>, active: set<nat>, completed: set<nat>, node: nat)
    requires node in all && node !in active && node !in completed
    ensures all - (active + {node} + completed) < all - (active + completed)
  {
    assert node in all - (active + completed);
  }

  /** The walk: accepts exactly the graphs in which nothing refusable is reachable, however often
      subtrees are shared, and expands each object at most once. */
  method Admit(h: Heap, root: Value) returns (ok: bool, ghost expanded: seq<nat>)
    requires Closed(h, root)
    ensures ok <==> !Refusable(h, root)
    ensures Distinct(expanded)
  {
    var active: set<nat>, completed: set<nat> := {}, {};
    var pending := [Frame(root, false)];
    ghost var levels, done: seq<nat> := Bottom, [];
    expanded := [];
    while pending != []
      invariant AtStart(root, pending, levels, done) || Underway(h, root, pending, levels, done)
      invariant Tracks(levels, done, active, completed, expanded)
      decreases h.values.Keys - (active + completed), |pending|
    {
      ghost var before := pending;
      var frame := pending[|pending| - 1];
      pending := pending[..|pending| - 1];
      if frame.value.Prim? {
        levels := Drop(h, root, before, levels, done);
        continue;
      }
      var node := frame.value.node;
      if frame.exit {
        ExitStep(h, root, before, levels, done, active, completed, expanded);
        active := active - {node};
        completed := completed + {node};
        levels, done := levels.below, done + [node];
        continue;
      }
      if node in completed {
        levels := Drop(h, root, before, levels, done);
        continue;
      }
      if node in active || node in h.proto {
        TopIsReached(h, root, before, levels, done);
        RefusalIsJustified(h, root, levels, done, node);
        return false, expanded;
      }
      ghost var deeper := Enter(h, root, before, levels, done);
      TracksEnter(levels, deeper, done, active, completed, expanded, node);
      FewerLeft(h.values.Keys, active, completed, node);
      levels, active, expanded := deeper, active + {node}, expanded + [node];
      pending := pending + [Frame(Ref(node), true)] + EnterFrames(h.values[node]);
    }
    AcceptanceIsJustified(h, root, done);
    return true, expanded;
  }
}
