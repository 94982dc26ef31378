/** Finite directed graphs, given as a set of edges. The job graph of a pipeline, the
    dependency graph of a repository's issues and the commit graph all use this theory. */
module Graph {

  /** A walk is a nonempty sequence of nodes, each joined to the next by an edge. */
  ghost predicate IsWalk<T>(e: set<(T, T)>, w: seq<T>) {
    && |w| >= 1
    && forall i | 0 <= i < |w| - 1 :: (w[i], w[i + 1]) in e
  }

  ghost predicate WalkBetween<T>(e: set<(T, T)>, w: seq<T>, a: T, b: T) {
    IsWalk(e, w) && w[0] == a && w[|w| - 1] == b
  }

  /** Reachability in zero or more steps. */
  ghost predicate Reaches<T(!new)>(e: set<(T, T)>, a: T, b: T) {
    exists w :: WalkBetween(e, w, a, b)
  }

  /** Reachability in one or more steps. */
  ghost predicate ReachesInSteps<T(!new)>(e: set<(T, T)>, a: T, b: T) {
    exists c :: (a, c) in e && Reaches(e, c, b)
  }

  /** A walk of at least one step that returns to where it started. */
  ghost predicate IsClosedWalk<T>(e: set<(T, T)>, w: seq<T>) {
    IsWalk(e, w) && |w| >= 2 && w[0] == w[|w| - 1]
  }

  ghost predicate Acyclic<T(!new)>(e: set<(T, T)>) {
    forall w :: !IsClosedWalk(e, w)
  }

  lemma ReachesSelf<T(!new)>(e: set<(T, T)>, a: T)
    ensures Reaches(e, a, a)
  {
    assert WalkBetween(e, [a], a, a);
  }

  lemma ReachesStep<T(!new)>(e: set<(T, T)>, a: T, b: T, c: T)
    requires (a, b) in e && Reaches(e, b, c)
    ensures Reaches(e, a, c)
  {
    var w :| WalkBetween(e, w, b, c);
    assert WalkBetween(e, [a] + w, a, c);
  }

  lemma ReachesTransitive<T(!new)>(e: set<(T, T)>, a: T, b: T, c: T)
    requires Reaches(e, a, b) && Reaches(e, b, c)
    ensures Reaches(e, a, c)
  {
    var v :| WalkBetween(e, v, a, b);
    var w :| WalkBetween(e, w, b, c);
    assert WalkBetween(e, v + w[1..], a, c);
  }

  lemma ReachesMonotone<T(!new)>(e: set<(T, T)>, f: set<(T, T)>, a: T, b: T)
    requires e <= f && Reaches(e, a, b)
    ensures Reaches(f, a, b)
  {
    var w :| WalkBetween(e, w, a, b);
    assert WalkBetween(f, w, a, b);
  }

  /** A node reaches another exactly when they are equal or a first step leads there. */
  lemma ReachesUnfold<T(!new)>(e: set<(T, T)>, a: T, b: T)
    ensures Reaches(e, a, b) <==> a == b || ReachesInSteps(e, a, b)
  {
    if Reaches(e, a, b) && a != b {
      var w :| WalkBetween(e, w, a, b);
      assert WalkBetween(e, w[1..], w[1], b);
      assert (a, w[1]) in e;
    }
    if a == b { ReachesSelf(e, a); }
    if c :| (a, c) in e && Reaches(e, c, b) { ReachesStep(e, a, c, b); }
  }

  /** A cycle is a node that reaches itself in one or more steps. */
  lemma CycleAtNode<T(!new)>(e: set<(T, T)>)
    ensures Acyclic(e) <==> forall a :: !ReachesInSteps(e, a, a)
  {
    forall a | ReachesInSteps(e, a, a) ensures !Acyclic(e) {
      var c :| (a, c) in e && Reaches(e, c, a);
      var w :| WalkBetween(e, w, c, a);
      assert IsClosedWalk(e, [a] + w);
    }
    forall w | IsClosedWalk(e, w) ensures ReachesInSteps(e, w[0], w[0]) {
      assert WalkBetween(e, w[1..], w[1], w[0]);
      assert (w[0], w[1]) in e;
    }
  }

  lemma AcyclicSubgraph<T(!new)>(e: set<(T, T)>, f: set<(T, T)>)
    requires e <= f && Acyclic(f)
    ensures Acyclic(e)
  {
    forall w ensures !IsClosedWalk(e, w) {
      if IsClosedWalk(e, w) { assert IsClosedWalk(f, w); }
    }
  }

  /** `order` lists every source of an edge after the edge's target. */
  ghost predicate TargetsFirst<T(!new)>(e: set<(T, T)>, order: seq<T>) {
    forall u, v | (u, v) in e :: exists j | 0 <= j < |order| ::
      order[j] == u && u !in order[..j] && v in order[..j]
  }

  /** A graph whose edges all point backwards in some listing has no cycle. */
  lemma OrderedIsAcyclic<T(!new)>(e: set<(T, T)>, order: seq<T>)
    requires TargetsFirst(e, order)
    ensures Acyclic(e)
  {
    forall w | IsClosedWalk(e, w) ensures false {
      WalkGoesBack(e, order, w);
    }
  }

  lemma {:induction false} WalkGoesBack<T(!new)>(e: set<(T, T)>, order: seq<T>, w: seq<T>)
    requires TargetsFirst(e, order) && IsWalk(e, w) && |w| >= 2
    ensures exists j | 0 <= j < |order| :: order[j] == w[0] && w[0] !in order[..j] && w[|w| - 1] in order[..j]
  {
    var last := w[|w| - 1];
    assert (w[0], w[1]) in e;
    var j :| 0 <= j < |order| && order[j] == w[0] && w[0] !in order[..j] && w[1] in order[..j];
    if |w| > 2 {
      var t := w[1..];
      assert IsWalk(e, t);
      WalkGoesBack(e, order, t);
      var k :| 0 <= k < |order| && order[k] == t[0] && t[0] !in order[..k] && t[|t| - 1] in order[..k];
      assert t[0] in order[..j];
      assert k < j;
      assert last in order[..j];
    }
  }

  /** In an acyclic graph every nonempty set of nodes has a member with no edge into the set. */
  lemma SinkExists<T(!new)>(e: set<(T, T)>, s: set<T>) returns (x: T)
    requires Acyclic(e) && s != {}
    ensures x in s && forall y | y in s :: (x, y) !in e
  {
    var a :| a in s;
    x := SinkFrom(e, s, [a]);
  }

  lemma {:induction false} SinkFrom<T(!new)>(e: set<(T, T)>, s: set<T>, w: seq<T>) returns (x: T)
    requires Acyclic(e) && IsWalk(e, w)
    requires forall i | 0 <= i < |w| :: w[i] in s
    requires forall i, j | 0 <= i < j < |w| :: w[i] != w[j]
    ensures x in s && forall y | y in s :: (x, y) !in e
    decreases |s| - |w|
  {
    DistinctWithin(w, s);
    x := w[|w| - 1];
    if y :| y in s && (x, y) in e {
      if k :| 0 <= k < |w| && w[k] == y {
        assert IsClosedWalk(e, w[k..] + [y]);
        assert false;
      } else {
        DistinctWithin(w + [y], s);
        x := SinkFrom(e, s, w + [y]);
      }
    }
  }

  lemma {:induction false} DistinctWithin<T>(w: seq<T>, s: set<T>)
    requires forall i | 0 <= i < |w| :: w[i] in s
    requires forall i, j | 0 <= i < j < |w| :: w[i] != w[j]
    ensures |w| <= |s|
  {
    if w != [] {
      var last := w[|w| - 1];
      DistinctWithin(w[..|w| - 1], s - {last});
    }
  }

  /** Any walk once the edge (u, v) is added either avoids it or passes through it. */
  lemma {:induction false} WalkWithNewEdge<T(!new)>(e: set<(T, T)>, u: T, v: T, w: seq<T>)
    requires IsWalk(e + {(u, v)}, w)
    ensures Reaches(e, w[0], w[|w| - 1]) || (Reaches(e, w[0], u) && Reaches(e, v, w[|w| - 1]))
  {
    var last := w[|w| - 1];
    if |w| == 1 {
      ReachesSelf(e, w[0]);
    } else {
      var t := w[1..];
      WalkWithNewEdge(e, u, v, t);
      if (w[0], w[1]) in e {
        if Reaches(e, t[0], last) { ReachesStep(e, w[0], w[1], last); }
        if Reaches(e, t[0], u) { ReachesStep(e, w[0], w[1], u); }
      } else {
        assert (w[0], w[1]) in e + {(u, v)};
        ReachesSelf(e, u);
      }
    }
  }

  /** Adding an edge keeps an acyclic graph acyclic exactly when the edge's target
      does not already reach its source. */
  lemma AddEdge<T(!new)>(e: set<(T, T)>, u: T, v: T)
    requires Acyclic(e)
    ensures Acyclic(e + {(u, v)}) <==> !Reaches(e, v, u)
  {
    var f := e + {(u, v)};
    if Reaches(e, v, u) {
      var w :| WalkBetween(e, w, v, u);
      assert IsClosedWalk(f, [u] + w);
    } else {
      forall w ensures !IsClosedWalk(f, w) {
        if IsClosedWalk(f, w) { ClosedWalkUsesOldPath(e, u, v, w); }
      }
    }
  }

  lemma ClosedWalkUsesOldPath<T(!new)>(e: set<(T, T)>, u: T, v: T, w: seq<T>)
    requires Acyclic(e) && IsClosedWalk(e + {(u, v)}, w)
    ensures Reaches(e, v, u)
  {
    CycleAtNode(e);
    var a, c := w[0], w[1];
    assert (a, c) in e + {(u, v)};
    WalkWithNewEdge(e, u, v, w[1..]);
    if (a, c) in e {
      assert Reaches(e, c, a) ==> ReachesInSteps(e, a, a);
      ReachesStep(e, a, c, u);
      ReachesTransitive(e, v, a, u);
    }
  }

  /** A set of nodes that no edge leaves. */
  ghost predicate ClosedUnder<T(!new)>(e: set<(T, T)>, inside: set<T>) {
    forall x, y | x in inside && (x, y) in e :: y in inside
  }

  lemma {:induction false} WalkStaysInside<T(!new)>(e: set<(T, T)>, inside: set<T>, w: seq<T>)
    requires ClosedUnder(e, inside) && IsWalk(e, w) && w[0] in inside
    ensures w[|w| - 1] in inside
  {
    if |w| > 1 {
      assert (w[0], w[1]) in e;
      WalkStaysInside(e, inside, w[1..]);
    }
  }

  /** Nothing outside such a set is reachable from inside it. */
  lemma StaysInside<T(!new)>(e: set<(T, T)>, inside: set<T>, a: T, b: T)
    requires ClosedUnder(e, inside) && a in inside && b !in inside
    ensures !Reaches(e, a, b)
  {
    if Reaches(e, a, b) {
      var w :| WalkBetween(e, w, a, b);
      WalkStaysInside(e, inside, w);
    }
  }
}
