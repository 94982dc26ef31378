/** The CI job graph (internal/ci/ci.go): validation, cycle search and topological order. */
module Pipeline {
  import opened Graph

  /** Each job's `needs` list, in document order and possibly with repeated names. */
  type Needs<T> = map<T, seq<T>>

  /** Looking up an unknown job yields an empty list, as a Go map does. */
  function NeedsOf<T(==)>(needs: Needs<T>, job: T): seq<T> {
    if job in needs then needs[job] else []
  }

  /** The edges of the job graph: (job, needed job). */
  ghost function Edges<T>(needs: Needs<T>): set<(T, T)> {
    set j, k | j in needs && 0 <= k < |needs[j]| :: (j, needs[j][k])
  }

  ghost function Nodes<T>(needs: Needs<T>): set<T> {
    needs.Keys + set j, k | j in needs && 0 <= k < |needs[j]| :: needs[j][k]
  }

  ghost predicate NeedsKnown<T>(needs: Needs<T>) {
    forall j, d | j in needs && d in needs[j] :: d in needs
  }

  lemma EdgeIsNeed<T>(needs: Needs<T>, j: T, d: T)
    ensures (j, d) in Edges(needs) <==> d in NeedsOf(needs, j)
  {
    if d in NeedsOf(needs, j) {
      var k :| 0 <= k < |needs[j]| && needs[j][k] == d;
    }
  }

  // ---------------------------------------------------------------- cycle search

  datatype Color = White | Gray | Black

  ghost predicate Distinct<T>(s: seq<T>) {
    forall i, j | 0 <= i < j < |s| :: s[i] != s[j]
  }

  lemma DistinctSnoc<T>(s: seq<T>, x: T)
    ensures Distinct(s + [x]) <==> Distinct(s) && x !in s
  {
    var t := s + [x];
    if Distinct(t) {
      forall i, j | 0 <= i < j < |s| ensures s[i] != s[j] { assert t[i] != t[j]; }
      forall i | 0 <= i < |s| ensures s[i] != x { assert t[i] != t[|s|]; }
    }
  }

  ghost predicate AllIn<T>(xs: seq<T>, ys: seq<T>) {
    forall x | x in xs :: x in ys
  }

  /** A listing without repetition in which every need precedes its dependent. */
  ghost predicate Postorder<T>(needs: Needs<T>, order: seq<T>) {
    && Distinct(order)
    && forall i | 0 <= i < |order| :: AllIn(NeedsOf(needs, order[i]), order[..i])
  }

  lemma PostorderSnoc<T>(needs: Needs<T>, order: seq<T>, x: T)
    requires Postorder(needs, order) && x !in order && AllIn(NeedsOf(needs, x), order)
    ensures Postorder(needs, order + [x])
  {
    DistinctSnoc(order, x);
    var t := order + [x];
    forall i | 0 <= i < |t| ensures AllIn(NeedsOf(needs, t[i]), t[..i]) {
      assert t[..i] == order[..i];
    }
  }

  datatype CycleResult<T> = NoCycle | Cycle(walk: seq<T>)

  /** The three-colour depth-first search of `findCycle`: `color` and `stack` are the variables
      its recursive closure updates. */
  class CycleFinder<T(==, !new)> {
    const needs: Needs<T>
    var color: map<T, Color>
    var stack: seq<T>
    /** Explored names in the order they turned black. */
    ghost var finished: seq<T>

    constructor (needs: Needs<T>)
      ensures this.needs == needs && color == map[] && stack == [] && finished == []
      ensures Valid()
    {
      this.needs := needs;
      color, stack, finished := map[], [], [];
    }

    function ColorOf(name: T): Color
      reads this
    {
      if name in color then color[name] else White
    }

    /** Gray names are exactly the stack, which is a walk of the job graph; black names are
        exactly `finished`, which is a postorder. */
    ghost predicate Valid()
      reads this
    {
      && (forall n :: ColorOf(n) == Gray <==> n in stack)
      && (forall n :: ColorOf(n) == Black <==> n in finished)
      && Distinct(stack)
      && (stack != [] ==> IsWalk(Edges(needs), stack))
      && Postorder(needs, finished)
      && color.Keys <= Nodes(needs)
      && (forall n | n in color :: color[n] != White)
    }

    /** Colours a white name gray and pushes it. */
    method Enter(name: T)
      requires Valid() && ColorOf(name) == White && name in Nodes(needs)
      requires stack != [] ==> (stack[|stack| - 1], name) in Edges(needs)
      modifies this
      ensures Valid() && stack == old(stack) + [name] && finished == old(finished)
      ensures color.Keys == old(color.Keys) + {name} && name !in old(color.Keys)
    {
      DistinctSnoc(stack, name);
      color := color[name := Gray];
      stack := stack + [name];
    }

    /** Pops the top of the stack and colours it black, once all its needs are black. */
    method Leave(name: T)
      requires Valid() && stack != [] && stack[|stack| - 1] == name
      requires AllIn(NeedsOf(needs, name), finished)
      modifies this
      ensures Valid() && stack == old(stack[..|stack| - 1]) && finished == old(finished) + [name]
      ensures color.Keys == old(color.Keys)
    {
      assert ColorOf(name) == Gray;
      PostorderSnoc(needs, finished, name);
      ghost var rest := stack[..|stack| - 1];
      assert stack == rest + [name];
      assert forall n :: n in stack <==> n in rest || n == name;
      DistinctSnoc(rest, name);
      stack := stack[..|stack| - 1];
      color := color[name := Black];
      finished := finished + [name];
    }

    /** The first position of a gray name on the stack closes a walk back to that name. */
    method BackEdge(dep: T) returns (walk: seq<T>)
      requires Valid() && ColorOf(dep) == Gray && (stack[|stack| - 1], dep) in Edges(needs)
      ensures IsClosedWalk(Edges(needs), walk)
    {
      var k := 0;
      while stack[k] != dep
        invariant 0 <= k < |stack| && dep in stack[k..]
        decreases |stack| - k
      {
        k := k + 1;
      }
      walk := stack[k..] + [dep];
    }

    /** Explores one white name. Without a cycle the name is black, everything black stays black
        and the stack is as before; with one, the result is a closed walk of the job graph. */
    method Visit(name: T) returns (r: CycleResult<T>)
      requires Valid() && ColorOf(name) == White && name in Nodes(needs)
      requires stack != [] ==> (stack[|stack| - 1], name) in Edges(needs)
      modifies this
      ensures r.NoCycle? ==> Valid() && stack == old(stack) && name in finished
      ensures r.NoCycle? ==> old(color.Keys) <= color.Keys && forall n | n in old(finished) :: n in finished
      ensures r.Cycle? ==> IsClosedWalk(Edges(needs), r.walk)
      decreases Nodes(needs) - color.Keys
    {
      Enter(name);
      var todo := NeedsOf(needs, name);
      var i := 0;
      while i < |todo|
        invariant 0 <= i <= |todo|
        invariant Valid() && stack == old(stack) + [name]
        invariant forall n | n in old(finished) :: n in finished
        invariant old(color.Keys) + {name} <= color.Keys
        invariant AllIn(todo[..i], finished)
      {
        var dep := todo[i];
        EdgeIsNeed(needs, name, dep);
        match ColorOf(dep) {
          case Gray =>
            var walk := BackEdge(dep);
            return Cycle(walk);
          case White =>
            var c := Visit(dep);
            if c.Cycle? { return c; }
          case Black =>
        }
        i := i + 1;
      }
      assert todo[..i] == todo;
      assert stack[..|stack| - 1] == old(stack);
      Leave(name);
      r := NoCycle;
    }
  }

  lemma FinishedIsAcyclic<T(!new)>(needs: Needs<T>, finished: seq<T>)
    requires Postorder(needs, finished)
    requires forall j | j in needs :: j in finished
    ensures Acyclic(Edges(needs))
  {
    forall u, v | (u, v) in Edges(needs)
      ensures exists j | 0 <= j < |finished| :: finished[j] == u && u !in finished[..j] && v in finished[..j]
    {
      EdgeIsNeed(needs, u, v);
      var j :| 0 <= j < |finished| && finished[j] == u;
    }
    OrderedIsAcyclic(Edges(needs), finished);
  }

  /** A result of `nil` means no cycle and conversely; any other result is a closed walk of
      `needs` edges. The names may be visited in any order. */
  method FindCycle(needs: Needs<string>) returns (r: CycleResult<string>)
    ensures r.NoCycle? <==> Acyclic(Edges(needs))
    ensures r.Cycle? ==> IsClosedWalk(Edges(needs), r.walk)
  {
    var names := JobNames(needs);
    var finder := new CycleFinder(needs);
    var i := 0;
    while i < |names|
      invariant 0 <= i <= |names|
      invariant finder.Valid() && finder.stack == [] && finder.needs == needs && fresh(finder)
      invariant forall k | 0 <= k < i :: names[k] in finder.finished
    {
      if finder.ColorOf(names[i]) == White {
        var c := finder.Visit(names[i]);
        if c.Cycle? { return c; }
      }
      i := i + 1;
    }
    FinishedIsAcyclic(needs, finder.finished);
    r := NoCycle;
  }

  // ---------------------------------------------------------------- job names

  /** Lexicographic order on strings, as `sort.Strings` compares them. */
  predicate LessEq(a: string, b: string) {
    a == [] || (b != [] && (a[0] < b[0] || (a[0] == b[0] && LessEq(a[1..], b[1..]))))
  }

  predicate Less(a: string, b: string) { a != b && LessEq(a, b) }

  lemma {:induction false} LessEqTotal(a: string, b: string)
    ensures LessEq(a, b) || LessEq(b, a)
    ensures LessEq(a, b) && LessEq(b, a) ==> a == b
  {
    if a != [] && b != [] {
      LessEqTotal(a[1..], b[1..]);
      if a[0] == b[0] && a[1..] == b[1..] { assert a == [a[0]] + a[1..] == b; }
    }
  }

  lemma {:induction false} LessEqTransitive(a: string, b: string, c: string)
    requires LessEq(a, b) && LessEq(b, c)
    ensures LessEq(a, c)
  {
    if a != [] && a[0] == b[0] == c[0] { LessEqTransitive(a[1..], b[1..], c[1..]); }
  }

  lemma LeastExists(s: set<string>) returns (m: string)
    requires s != {}
    ensures m in s && forall x | x in s :: LessEq(m, x)
  {
    m :| m in s;
    if s == {m} {
      LessEqTotal(m, m);
    } else {
      var n := LeastExists(s - {m});
      LessEqTotal(m, n);
      forall x | x in s ensures LessEq(if LessEq(m, n) then m else n, x) {
        LessEqTotal(x, x);
        if LessEq(m, n) && x != m { LessEqTransitive(m, n, x); }
      }
      m := if LessEq(m, n) then m else n;
    }
  }

  ghost predicate SortedListing(names: seq<string>, s: set<string>) {
    && (forall n :: n in names <==> n in s)
    && (forall i, j | 0 <= i < j < |names| :: LessEq(names[i], names[j]) && names[i] != names[j])
  }

  method JobNames(needs: Needs<string>) returns (names: seq<string>)
    ensures SortedListing(names, needs.Keys)
  {
    names := [];
    var rest := needs.Keys;
    while rest != {}
      invariant rest <= needs.Keys
      invariant SortedListing(names, needs.Keys - rest)
      invariant forall x, y | x in names && y in rest :: LessEq(x, y)
    {
      ghost var m := LeastExists(rest);
      var n :| n in rest && forall x | x in rest :: LessEq(n, x);
      names := names + [n];
      rest := rest - {n};
    }
  }

  /** Only one sequence lists a set of names in sorted order, so everything that iterates over
      `JobNames` is deterministic. */
  lemma {:induction false} SortedListingUnique(a: seq<string>, b: seq<string>, s: set<string>)
    requires SortedListing(a, s) && SortedListing(b, s)
    ensures a == b
  {
    assert b == [] || (b[0] in b && b[0] in a);
    if a != [] {
      assert a[0] in a && a[0] in b;
      assert b[0] in b && b[0] in a;
      LessEqTotal(a[0], b[0]);
      assert a[0] == b[0];
      forall n ensures n in a[1..] <==> n in s - {a[0]} { assert a == [a[0]] + a[1..]; }
      forall n ensures n in b[1..] <==> n in s - {a[0]} { assert b == [b[0]] + b[1..]; }
      SortedListingUnique(a[1..], b[1..], s - {a[0]});
      assert a == [a[0]] + a[1..] && b == [b[0]] + b[1..];
    }
  }

  // ---------------------------------------------------------------- topological order

  /** How many entries of a needs list, counted with multiplicity, are not yet emitted. */
  ghost function Outstanding<T>(list: seq<T>, order: seq<T>): nat {
    if list == [] then 0
    else (if list[0] in order then 0 else 1) + Outstanding(list[1..], order)
  }

  ghost function Occurrences<T>(list: seq<T>, name: T): nat {
    multiset(list)[name]
  }

  lemma {:induction false} OutstandingZero<T>(list: seq<T>, order: seq<T>)
    ensures Outstanding(list, order) == 0 <==> AllIn(list, order)
    ensures Outstanding(list, []) == |list|
  {
    if list != [] {
      OutstandingZero(list[1..], order);
      assert list == [list[0]] + list[1..];
    }
  }

  /** Emitting a new name lowers the count by its number of occurrences. */
  lemma {:induction false} OutstandingEmit<T>(list: seq<T>, order: seq<T>, name: T)
    requires name !in order
    ensures Outstanding(list, order + [name]) + Occurrences(list, name) == Outstanding(list, order)
  {
    if list != [] {
      OutstandingEmit(list[1..], order, name);
      assert list == [list[0]] + list[1..];
    }
  }

  /** What `indegree` holds between emissions: -1 for an emitted job, else its outstanding needs. */
  ghost predicate Indegrees<T>(needs: Needs<T>, indegree: map<T, int>, order: seq<T>) {
    && indegree.Keys == needs.Keys
    && forall j | j in needs :: indegree[j] == if j in order then -1 else Outstanding(needs[j], order)
  }

  /** Lists every name of a set once. */
  ghost predicate Listing<T>(names: seq<T>, s: set<T>) {
    Distinct(names) && (forall n | n in names :: n in s) && (forall n | n in s :: n in names)
  }

  /** Lowers the in-degree of `other` once per occurrence of `name` among its needs. */
  method DecrementDependent<T(==)>(list: seq<T>, indegree: map<T, int>, other: T, name: T) returns (r: map<T, int>)
    requires other in indegree
    ensures r == indegree[other := indegree[other] - Occurrences(list, name)]
  {
    r := indegree;
    var k := 0;
    while k < |list|
      invariant 0 <= k <= |list|
      invariant r == indegree[other := indegree[other] - Occurrences(list[..k], name)]
    {
      assert list[..k + 1] == list[..k] + [list[k]];
      if list[k] == name { r := r[other := r[other] - 1]; }
      k := k + 1;
    }
    assert list[..k] == list;
  }

  /** Does so for every job. */
  method DecrementDependents<T(==)>(needs: Needs<T>, names: seq<T>, indegree: map<T, int>, name: T)
    returns (r: map<T, int>)
    requires Listing(names, needs.Keys) && indegree.Keys == needs.Keys
    ensures r.Keys == needs.Keys
    ensures forall j | j in needs :: r[j] == indegree[j] - Occurrences(needs[j], name)
  {
    r := indegree;
    var i := 0;
    while i < |names|
      invariant 0 <= i <= |names|
      invariant r.Keys == needs.Keys
      invariant forall k | 0 <= k < i :: r[names[k]] == indegree[names[k]] - Occurrences(needs[names[k]], name)
      invariant forall k | i <= k < |names| :: r[names[k]] == indegree[names[k]]
    {
      r := DecrementDependent(needs[names[i]], r, names[i], name);
      i := i + 1;
    }
    forall j | j in needs ensures r[j] == indegree[j] - Occurrences(needs[j], name) {
      assert j in names;
    }
  }

  /** Emitting a job whose needs are all out keeps the in-degree bookkeeping. */
  lemma EmitKeepsIndegrees<T>(needs: Needs<T>, indegree: map<T, int>, order: seq<T>,
                           name: T, r: map<T, int>)
    requires Indegrees(needs, indegree, order) && name in needs && indegree[name] == 0
    requires Postorder(needs, order)
    requires r.Keys == needs.Keys
    requires forall j | j in needs :: r[j] == (if j == name then -1 else indegree[j]) - Occurrences(needs[j], name)
    ensures Indegrees(needs, r, order + [name]) && Postorder(needs, order + [name])
  {
    OutstandingZero(needs[name], order);
    PostorderSnoc(needs, order, name);
    forall j | j in needs
      ensures r[j] == if j in order + [name] then -1 else Outstanding(needs[j], order + [name])
    {
      OutstandingEmit(needs[j], order, name);
      if j in order {
        var i :| 0 <= i < |order| && order[i] == j;
        assert AllIn(NeedsOf(needs, j), order[..i]);
        assert name !in needs[j];
      } else if j == name {
        assert name !in needs[name];
      }
    }
  }

  datatype TopoResult<T> = Order(jobs: seq<T>) | CyclePreventsOrder

  /** A pass over the names in the given order, which emits every job that is ready when it comes
      to it. */
  ghost function Round<T(!new)>(needs: Needs<T>, names: seq<T>, order: seq<T>): (r: seq<T>)
    ensures order <= r
  {
    if names == [] then order
    else
      var before, x := Round(needs, names[..|names| - 1], order), names[|names| - 1];
      if x !in before && AllIn(NeedsOf(needs, x), before) then before + [x] else before
  }

  /** Passes until one emits nothing. */
  ghost function Rounds<T(!new)>(needs: Needs<T>, names: seq<T>, order: seq<T>, fuel: nat): seq<T>
    decreases fuel
  {
    if fuel == 0 || |order| >= |needs| then order else Rounds(needs, names, Round(needs, names, order), fuel - 1)
  }

  lemma RoundSnoc<T(!new)>(needs: Needs<T>, names: seq<T>, order: seq<T>, x: T)
    ensures var before := Round(needs, names, order);
            Round(needs, names + [x], order) ==
              if x !in before && AllIn(NeedsOf(needs, x), before) then before + [x] else before
  {
    assert (names + [x])[..|names|] == names;
  }

  lemma ReadyIsZero<T(!new)>(needs: Needs<T>, indegree: map<T, int>, order: seq<T>, x: T)
    requires Indegrees(needs, indegree, order) && x in needs
    ensures indegree[x] == 0 <==> x !in order && AllIn(NeedsOf(needs, x), order)
  {
    OutstandingZero(needs[x], order);
  }

  // ---------------------------------------------------------------- ties

  /** A job may come in a pass once each of its needs has come in an earlier pass, or before it in
      the same one. */
  predicate Fits<T(==)>(less: (T, T) -> bool, dPass: nat, d: T, pass: nat, x: T) {
    dPass < pass || (dPass == pass && less(d, x))
  }

  /** In the pass before its own a job would come too early for one of its needs. */
  ghost predicate Earliest<T(!new)>(needs: Needs<T>, less: (T, T) -> bool, pass: map<T, nat>, x: T)
    requires x in pass
  {
    pass[x] == 0 || exists d :: d in NeedsOf(needs, x) && d in pass && !Fits(less, pass[d], d, pass[x] - 1, x)
  }

  ghost predicate PassOk<T(!new)>(needs: Needs<T>, less: (T, T) -> bool, pass: map<T, nat>, x: T)
    requires x in pass
  {
    (forall d | d in NeedsOf(needs, x) :: d in pass && Fits(less, pass[d], d, pass[x], x)) &&
    Earliest(needs, less, pass, x)
  }

  /** Gives every job the number of the first pass in which it may come. */
  ghost predicate IsPassNumbering<T(!new)>(needs: Needs<T>, less: (T, T) -> bool, pass: map<T, nat>) {
    pass.Keys == needs.Keys && forall x {:trigger PassOk(needs, less, pass, x)} | x in pass :: PassOk(needs, less, pass, x)
  }

  /** Earlier passes first, and within a pass by name. */
  predicate PassOrder<T(==)>(less: (T, T) -> bool, pass: map<T, nat>, x: T, y: T) {
    x in pass && y in pass && (pass[x] < pass[y] || (pass[x] == pass[y] && less(x, y)))
  }

  ghost predicate InPassOrder<T>(less: (T, T) -> bool, pass: map<T, nat>, order: seq<T>) {
    forall i, j | 0 <= i < j < |order| :: PassOrder(less, pass, order[i], order[j])
  }

  lemma PassOrderSnoc<T>(less: (T, T) -> bool, pass: map<T, nat>, order: seq<T>, x: T)
    requires InPassOrder(less, pass, order) && forall y | y in order :: PassOrder(less, pass, y, x)
    ensures InPassOrder(less, pass, order + [x])
  {
    hide PassOrder;
    var t := order + [x];
    forall i, j | 0 <= i < j < |t| ensures PassOrder(less, pass, t[i], t[j]) {
      assert t[i] == order[i];
    }
  }

  /** The names are listed in increasing order. */
  ghost predicate Increasing<T>(less: (T, T) -> bool, names: seq<T>) {
    && (forall i, j | 0 <= i < j < |names| :: less(names[i], names[j]))
    && (forall i, j | 0 <= i <= j < |names| :: !less(names[j], names[i]))
  }

  lemma LessIsBefore<T>(less: (T, T) -> bool, names: seq<T>, m: nat, d: T)
    requires Distinct(names) && Increasing(less, names) && m < |names| && d in names && d != names[m]
    ensures less(d, names[m]) <==> d in names[..m]
  {
    var i :| 0 <= i < |names| && names[i] == d;
    if d in names[..m] {
      var j :| 0 <= j < m && names[..m][j] == d;
      assert names[j] == d;
    } else {
      assert forall j | 0 <= j < m :: names[j] == names[..m][j];
    }
  }

  /** What has come out in the midst of pass k, which has gone through the given names. */
  ghost predicate OutBy<T(!new)>(pass: map<T, nat>, done: seq<T>, order: seq<T>, k: nat) {
    forall x :: x in order <==> x in pass && (pass[x] < k || (pass[x] == k && x in done))
  }

  lemma NeedsAreOut<T(!new)>(needs: Needs<T>, less: (T, T) -> bool, pass: map<T, nat>, names: seq<T>,
                             order: seq<T>, k: nat, m: nat)
    requires IsPassNumbering(needs, less, pass) && Listing(names, needs.Keys) && Increasing(less, names)
    requires m < |names| && OutBy(pass, names[..m], order, k) && pass[names[m]] == k
    ensures AllIn(needs[names[m]], order)
  {
    var x := names[m];
    assert PassOk(needs, less, pass, x);
    forall d | d in needs[x] ensures d in order {
      assert Fits(less, pass[d], d, pass[x], x);
      if pass[d] == k && d != x { LessIsBefore(less, names, m, d); }
    }
  }

  lemma SomeNeedIsNotOut<T(!new)>(needs: Needs<T>, less: (T, T) -> bool, pass: map<T, nat>, names: seq<T>,
                                  order: seq<T>, k: nat, m: nat)
    requires IsPassNumbering(needs, less, pass) && Listing(names, needs.Keys) && Increasing(less, names)
    requires m < |names| && OutBy(pass, names[..m], order, k) && pass[names[m]] > k
    ensures !AllIn(needs[names[m]], order)
  {
    var x := names[m];
    assert PassOk(needs, less, pass, x);
    var d :| d in needs[x] && d in pass && !Fits(less, pass[d], d, pass[x] - 1, x);
    if pass[d] == k && d != x { LessIsBefore(less, names, m, d); }
    assert d !in order;
  }

  /** A name is emitted by the pass that has its number, and not before. */
  lemma EmittedInItsPass<T(!new)>(needs: Needs<T>, less: (T, T) -> bool, pass: map<T, nat>, names: seq<T>,
                                  order: seq<T>, k: nat, m: nat)
    requires IsPassNumbering(needs, less, pass) && Listing(names, needs.Keys) && Increasing(less, names)
    requires m < |names| && OutBy(pass, names[..m], order, k)
    ensures names[m] in pass
    ensures names[m] !in order && AllIn(NeedsOf(needs, names[m]), order) <==> pass[names[m]] == k
    ensures pass[names[m]] == k && InPassOrder(less, pass, order) ==> InPassOrder(less, pass, order + [names[m]])
  {
    var x := names[m];
    assert x in pass && x !in names[..m];
    if pass[x] == k {
      NeedsAreOut(needs, less, pass, names, order, k, m);
      forall y | y in order ensures PassOrder(less, pass, y, x) {
        if pass[y] == k { LessIsBefore(less, names, m, y); }
      }
      if InPassOrder(less, pass, order) { PassOrderSnoc(less, pass, order, x); }
    } else if pass[x] > k {
      SomeNeedIsNotOut(needs, less, pass, names, order, k, m);
    }
  }

  lemma OutByNext<T(!new)>(pass: map<T, nat>, done: seq<T>, order: seq<T>, k: nat, x: T)
    requires OutBy(pass, done, order, k) && x in pass
    ensures OutBy(pass, done + [x], if pass[x] == k then order + [x] else order, k)
  {
  }

  lemma {:induction false} RoundEmitsPass<T(!new)>(needs: Needs<T>, less: (T, T) -> bool, pass: map<T, nat>, names: seq<T>,
                                                   order: seq<T>, k: nat, m: nat)
    requires IsPassNumbering(needs, less, pass) && Listing(names, needs.Keys) && Increasing(less, names)
    requires m <= |names| && OutBy(pass, [], order, k) && InPassOrder(less, pass, order)
    ensures OutBy(pass, names[..m], Round(needs, names[..m], order), k)
    ensures InPassOrder(less, pass, Round(needs, names[..m], order))
    decreases m
  {
    hide IsPassNumbering, Listing, Increasing, InPassOrder, AllIn, OutBy, Round;
    if m == 0 {
      RoundNothing(needs, order);
    } else {
      RoundEmitsPass(needs, less, pass, names, order, k, m - 1);
      var done := names[..m - 1];
      var before := Round(needs, done, order);
      EmittedInItsPass(needs, less, pass, names, before, k, m - 1);
      RoundSnoc(needs, done, order, names[m - 1]);
      OutByNext(pass, done, before, k, names[m - 1]);
      assert done + [names[m - 1]] == names[..m];
    }
  }

  lemma NextPass<T(!new)>(needs: Needs<T>, less: (T, T) -> bool, pass: map<T, nat>, names: seq<T>, order: seq<T>, k: nat)
    requires IsPassNumbering(needs, less, pass) && Listing(names, needs.Keys) && OutBy(pass, names, order, k)
    ensures OutBy(pass, [], order, k + 1)
  {
  }

  lemma {:induction false} RoundsInPassOrder<T(!new)>(needs: Needs<T>, less: (T, T) -> bool, pass: map<T, nat>, names: seq<T>,
                                                      order: seq<T>, k: nat, fuel: nat)
    requires IsPassNumbering(needs, less, pass) && Listing(names, needs.Keys) && Increasing(less, names)
    requires OutBy(pass, [], order, k) && InPassOrder(less, pass, order)
    ensures InPassOrder(less, pass, Rounds(needs, names, order, fuel))
    decreases fuel
  {
    hide IsPassNumbering, Listing, Increasing, InPassOrder, OutBy, Round;
    if fuel > 0 && |order| < |needs| {
      RoundEmitsPass(needs, less, pass, names, order, k, |names|);
      assert names[..|names|] == names;
      NextPass(needs, less, pass, names, Round(needs, names, order), k);
      RoundsInPassOrder(needs, less, pass, names, Round(needs, names, order), k + 1, fuel - 1);
    }
  }

  /** The jobs come by pass number and within a pass by name. */
  lemma OrderIsByPass<T(!new)>(needs: Needs<T>, less: (T, T) -> bool, pass: map<T, nat>, names: seq<T>, fuel: nat)
    requires IsPassNumbering(needs, less, pass) && Listing(names, needs.Keys) && Increasing(less, names)
    ensures InPassOrder(less, pass, Rounds(needs, names, [], fuel))
  {
    RoundsInPassOrder(needs, less, pass, names, [], 0, fuel);
  }

  /** The least number of a pass in which a job fits behind those of its needs. */
  lemma {:induction false} LeastPass<T(!new)>(less: (T, T) -> bool, pass: map<T, nat>, list: seq<T>, x: T) returns (k: nat)
    requires forall d | d in list :: d in pass
    ensures forall d | d in list :: Fits(less, pass[d], d, k, x)
    ensures k > 0 ==> exists d :: d in list && !Fits(less, pass[d], d, k - 1, x)
  {
    k := 0;
    if list != [] {
      var n := |list| - 1;
      var d := list[n];
      assert list == list[..n] + [d];
      k := LeastPass(less, pass, list[..n], x);
      var own := if less(d, x) then pass[d] else pass[d] + 1;
      if own > k { k := own; }
    }
  }

  lemma PassOkExtends<T(!new)>(needs: Needs<T>, less: (T, T) -> bool, pass: map<T, nat>, x: T, k: nat, y: T)
    requires y in pass && x !in pass && PassOk(needs, less, pass, y)
    ensures PassOk(needs, less, pass[x := k], y)
  {
  }

  /** The numbers can be given in the order of any listing of the jobs after their needs. */
  lemma {:induction false} PassNumbersExist<T(!new)>(needs: Needs<T>, less: (T, T) -> bool, order: seq<T>) returns (pass: map<T, nat>)
    requires Postorder(needs, order)
    ensures forall x :: x in pass <==> x in order
    ensures forall x {:trigger PassOk(needs, less, pass, x)} | x in pass :: PassOk(needs, less, pass, x)
  {
    pass := map[];
    if order != [] {
      var n := |order| - 1;
      var x := order[n];
      assert order == order[..n] + [x];
      PostorderPrefix(needs, order, n);
      var before := PassNumbersExist(needs, less, order[..n]);
      assert AllIn(NeedsOf(needs, x), order[..n]) && x !in order[..n];
      var k := LeastPass(less, before, NeedsOf(needs, x), x);
      pass := before[x := k];
      forall y | y in pass ensures PassOk(needs, less, pass, y) {
        if y != x { PassOkExtends(needs, less, before, x, k, y); }
      }
    }
  }

  lemma PostorderPrefix<T(!new)>(needs: Needs<T>, order: seq<T>, n: nat)
    requires Postorder(needs, order) && n <= |order|
    ensures Postorder(needs, order[..n])
  {
    forall i | 0 <= i < n ensures AllIn(NeedsOf(needs, order[..n][i]), order[..n][..i]) {
      assert order[..n][..i] == order[..i];
    }
  }

  /** And in one way only. */
  lemma {:induction false} PassNumbersAgree<T(!new)>(needs: Needs<T>, less: (T, T) -> bool, p: map<T, nat>, q: map<T, nat>, order: seq<T>, i: nat)
    requires IsPassNumbering(needs, less, p) && IsPassNumbering(needs, less, q)
    requires Postorder(needs, order) && (forall x | x in order :: x in needs) && i < |order|
    ensures p[order[i]] == q[order[i]]
  {
    var x := order[i];
    assert PassOk(needs, less, p, x) && PassOk(needs, less, q, x) && AllIn(NeedsOf(needs, x), order[..i]);
    forall d | d in needs[x] ensures p[d] == q[d] {
      var j :| 0 <= j < i && order[j] == d;
      PassNumbersAgree(needs, less, p, q, order, j);
    }
  }

  /** Emits a job if its in-degree is zero, that is if it is not out yet and all its needs are. */
  method EmitIfReady<T(==, !new)>(needs: Needs<T>, names: seq<T>, indegree: map<T, int>, order: seq<T>, name: T)
    returns (indegree': map<T, int>, order': seq<T>)
    requires Listing(names, needs.Keys) && name in needs
    requires Indegrees(needs, indegree, order) && Postorder(needs, order) && (forall j | j in order :: j in needs)
    ensures Indegrees(needs, indegree', order') && Postorder(needs, order') && (forall j | j in order' :: j in needs)
    ensures order' == if name !in order && AllIn(NeedsOf(needs, name), order) then order + [name] else order
    ensures order' == order ==> indegree' == indegree && indegree[name] != 0
  {
    ReadyIsZero(needs, indegree, order, name);
    indegree', order' := indegree, order;
    if indegree[name] == 0 {
      indegree' := DecrementDependents(needs, names, indegree[name := -1], name);
      EmitKeepsIndegrees(needs, indegree, order, name, indegree');
      order' := order + [name];
    }
  }

  /** Emits every job that is ready when the pass over the names comes to it. */
  method EmitPass<T(==, !new)>(needs: Needs<T>, names: seq<T>, indegree: map<T, int>, order: seq<T>)
    returns (indegree': map<T, int>, order': seq<T>, progressed: bool)
    requires Listing(names, needs.Keys)
    requires Indegrees(needs, indegree, order) && Postorder(needs, order) && (forall j | j in order :: j in needs)
    ensures Indegrees(needs, indegree', order') && Postorder(needs, order') && (forall j | j in order' :: j in needs)
    ensures progressed ==> |order'| > |order|
    ensures !progressed ==> order' == order && forall j | j in needs :: indegree'[j] != 0
    ensures order' == Round(needs, names, order)
  {
    hide Indegrees, Postorder, Round;
    indegree', order', progressed := indegree, order, false;
    var i := 0;
    assert Round(needs, names[..0], order) == order by { RoundNothing(needs, order); }
    while i < |names|
      invariant 0 <= i <= |names|
      invariant Indegrees(needs, indegree', order') && Postorder(needs, order') && (forall j | j in order' :: j in needs)
      invariant if progressed then |order'| > |order| else order' == order && indegree' == indegree
      invariant !progressed ==> forall k | 0 <= k < i :: names[k] in indegree && indegree[names[k]] != 0
      invariant order' == Round(needs, names[..i], order)
    {
      RoundSnoc(needs, names[..i], order, names[i]);
      assert names[..i] + [names[i]] == names[..i + 1];
      var size := |order'|;
      KeysOf(needs, indegree', order');
      indegree', order' := EmitIfReady(needs, names, indegree', order', names[i]);
      progressed := progressed || |order'| > size;
      i := i + 1;
    }
    assert names[..i] == names;
    KeysOf(needs, indegree', order');
    if !progressed {
      forall j | j in needs ensures indegree'[j] != 0 { assert j in names; }
    }
  }

  lemma KeysOf<T(!new)>(needs: Needs<T>, indegree: map<T, int>, order: seq<T>)
    requires Indegrees(needs, indegree, order)
    ensures indegree.Keys == needs.Keys
  {
  }

  lemma RoundNothing<T(!new)>(needs: Needs<T>, order: seq<T>)
    ensures Round(needs, [], order) == order
  {
  }

  /** The passes that are left take the order to the result. */
  ghost predicate LeadsTo<T(!new)>(needs: Needs<T>, names: seq<T>, order: seq<T>, left: nat, result: seq<T>) {
    result == Rounds(needs, names, order, left)
  }

  lemma LeadsToItself<T(!new)>(needs: Needs<T>, names: seq<T>, order: seq<T>, left: nat)
    ensures LeadsTo(needs, names, order, left, Rounds(needs, names, order, left))
  {
  }

  lemma RoundsStep<T(!new)>(needs: Needs<T>, names: seq<T>, order: seq<T>, order': seq<T>, left: nat, result: seq<T>)
    requires left > 0 && |order| < |needs| && order' == Round(needs, names, order)
    requires LeadsTo(needs, names, order, left, result)
    ensures LeadsTo(needs, names, order', left - 1, result)
  {
  }

  lemma RoundsEnd<T(!new)>(needs: Needs<T>, names: seq<T>, order: seq<T>, left: nat, result: seq<T>)
    requires |order| >= |needs| && LeadsTo(needs, names, order, left, result)
    ensures result == order
  {
  }

  lemma InitialIndegrees<T(!new)>(needs: Needs<T>)
    ensures Indegrees(needs, map j | j in needs :: |needs[j]|, []) && Postorder(needs, [])
  {
    forall j | j in needs ensures Outstanding(needs[j], []) == |needs[j]| { OutstandingZero(needs[j], []); }
  }

  lemma PostorderDistinct<T(!new)>(needs: Needs<T>, order: seq<T>)
    requires Postorder(needs, order)
    ensures Distinct(order)
  {
  }

  /** Kahn's algorithm, succeeding exactly when every need is a known job and there is no cycle;
      the order lists every job once, after all its needs. */
  method Kahn<T(==, !new)>(needs: Needs<T>, names: seq<T>) returns (r: TopoResult<T>)
    requires Listing(names, needs.Keys)
    ensures r.Order? <==> NeedsKnown(needs) && Acyclic(Edges(needs))
    ensures r.Order? ==> multiset(r.jobs) == multiset(needs.Keys) && Postorder(needs, r.jobs)
    ensures r.Order? ==> r.jobs == Rounds(needs, names, [], |needs|)
  {
    hide Round, Rounds, NeedsKnown, Acyclic, LeadsTo, Indegrees, Postorder, Outstanding, Listing;
    var indegree := map j | j in needs :: |needs[j]|;
    var order: seq<T> := [];
    ghost var left: nat := |needs|;
    ghost var result := Rounds(needs, names, order, left);
    assert LeadsTo(needs, names, order, left, result) by { LeadsToItself(needs, names, order, left); }
    InitialIndegrees(needs);
    while |order| < |needs|
      invariant Indegrees(needs, indegree, order) && Postorder(needs, order)
      invariant forall j | j in order :: j in needs
      invariant left >= |needs| - |order| && LeadsTo(needs, names, order, left, result)
      decreases |needs| - |order|
    {
      var indegree', order', progressed := EmitPass(needs, names, indegree, order);
      if !progressed {
        PostorderDistinct(needs, order');
        StuckIsCyclic(needs, indegree', order');
        return CyclePreventsOrder;
      }
      RoundsStep(needs, names, order, order', left, result);
      indegree, order, left := indegree', order', left - 1;
    }
    RoundsEnd(needs, names, order, left, result);
    PostorderDistinct(needs, order);
    OrderIsPermutation(needs.Keys, order);
    PostorderIsAcyclic(needs, order);
    r := Order(order);
  }

  /** The order is determined by the jobs and their needs alone: it is that of passes over the
      sorted names, by the number of the pass in which a job comes and then by name. */
  method TopoOrder(needs: Needs<string>) returns (r: TopoResult<string>)
    ensures r.Order? <==> NeedsKnown(needs) && Acyclic(Edges(needs))
    ensures r.Order? ==> multiset(r.jobs) == multiset(needs.Keys) && Postorder(needs, r.jobs)
    ensures r.Order? ==> forall names | SortedListing(names, needs.Keys) :: r.jobs == Rounds(needs, names, [], |needs|)
    ensures r.Order? ==> exists pass :: IsPassNumbering(needs, Less, pass)
    ensures r.Order? ==> forall pass | IsPassNumbering(needs, Less, pass) :: InPassOrder(Less, pass, r.jobs)
  {
    hide Round, Rounds, NeedsKnown, Acyclic, Listing, IsPassNumbering, InPassOrder, Postorder, SortedListing;
    var names := JobNames(needs);
    SortedIsIncreasing(names, needs.Keys);
    r := Kahn(needs, names);
    forall other | SortedListing(other, needs.Keys) ensures other == names {
      SortedListingUnique(other, names, needs.Keys);
    }
    if r.Order? {
      assert multiset(r.jobs) == multiset(needs.Keys);
      var pass := PassNumbersExist(needs, Less, r.jobs);
      NumbersAll(needs, Less, pass, r.jobs);
      forall pass | IsPassNumbering(needs, Less, pass) ensures InPassOrder(Less, pass, r.jobs) {
        OrderIsByPass(needs, Less, pass, names, |needs|);
      }
    }
  }

  lemma SortedIsIncreasing(names: seq<string>, s: set<string>)
    requires SortedListing(names, s)
    ensures Listing(names, s) && Increasing(Less, names)
  {
    forall i, j | 0 <= i <= j < |names| ensures !Less(names[j], names[i]) {
      LessEqTotal(names[i], names[j]);
    }
  }

  lemma PassNumbersUnique<T(!new)>(needs: Needs<T>, less: (T, T) -> bool, p: map<T, nat>, q: map<T, nat>, order: seq<T>)
    requires IsPassNumbering(needs, less, p) && IsPassNumbering(needs, less, q)
    requires Postorder(needs, order) && forall x :: x in needs <==> x in order
    ensures p == q
  {
    forall x | x in p ensures p[x] == q[x] {
      var i :| 0 <= i < |order| && order[i] == x;
      PassNumbersAgree(needs, less, p, q, order, i);
    }
  }

  ghost predicate Precedes<T>(order: seq<T>, x: T, y: T) {
    exists i, j | 0 <= i < j < |order| :: order[i] == x && order[j] == y
  }

  /** One job comes before another exactly when its pass number is smaller, or the same and its
      name smaller. So two jobs come by name exactly when the smaller name does not have to wait
      for a later pass. */
  lemma TiesByName(pass: map<string, nat>, order: seq<string>, x: string, y: string)
    requires InPassOrder(Less, pass, order) && x in order && y in order && x != y
    ensures Precedes(order, x, y) <==> PassOrder(Less, pass, x, y)
    ensures x in pass && y in pass && (Less(x, y) ==> (Precedes(order, x, y) <==> pass[x] <= pass[y]))
  {
    hide LessEq;
    var i :| 0 <= i < |order| && order[i] == x;
    var j :| 0 <= j < |order| && order[j] == y;
    LessEqTotal(x, y);
    assert PassOrder(Less, pass, order[if i < j then i else j], order[if i < j then j else i]);
  }

  /** Of two jobs that the same emission makes ready, the later name can come first: the pass has
      already gone by the other. */
  method TieExample() returns (r: TopoResult<string>)
    ensures r == Order(["b", "c", "a"])
  {
    var needs: Needs<string> := map["a" := ["b"], "b" := [], "c" := ["b"]];
    r := TopoOrder(needs);
    TieIsAcyclic("a", "b", "c");
    TieRounds("a", "b", "c");
    hide Acyclic, NeedsKnown, Edges, Rounds, IsPassNumbering, InPassOrder, Postorder;
    assert SortedListing(["a", "b", "c"], needs.Keys);
  }

  lemma TieIsAcyclic<T(!new)>(x: T, y: T, z: T)
    requires x != y && y != z && x != z
    ensures var needs: Needs<T> := map[x := [y], y := [], z := [y]];
            NeedsKnown(needs) && Acyclic(Edges(needs)) && needs.Keys == {x, y, z} && |needs| == 3
  {
    var needs: Needs<T> := map[x := [y], y := [], z := [y]];
    var order := [y, z, x];
    assert order[..1] == [y] && order[..2] == [y, z];
    PostorderIsAcyclic(needs, order);
    assert |needs.Keys| == 3 by { assert needs.Keys == {x, y, z}; }
  }

  lemma TieRounds<T(!new)>(x: T, y: T, z: T)
    requires x != y && y != z && x != z
    ensures Rounds(map[x := [y], y := [], z := [y]], [x, y, z], [], 3) == [y, z, x]
  {
    var needs: Needs<T> := map[x := [y], y := [], z := [y]];
    var names := [x, y, z];
    TieIsAcyclic(x, y, z);
    hide Acyclic, NeedsKnown, Edges;
    RoundOfThree(needs, [], x, y, z);
    RoundOfThree(needs, [y, z], x, y, z);
    hide Round;
    assert y in needs[x] && y in needs[z];
    assert Round(needs, names, []) == [y, z];
    assert Round(needs, names, [y, z]) == [y, z, x];
    assert Rounds(needs, names, [y, z], 2) == Rounds(needs, names, [y, z, x], 1);
  }

  lemma RoundOfThree<T(!new)>(needs: Needs<T>, order: seq<T>, x: T, y: T, z: T)
    ensures Round(needs, [x, y, z], order) ==
              var a := if x !in order && AllIn(NeedsOf(needs, x), order) then order + [x] else order;
              var b := if y !in a && AllIn(NeedsOf(needs, y), a) then a + [y] else a;
              if z !in b && AllIn(NeedsOf(needs, z), b) then b + [z] else b
  {
    RoundSnoc(needs, [], order, x);
    RoundSnoc(needs, [x], order, y);
    RoundSnoc(needs, [x, y], order, z);
    assert [] + [x] == [x] && [x] + [y] == [x, y] && [x, y] + [z] == [x, y, z];
  }

  lemma NumbersAll<T(!new)>(needs: Needs<T>, less: (T, T) -> bool, pass: map<T, nat>, order: seq<T>)
    requires multiset(order) == multiset(needs.Keys) && forall x :: x in pass <==> x in order
    requires forall x {:trigger PassOk(needs, less, pass, x)} | x in pass :: PassOk(needs, less, pass, x)
    ensures IsPassNumbering(needs, less, pass)
  {
    forall x ensures x in pass.Keys <==> x in needs.Keys {
      assert x in order <==> x in multiset(order);
    }
  }

  /** When no job has in-degree zero, some need is unknown or the rest contains a cycle. */
  lemma StuckIsCyclic<T(!new)>(needs: Needs<T>, indegree: map<T, int>, order: seq<T>)
    requires Indegrees(needs, indegree, order) && Distinct(order) && |order| < |needs|
    requires forall j | j in order :: j in needs
    requires forall j | j in needs :: indegree[j] != 0
    ensures !(NeedsKnown(needs) && Acyclic(Edges(needs)))
  {
    if NeedsKnown(needs) && Acyclic(Edges(needs)) {
      var rest := set j | j in needs && j !in order;
      if rest == {} {
        forall j | j in needs ensures j in order { assert j !in rest; }
        DistinctCovers(needs.Keys, order);
      }
      var sink := SinkExists(Edges(needs), rest);
      OutstandingZero(needs[sink], order);
      var d :| d in needs[sink] && d !in order;
      assert d in rest;
      EdgeIsNeed(needs, sink, d);
    }
  }

  lemma {:induction false} DistinctCovers<T>(s: set<T>, order: seq<T>)
    requires Distinct(order) && forall j | j in s :: j in order
    ensures |s| <= |order|
  {
    if order == [] {
      assert s == {};
    } else {
      var last := order[|order| - 1];
      forall j | j in s - {last} ensures j in order[..|order| - 1] {
        assert order == order[..|order| - 1] + [last];
      }
      DistinctCovers(s - {last}, order[..|order| - 1]);
    }
  }

  lemma {:induction false} OrderIsPermutation<T>(s: set<T>, order: seq<T>)
    requires Distinct(order) && |s| <= |order| && forall j | j in order :: j in s
    ensures multiset(order) == multiset(s) && forall j | j in s :: j in order
  {
    if order == [] {
      assert s == {};
    } else {
      var last := order[|order| - 1];
      var init := order[..|order| - 1];
      assert order == init + [last];
      DistinctSnoc(init, last);
      OrderIsPermutation(s - {last}, init);
    }
  }

  lemma PostorderIsAcyclic<T(!new)>(needs: Needs<T>, order: seq<T>)
    requires Postorder(needs, order) && forall j | j in needs :: j in order
    requires forall j | j in order :: j in needs
    ensures NeedsKnown(needs) && Acyclic(Edges(needs))
  {
    FinishedIsAcyclic(needs, order);
    forall j, d | j in needs && d in needs[j] ensures d in needs {
      var i :| 0 <= i < |order| && order[i] == j;
      assert AllIn(NeedsOf(needs, order[i]), order[..i]);
    }
  }

  // ---------------------------------------------------------------- validation

  /** A job as `Validate` sees it; `steps[i]` tells whether step i is well-formed. */
  datatype Job = Job(needs: seq<string>, steps: seq<bool>)

  datatype Spec = Spec(version: string, jobs: map<string, Job>) {
    function Needs(): Needs<string> {
      map j | j in jobs :: jobs[j].needs
    }
  }

  datatype ValidationError =
    | BadVersion
    | NoJobs
    | NoSteps(job: string)
    | BadStep(job: string, step: nat)
    | UnknownNeed(job: string, need: string)
    | SelfNeed(job: string)
    | DependencyCycle(walk: seq<string>)

  datatype Validation = Accepted | Rejected(error: ValidationError)

  const SCHEMA_VERSION := "1"

  ghost predicate JobWellFormed(p: Spec, name: string)
    requires name in p.jobs
  {
    var job := p.jobs[name];
    && job.steps != []
    && (forall i | 0 <= i < |job.steps| :: job.steps[i])
    && (forall d | d in job.needs :: d in p.jobs && d != name)
  }

  ghost predicate WellFormed(p: Spec) {
    && p.version == "1"
    && p.jobs != map[]
    && (forall name | name in p.jobs :: JobWellFormed(p, name))
    && Acyclic(Edges(p.Needs()))
  }

  /** The reported error is true of the document. */
  ghost predicate ErrorHolds(p: Spec, e: ValidationError) {
    match e
    case BadVersion => p.version != "1"
    case NoJobs => p.jobs == map[]
    case NoSteps(j) => j in p.jobs && p.jobs[j].steps == []
    case BadStep(j, i) => j in p.jobs && i < |p.jobs[j].steps| && !p.jobs[j].steps[i]
    case UnknownNeed(j, d) => j in p.jobs && d in p.jobs[j].needs && d !in p.jobs
    case SelfNeed(j) => j in p.jobs && j in p.jobs[j].needs
    case DependencyCycle(w) => IsClosedWalk(Edges(p.Needs()), w)
  }

  method ValidateJob(p: Spec, name: string) returns (r: Validation)
    requires name in p.jobs
    ensures r.Accepted? <==> JobWellFormed(p, name)
    ensures r.Rejected? ==> ErrorHolds(p, r.error)
  {
    var job := p.jobs[name];
    if |job.steps| == 0 { return Rejected(NoSteps(name)); }
    var i := 0;
    while i < |job.steps|
      invariant 0 <= i <= |job.steps|
      invariant forall k | 0 <= k < i :: job.steps[k]
    {
      if !job.steps[i] { return Rejected(BadStep(name, i)); }
      i := i + 1;
    }
    i := 0;
    while i < |job.needs|
      invariant 0 <= i <= |job.needs|
      invariant forall k | 0 <= k < i :: job.needs[k] in p.jobs && job.needs[k] != name
    {
      if job.needs[i] !in p.jobs { return Rejected(UnknownNeed(name, job.needs[i])); }
      if job.needs[i] == name { return Rejected(SelfNeed(name)); }
      i := i + 1;
    }
    r := Accepted;
  }

  /** A document is accepted exactly when it is well-formed; a rejection names a true defect. */
  method Validate(p: Spec) returns (r: Validation)
    ensures r.Accepted? <==> WellFormed(p)
    ensures r.Rejected? ==> ErrorHolds(p, r.error)
  {
    if p.version != SCHEMA_VERSION { return Rejected(BadVersion); }
    if |p.jobs| == 0 { return Rejected(NoJobs); }
    var names := JobNames(p.Needs());
    var i := 0;
    while i < |names|
      invariant 0 <= i <= |names|
      invariant forall k | 0 <= k < i :: names[k] in p.jobs && JobWellFormed(p, names[k])
    {
      assert names[i] in p.Needs();
      var v := ValidateJob(p, names[i]);
      if v.Rejected? { return v; }
      i := i + 1;
    }
    forall name | name in p.jobs ensures JobWellFormed(p, name) {
      assert name in names;
    }
    var c := FindCycle(p.Needs());
    if c.Cycle? { return Rejected(DependencyCycle(c.walk)); }
    r := Accepted;
  }

  /** Whatever validation accepts has a topological order, so `TopoOrder` never fails on it. */
  lemma AcceptedHasOrder(p: Spec)
    requires WellFormed(p)
    ensures NeedsKnown(p.Needs()) && Acyclic(Edges(p.Needs()))
  {
    forall j, d | j in p.Needs() && d in p.Needs()[j] ensures d in p.Needs() {
      assert JobWellFormed(p, j);
    }
  }
}
