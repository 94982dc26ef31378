/** The event feed from the table to the terminal: the rows (internal/storage/events.go), the
    replay and tail loop (internal/server/events.go) and the client that reconnects
    (cmd/cf/events.go). */
module EventFeed {
  import opened EventStream
  import opened Options

  // ---------------------------------------------------------------- the table

  ghost predicate Ascending(rows: seq<Event>) {
    forall i, j | 0 <= i < j < |rows| :: rows[i].id < rows[j].id
  }

  /** A subscription; repository 0 and no types stand for every repository and every type. */
  datatype Filter = Filter(repo: nat, types: set<string>)
  {
    predicate HasRepo(e: Event) { repo == 0 || e.repo == repo }
    predicate HasType(e: Event) { types == {} || e.kind in types }
    predicate Wants(e: Event) { HasRepo(e) && HasType(e) }
    function AnyType(): Filter { Filter(repo, {}) }
  }

  /** What a subscription is for. */
  ghost predicate Wanted(f: Filter, e: Event) {
    (f.repo == 0 || e.repo == f.repo) && (f.types == {} || e.kind in f.types)
  }

  lemma WantsExact(f: Filter, e: Event)
    ensures f.Wants(e) <==> Wanted(f, e)
  {
  }

  const EVERYTHING := Filter(0, {})

  /** The rows with an id above `since` that a filter wants, in their order. */
  function Select(rows: seq<Event>, since: int, f: Filter): seq<Event> {
    if rows == [] then []
    else if rows[0].id > since && f.Wants(rows[0]) then [rows[0]] + Select(rows[1..], since, f)
    else Select(rows[1..], since, f)
  }

  function Since(rows: seq<Event>, since: int, repo: nat, limit: int): seq<Event> {
    var found := Select(rows, since, Filter(repo, {}));
    var n := if limit <= 0 then 500 else limit;
    if |found| <= n then found else found[..n]
  }

  /** The feed when it is read: every event ever appended, of which those up to `pruned` are gone. */
  datatype Snapshot = Snapshot(log: seq<Event>, pruned: int)
  {
    function Rows(): seq<Event> { Select(log, pruned, EVERYTHING) }
  }

  /** The feed with the highest id handed out so far. */
  datatype Table = Table(snap: Snapshot, lastId: nat)

  datatype TableOp = Append(kind: string, repo: nat, rest: string) | Prune(keep: int) | Read

  /** One call on the table. Ids grow and are never handed out again, not even after a deletion. */
  ghost predicate TableStep(t: Table, op: TableOp, t': Table) {
    match op
    case Append(kind, repo, rest) =>
      t'.lastId > t.lastId && t'.snap == t.snap.(log := t.snap.log + [Event(t'.lastId, kind, repo, rest)])
    case Prune(_) => t'.lastId == t.lastId && t'.snap.log == t.snap.log && t'.snap.pruned >= t.snap.pruned
    case Read => t' == t
  }

  class EventTable {
    var rows: seq<Event>
    var lastId: nat
    /** Every event ever appended, and up to which id they have been pruned. */
    ghost var log: seq<Event>
    ghost var pruned: int

    ghost predicate Valid()
      reads this
    {
      && Ascending(log) && (forall i | 0 <= i < |log| :: log[i].id <= lastId)
      && pruned <= lastId && rows == Snap().Rows()
    }

    ghost function Snap(): Snapshot
      reads this
    {
      Snapshot(log, pruned)
    }

    ghost function View(): Table
      reads this
    {
      Table(Snap(), lastId)
    }

    constructor ()
      ensures Valid() && rows == [] && View() == NEW_TABLE
    {
      rows, lastId, log, pruned := [], 0, [], 0;
    }

    method AppendEvent(kind: string, repo: nat, rest: string) returns (id: nat)
      requires Valid()
      modifies this
      ensures Valid() && id > old(lastId) && lastId == id && pruned == old(pruned)
      ensures rows == old(rows) + [Event(id, kind, repo, rest)] && log == old(log) + [Event(id, kind, repo, rest)]
      ensures TableStep(old(View()), Append(kind, repo, rest), View())
    {
      lastId := lastId + 1;
      id := lastId;
      var e := Event(id, kind, repo, rest);
      SelectConcat(log, [e], pruned, EVERYTHING);
      SelectCons([e], pruned, EVERYTHING);
      assert Select([e], pruned, EVERYTHING) == [e] by { assert [e][1..] == []; }
      rows, log := rows + [e], log + [e];
    }

    /** The first rows of the repository above the position, 500 of them unless a limit is given. */
    method ListEventsSince(since: int, repo: nat, limit: int) returns (events: seq<Event>)
      requires Valid()
      ensures events == Since(rows, since, repo, limit)
      ensures NextRows(rows, since, repo, if limit <= 0 then 500 else limit, events)
    {
      hide Select, NextRows, Wanted;
      var n := if limit <= 0 then 500 else limit;
      events := [];
      var i := 0;
      while i < |rows| && |events| < n
        invariant 0 <= i <= |rows| && |events| <= n
        invariant Select(rows, since, Filter(repo, {})) == events + Select(rows[i..], since, Filter(repo, {}))
      {
        SelectCons(rows[i..], since, Filter(repo, {}));
        if rows[i].id > since && Filter(repo, {}).Wants(rows[i]) { events := events + [rows[i]]; }
        i := i + 1;
      }
      SelectNothing(since, Filter(repo, {}));
      RowsOfLog(log, pruned, lastId);
      FirstSelected(rows, since, repo, n);
    }

    /** Removes the rows up to the highest id less `keep`; at most `keep` rows stay. */
    method PruneEvents(keep: int) returns (removed: nat)
      requires Valid()
      modifies this
      ensures Valid() && lastId == old(lastId) && log == old(log) && pruned >= old(pruned)
      ensures TableStep(old(View()), Prune(keep), View())
      ensures removed == |old(rows)| - |rows|
      ensures keep <= 0 || old(rows) == [] ==> rows == old(rows)
      ensures keep > 0 && old(rows) != [] ==>
                rows == Select(old(rows), old(rows)[|old(rows)| - 1].id - keep, EVERYTHING) && |rows| <= keep
    {
      hide Select;
      RowsOfLog(log, pruned, lastId);
      if keep <= 0 || rows == [] { return 0; }
      var max := rows[|rows| - 1].id;
      var kept := Select(rows, max - keep, EVERYTHING);
      KeptRows(rows, max, keep);
      PruneTwice(log, pruned, max - keep);
      pruned := if max - keep >= pruned then max - keep else pruned;
      removed := |rows| - |kept|;
      rows := kept;
    }
  }

  /** The first n of the repository's rows above the position, in ascending order; if there are fewer,
      all of them. */
  ghost predicate NextRows(rows: seq<Event>, since: int, repo: nat, n: int, events: seq<Event>) {
    && Ascending(events) && |events| <= n
    && (forall e | e in events :: e in rows && e.id > since && (repo == 0 || e.repo == repo))
    && forall e | e in rows && e.id > since && (repo == 0 || e.repo == repo) && e !in events ::
         |events| == n && forall d | d in events :: d.id < e.id
  }

  lemma SelectNothing(since: int, f: Filter)
    ensures Select([], since, f) == []
  {
  }

  lemma FirstSelected(rows: seq<Event>, since: int, repo: nat, n: nat)
    requires Ascending(rows)
    ensures var found := Select(rows, since, Filter(repo, {}));
            var first := if |found| <= n then found else found[..n];
            NextRows(rows, since, repo, n, first)
  {
    var f := Filter(repo, {});
    SelectedRows(rows, since, f);
    hide Select;
    var found := Select(rows, since, f);
    var first := if |found| <= n then found else found[..n];
    assert forall i | 0 <= i < |first| :: first[i] == found[i];
    forall e | e in rows && e.id > since && (repo == 0 || e.repo == repo) && e !in first
      ensures |first| == n && forall d | d in first :: d.id < e.id
    {
      assert Wanted(f, e);
      var k :| 0 <= k < |found| && found[k] == e;
      assert k >= |first|;
    }
  }

  lemma RowsOfLog(log: seq<Event>, pruned: int, lastId: nat)
    requires Ascending(log) && forall i | 0 <= i < |log| :: log[i].id <= lastId
    ensures var rows := Select(log, pruned, EVERYTHING);
            Ascending(rows) && (rows != [] ==> rows[|rows| - 1].id <= lastId)
  {
    SelectedRows(log, pruned, EVERYTHING);
    var rows := Select(log, pruned, EVERYTHING);
    hide Select;
    if rows != [] { assert rows[|rows| - 1] in rows && rows[|rows| - 1] in log; }
  }

  /** Pruning again is pruning once, up to the later bound. */
  lemma PruneTwice(log: seq<Event>, pruned: int, later: int)
    ensures Select(Select(log, pruned, EVERYTHING), later, EVERYTHING) ==
              Select(log, if later >= pruned then later else pruned, EVERYTHING)
  {
    hide Select;
    if later >= pruned { SelectTwice(log, pruned, later, EVERYTHING); } else { SelectLower(log, pruned, later); }
  }

  lemma KeptRows(rows: seq<Event>, max: int, keep: int)
    requires Ascending(rows) && keep > 0 && rows != [] && max == rows[|rows| - 1].id
    ensures var kept := Select(rows, max - keep, EVERYTHING); |kept| <= keep && |kept| <= |rows|
  {
    SelectedRows(rows, max - keep, EVERYTHING);
    var kept := Select(rows, max - keep, EVERYTHING);
    hide Select;
    forall i | 0 <= i < |kept| ensures max - keep < kept[i].id <= max {
      assert kept[i] in kept && kept[i] in rows;
    }
    FewKept(kept, max, keep);
  }

  /** Selecting below what is already gone removes nothing more. */
  lemma {:induction false} SelectLower(rows: seq<Event>, pruned: int, since: int)
    requires since <= pruned
    ensures Select(Select(rows, pruned, EVERYTHING), since, EVERYTHING) == Select(rows, pruned, EVERYTHING)
  {
    if rows != [] {
      SelectLower(rows[1..], pruned, since);
      var rest := Select(rows[1..], pruned, EVERYTHING);
      assert ([rows[0]] + rest)[1..] == rest;
    }
  }

  lemma {:induction false} SelectedRows(rows: seq<Event>, since: int, f: Filter)
    requires Ascending(rows)
    ensures var s := Select(rows, since, f);
            Ascending(s) && |s| <= |rows| && forall e :: e in s <==> e in rows && e.id > since && Wanted(f, e)
  {
    hide Wanted, Filter.Wants;
    if rows != [] {
      SelectedRows(rows[1..], since, f);
      WantsExact(f, rows[0]);
      assert rows == [rows[0]] + rows[1..];
      assert forall e | e in rows[1..] :: e.id > rows[0].id;
    }
  }

  lemma FewKept(kept: seq<Event>, max: int, keep: int)
    requires Ascending(kept) && keep > 0 && forall i | 0 <= i < |kept| :: max - keep < kept[i].id <= max
    ensures |kept| <= keep
  {
    if kept != [] { Climbs(kept, |kept| - 1); }
  }

  lemma {:induction false} Climbs(rows: seq<Event>, k: nat)
    requires Ascending(rows) && k < |rows|
    ensures rows[k].id >= rows[0].id + k
  {
    if k > 0 { Climbs(rows, k - 1); }
  }

  // ---------------------------------------------------------------- selections

  lemma SelectCons(rows: seq<Event>, since: int, f: Filter)
    requires rows != []
    ensures Select(rows, since, f) == if rows[0].id > since && f.Wants(rows[0])
              then [rows[0]] + Select(rows[1..], since, f) else Select(rows[1..], since, f)
  {
  }

  /** The first row is not among those selected above the id of a selected row. */
  lemma SelectPast(rows: seq<Event>, since: int, f: Filter, k: nat) returns (first: nat)
    requires Ascending(rows) && 0 < k <= |Select(rows, since, f)|
    ensures rows != [] && first <= 1 && (first == 1 <==> rows[0].id > since && f.Wants(rows[0]))
    ensures var s, rest := Select(rows, since, f), Select(rows[1..], since, f);
            && s[first..] == rest && first <= k && (k > first ==> s[k - 1] == rest[k - first - 1])
            && (k == first ==> s[k - 1] == rows[0])
            && Select(rows, s[k - 1].id, f) == Select(rows[1..], s[k - 1].id, f)
  {
    first := if rows[0].id > since && f.Wants(rows[0]) then 1 else 0;
    var s, rest := Select(rows, since, f), Select(rows[1..], since, f);
    SelectCons(rows, since, f);
    SelectCons(rows, s[k - 1].id, f);
    SelectedRows(rows[1..], since, f);
    hide Select;
    assert s[first..] == rest;
    if k > first { assert s[k - 1] == rest[k - first - 1] && s[k - 1] in rest; }
  }

  /** Selecting above the id of a selected row gives the rows selected after it. */
  lemma {:induction false} SelectAfter(rows: seq<Event>, since: int, f: Filter, k: nat)
    requires Ascending(rows) && k <= |Select(rows, since, f)|
    ensures var s := Select(rows, since, f);
            Select(rows, if k == 0 then since else s[k - 1].id, f) == s[k..]
  {
    hide Select;
    if k > 0 {
      var first := SelectPast(rows, since, f, k);
      assert Select(rows, since, f)[k..] == Select(rows[1..], since, f)[k - first..];
      if k == first {
        AllAbove(rows[1..], since, rows[0].id, f);
      } else {
        SelectAfter(rows[1..], since, f, k - first);
      }
    }
  }

  lemma {:induction false} AllAbove(rows: seq<Event>, a: int, b: int, f: Filter)
    requires forall i | 0 <= i < |rows| :: rows[i].id > a && rows[i].id > b
    ensures Select(rows, a, f) == Select(rows, b, f)
  {
    if rows != [] { AllAbove(rows[1..], a, b, f); }
  }

  lemma {:induction false} SelectConcat(a: seq<Event>, b: seq<Event>, since: int, f: Filter)
    ensures Select(a + b, since, f) == Select(a, since, f) + Select(b, since, f)
  {
    if a == [] {
      assert a + b == b;
    } else {
      assert (a + b)[0] == a[0] && (a + b)[1..] == a[1..] + b;
      SelectConcat(a[1..], b, since, f);
    }
  }

  /** Rows pruned at or below `since` are not missed. */
  lemma {:induction false} SelectTwice(rows: seq<Event>, pruned: int, since: int, f: Filter)
    requires pruned <= since
    ensures Select(Select(rows, pruned, EVERYTHING), since, f) == Select(rows, since, f)
  {
    if rows != [] {
      SelectTwice(rows[1..], pruned, since, f);
      var rest := Select(rows[1..], pruned, EVERYTHING);
      assert ([rows[0]] + rest)[1..] == rest;
    }
  }

  // ---------------------------------------------------------------- the server's loop

  const BATCH := 500

  function Frames(batch: seq<Event>, f: Filter): seq<Chunk> {
    if batch == [] then []
    else if f.HasType(batch[0]) then [Frame(batch[0])] + Frames(batch[1..], f)
    else Frames(batch[1..], f)
  }

  function LastOf(batch: seq<Event>, last: int): int {
    if batch == [] then last else batch[|batch| - 1].id
  }

  /** What is written to a client that stays connected for the given reads of the table. */
  function Serve(f: Filter, once: bool, last: int, snaps: seq<Snapshot>): seq<Chunk>
    decreases |snaps|
  {
    if snaps == [] then []
    else
      var batch := Since(snaps[0].Rows(), last, f.repo, BATCH);
      var next := LastOf(batch, last);
      if |batch| == BATCH then Frames(batch, f) + Serve(f, once, next, snaps[1..])
      else if once then Frames(batch, f)
      else Frames(batch, f) + [Ping] + Serve(f, once, next, snaps[1..])
  }

  /** Writes the wanted events of a batch; every row moves the position on. */
  method SendBatch(batch: seq<Event>, f: Filter, since: int) returns (chunks: seq<Chunk>, lastSeq: int)
    ensures chunks == Frames(batch, f) && lastSeq == LastOf(batch, since)
  {
    chunks, lastSeq := [], since;
    var k := 0;
    while k < |batch|
      invariant 0 <= k <= |batch|
      invariant Frames(batch, f) == chunks + Frames(batch[k..], f)
      invariant lastSeq == LastOf(batch[..k], since)
    {
      lastSeq := batch[k].id;
      if f.HasType(batch[k]) { chunks := chunks + [Frame(batch[k])]; }
      k := k + 1;
    }
    assert batch[..k] == batch && batch[k..] == [];
  }

  /** One round of the loop: the chunks written so far, and those still to come. */
  lemma ServeStep(f: Filter, once: bool, last: int, snaps: seq<Snapshot>, i: nat, before: seq<Chunk>)
    requires i < |snaps|
    ensures var batch := Since(snaps[i].Rows(), last, f.repo, BATCH);
            var next := LastOf(batch, last);
            var sent := before + Frames(batch, f);
            before + Serve(f, once, last, snaps[i..]) ==
              if |batch| == BATCH then sent + Serve(f, once, next, snaps[i + 1..])
              else if once then sent
              else sent + [Ping] + Serve(f, once, next, snaps[i + 1..])
  {
    hide Since, Frames, LastOf;
    var batch := Since(snaps[i].Rows(), last, f.repo, BATCH);
    var rest := Serve(f, once, LastOf(batch, last), snaps[i + 1..]);
    assert snaps[i..][0] == snaps[i] && snaps[i..][1..] == snaps[i + 1..];
    assert before + (Frames(batch, f) + rest) == before + Frames(batch, f) + rest;
    assert before + (Frames(batch, f) + [Ping] + rest) == before + Frames(batch, f) + [Ping] + rest;
  }

  method HandleEvents(f: Filter, once: bool, since: int, snaps: seq<Snapshot>) returns (chunks: seq<Chunk>)
    ensures chunks == Serve(f, once, since, snaps)
  {
    hide Since, Frames, LastOf, Serve;
    chunks := [];
    var lastSeq := since;
    var i := 0;
    assert snaps[0..] == snaps && [] + Serve(f, once, since, snaps) == Serve(f, once, since, snaps);
    while i < |snaps|
      invariant 0 <= i <= |snaps|
      invariant Serve(f, once, since, snaps) == chunks + Serve(f, once, lastSeq, snaps[i..])
    {
      ServeStep(f, once, lastSeq, snaps, i, chunks);
      var batch := Since(snaps[i].Rows(), lastSeq, f.repo, BATCH);
      var sent, last := SendBatch(batch, f, lastSeq);
      lastSeq := last;
      chunks := chunks + sent;
      if |batch| != BATCH {
        if once { return; }
        chunks := chunks + [Ping];
      }
      i := i + 1;
    }
    assert snaps[i..] == [];
    NothingToServe(f, once, lastSeq);
    assert chunks + [] == chunks;
  }

  lemma NothingToServe(f: Filter, once: bool, last: int)
    ensures Serve(f, once, last, []) == []
  {
  }

  lemma {:induction false} EventsConcat(a: seq<Chunk>, b: seq<Chunk>)
    ensures Events(a + b) == Events(a) + Events(b)
  {
    if a == [] {
      assert a + b == b;
    } else {
      assert (a + b)[0] == a[0] && (a + b)[1..] == a[1..] + b;
      EventsConcat(a[1..], b);
    }
  }

  /** The frames written for rows of the repository are its events of the wanted types. */
  lemma {:induction false} FramesAreWanted(rows: seq<Event>, since: int, f: Filter)
    ensures Events(Frames(Select(rows, since, f.AnyType()), f)) == Select(rows, since, f)
  {
    if rows != [] {
      FramesAreWanted(rows[1..], since, f);
      var rest := Select(rows[1..], since, f.AnyType());
      if rows[0].id > since && f.HasRepo(rows[0]) {
        assert ([rows[0]] + rest)[1..] == rest;
        assert f.Wants(rows[0]) <==> f.HasType(rows[0]);
        if f.HasType(rows[0]) { assert ([Frame(rows[0])] + Frames(rest, f))[1..] == Frames(rest, f); }
      }
    }
  }

  lemma {:induction false} FramesConcat(a: seq<Event>, b: seq<Event>, f: Filter)
    ensures Frames(a + b, f) == Frames(a, f) + Frames(b, f)
  {
    if a == [] {
      assert a + b == b;
    } else {
      assert (a + b)[0] == a[0] && (a + b)[1..] == a[1..] + b;
      FramesConcat(a[1..], b, f);
    }
  }

  /** A read takes the next events of every later log. */
  lemma BatchIsNext(snap: Snapshot, log: seq<Event>, last: int, f: Filter)
    requires Ascending(log) && snap.log <= log && snap.pruned <= last
    ensures var batch := Since(snap.Rows(), last, f.repo, BATCH);
            Select(log, last, f) == Events(Frames(batch, f)) + Select(log, LastOf(batch, last), f) &&
            (snap.log == log && |batch| < BATCH ==> Select(log, LastOf(batch, last), f) == [])
  {
    var batch := Since(snap.Rows(), last, f.repo, BATCH);
    var s := Select(log, last, f.AnyType());
    SelectTwice(snap.log, snap.pruned, last, f.AnyType());
    assert log == snap.log + log[|snap.log|..];
    SelectConcat(snap.log, log[|snap.log|..], last, f.AnyType());
    assert batch == s[..|batch|] && s == batch + s[|batch|..];
    SelectAfter(log, last, f.AnyType(), |batch|);
    FramesAreWanted(log, last, f);
    FramesAreWanted(log, LastOf(batch, last), f);
    FramesConcat(batch, s[|batch|..], f);
    EventsConcat(Frames(batch, f), Frames(s[|batch|..], f));
  }

  /** The connection ends after this read: the client is gone or, in snapshot mode, has it all. */
  predicate LastRead(once: bool, batch: seq<Event>, snaps: seq<Snapshot>) {
    |snaps| == 1 || (once && |batch| != 500)
  }

  function NextBatch(f: Filter, last: int, snaps: seq<Snapshot>): seq<Event>
    requires snaps != []
  {
    Since(snaps[0].Rows(), last, f.repo, 500)
  }

  /** Nothing is pruned before the connection has read past it. */
  ghost predicate Undisturbed(f: Filter, once: bool, last: int, snaps: seq<Snapshot>)
    decreases |snaps|
  {
    snaps == [] ||
    (var batch := NextBatch(f, last, snaps);
     snaps[0].pruned <= last &&
     (LastRead(once, batch, snaps) || Undisturbed(f, once, LastOf(batch, last), snaps[1..])))
  }

  /** Where a connection stands in the feed when it ends. */
  function Position(f: Filter, once: bool, last: int, snaps: seq<Snapshot>): int
    decreases |snaps|
  {
    if snaps == [] then last
    else
      var batch := NextBatch(f, last, snaps);
      if LastRead(once, batch, snaps) then LastOf(batch, last)
      else Position(f, once, LastOf(batch, last), snaps[1..])
  }

  /** The last read of the connection found no full batch of the whole log. */
  ghost predicate Drained(f: Filter, once: bool, last: int, snaps: seq<Snapshot>, log: seq<Event>)
    decreases |snaps|
  {
    snaps != [] &&
    var batch := NextBatch(f, last, snaps);
    if LastRead(once, batch, snaps) then snaps[0].log == log && |batch| < 500
    else Drained(f, once, LastOf(batch, last), snaps[1..], log)
  }

  ghost predicate PartOf(snaps: seq<Snapshot>, log: seq<Event>) {
    forall i | 0 <= i < |snaps| :: snaps[i].log <= log
  }

  // ---------------------------------------------------------------- reads of one table

  const NEW_TABLE := Table(Snapshot([], 0), 0)

  datatype TableEvent = TableEvent(op: TableOp, after: Table)

  ghost predicate IsTableRun(t: Table, run: seq<TableEvent>)
    decreases |run|
  {
    run == [] || (TableStep(t, run[0].op, run[0].after) && IsTableRun(run[0].after, run[1..]))
  }

  ghost function LastTable(t: Table, run: seq<TableEvent>): Table {
    if run == [] then t else run[|run| - 1].after
  }

  ghost predicate TableOk(t: Table) {
    Ascending(t.snap.log) && forall e | e in t.snap.log :: e.id <= t.lastId
  }

  lemma TableStepOk(t: Table, op: TableOp, t': Table)
    requires TableOk(t) && TableStep(t, op, t')
    ensures TableOk(t') && t.snap.log <= t'.snap.log && t.snap.pruned <= t'.snap.pruned
  {
  }

  /** Over any appends, prunes and reads the log stays ascending, and what an earlier state shows is
      part of what any later one does. */
  lemma {:induction false} LogsGrow(t: Table, run: seq<TableEvent>)
    requires TableOk(t) && IsTableRun(t, run)
    ensures var last := LastTable(t, run); TableOk(last) && t.snap.log <= last.snap.log && t.snap.pruned <= last.snap.pruned
    ensures forall i | 0 <= i < |run| ::
              run[i].after.snap.log <= LastTable(t, run).snap.log && run[i].after.snap.pruned <= LastTable(t, run).snap.pruned
    decreases |run|
  {
    hide TableOk, TableStep;
    if run != [] {
      TableStepOk(t, run[0].op, run[0].after);
      LogsGrow(run[0].after, run[1..]);
      assert LastTable(run[0].after, run[1..]) == LastTable(t, run);
      assert forall i | 1 <= i < |run| :: run[i] == run[1..][i - 1];
    }
  }

  /** The snapshots were taken at reads of the run, in any order and by whomever. */
  ghost predicate ReadIn(snaps: seq<Snapshot>, run: seq<TableEvent>) {
    forall k | 0 <= k < |snaps| :: WasRead(snaps[k], run)
  }

  ghost predicate WasRead(snap: Snapshot, run: seq<TableEvent>) {
    exists i | 0 <= i < |run| :: run[i].op.Read? && run[i].after.snap == snap
  }

  /** What is read of a table in the course of any appends, prunes and reads is part of its log. */
  lemma ReadsArePartOfLog(run: seq<TableEvent>, snaps: seq<Snapshot>)
    requires IsTableRun(NEW_TABLE, run) && ReadIn(snaps, run)
    ensures var log := LastTable(NEW_TABLE, run).snap.log; Ascending(log) && PartOf(snaps, log)
  {
    LogsGrow(NEW_TABLE, run);
    forall k | 0 <= k < |snaps| ensures snaps[k].log <= LastTable(NEW_TABLE, run).snap.log {
      assert WasRead(snaps[k], run);
      var i :| 0 <= i < |run| && run[i].op.Read? && run[i].after.snap == snaps[k];
    }
  }

  /** The events of a connection, one read at a time. */
  lemma ServeUnfold(f: Filter, once: bool, last: int, snaps: seq<Snapshot>)
    requires snaps != []
    ensures var batch := NextBatch(f, last, snaps);
            Events(Serve(f, once, last, snaps)) == Events(Frames(batch, f)) +
              if LastRead(once, batch, snaps) then [] else Events(Serve(f, once, LastOf(batch, last), snaps[1..]))
  {
    hide Since, Frames, LastOf, Select;
    var batch := NextBatch(f, last, snaps);
    var rest := Serve(f, once, LastOf(batch, last), snaps[1..]);
    EventsConcat(Frames(batch, f), rest);
    EventsConcat(Frames(batch, f), [Ping] + rest);
    assert Frames(batch, f) + [Ping] + rest == Frames(batch, f) + ([Ping] + rest);
    assert ([Ping] + rest)[1..] == rest;
    if |snaps| == 1 { assert rest == [] && Events(rest) == []; }
    assert Events(Frames(batch, f)) + [] == Events(Frames(batch, f));
  }

  /** A connection sends the next wanted events of the log, each once and in order. */
  lemma {:induction false} ServeSends(f: Filter, once: bool, last: int, snaps: seq<Snapshot>, log: seq<Event>)
    requires Ascending(log) && PartOf(snaps, log) && Undisturbed(f, once, last, snaps)
    ensures Select(log, last, f) == Events(Serve(f, once, last, snaps)) + Select(log, Position(f, once, last, snaps), f)
    ensures Drained(f, once, last, snaps, log) ==> Select(log, Position(f, once, last, snaps), f) == []
    decreases |snaps|
  {
    hide Serve, Events, Frames, LastOf, Select, NextBatch;
    if snaps == [] {
      NothingServed(f, once, last);
    } else {
      var batch := NextBatch(f, last, snaps);
      ServeUnfold(f, once, last, snaps);
      NextBatchIs(f, last, snaps);
      BatchIsNext(snaps[0], log, last, f);
      if !LastRead(once, batch, snaps) {
        ServeSends(f, once, LastOf(batch, last), snaps[1..], log);
      }
    }
  }

  lemma NextBatchIs(f: Filter, last: int, snaps: seq<Snapshot>)
    requires snaps != []
    ensures NextBatch(f, last, snaps) == Since(snaps[0].Rows(), last, f.repo, BATCH)
  {
  }

  lemma NothingServed(f: Filter, once: bool, last: int)
    ensures Events(Serve(f, once, last, [])) == []
  {
  }

  // ---------------------------------------------------------------- whatever is pruned

  /** A read passes the events between its position and its last row. It sends those that are wanted,
      and misses those pruned before. */
  lemma BatchIsExact(snap: Snapshot, log: seq<Event>, last: int, f: Filter)
    requires Ascending(log) && snap.log <= log
    ensures var batch := Since(snap.Rows(), last, f.repo, BATCH);
            var sent, next := Events(Frames(batch, f)), LastOf(batch, last);
            && Ascending(sent) && last <= next
            && (forall e :: e in sent <==> e in log && last < e.id <= next && Wanted(f, e) && e.id > snap.pruned)
  {
    hide Select, Frames, Events;
    var rows := snap.Rows();
    SelectedRows(snap.log, snap.pruned, EVERYTHING);
    var found := Select(rows, last, f.AnyType());
    SelectedRows(rows, last, f.AnyType());
    var batch := Since(rows, last, f.repo, BATCH);
    assert batch <= found;
    PrefixExact(found, batch, last);
    FramesExact(batch, f);
    if batch != [] { InPrefix(log, snap.log, batch[|batch| - 1]); }
  }

  /** Of ascending events a prefix holds those up to its last. */
  lemma PrefixExact(found: seq<Event>, batch: seq<Event>, last: int)
    requires Ascending(found) && batch <= found && forall e | e in found :: e.id > last
    ensures Ascending(batch) && last <= LastOf(batch, last)
    ensures forall e :: e in batch <==> e in found && e.id <= LastOf(batch, last)
    ensures batch != [] ==> batch[|batch| - 1] in found
  {
    assert forall i | 0 <= i < |batch| :: batch[i] == found[i];
    if batch != [] { assert batch[|batch| - 1] in found; }
  }

  lemma {:induction false} FramesExact(batch: seq<Event>, f: Filter)
    requires Ascending(batch)
    ensures var sent := Events(Frames(batch, f)); Ascending(sent) && forall e :: e in sent <==> e in batch && f.HasType(e)
  {
    if batch != [] {
      FramesExact(batch[1..], f);
      var rest := Frames(batch[1..], f);
      assert forall e | e in batch[1..] :: e.id > batch[0].id;
      assert batch == [batch[0]] + batch[1..];
      if f.HasType(batch[0]) {
        assert ([Frame(batch[0])] + rest)[1..] == rest;
        assert Events(Frames(batch, f)) == [batch[0]] + Events(rest);
      }
    }
  }

  lemma InPrefix(log: seq<Event>, part: seq<Event>, e: Event)
    requires Ascending(log) && part <= log && e in part
    ensures forall d | d in log && d.id <= e.id :: d in part
  {
    var k :| 0 <= k < |part| && part[k] == e;
    forall d | d in log && d.id <= e.id ensures d in part {
      var i :| 0 <= i < |log| && log[i] == d;
      assert log[k] == e && i <= k;
      assert part[i] == d;
    }
  }

  /** The read of the connection that passed the id came after it was pruned. */
  ghost predicate PrunedBeforeRead(f: Filter, once: bool, last: int, snaps: seq<Snapshot>, id: int)
    decreases |snaps|
  {
    snaps != [] &&
    var batch := NextBatch(f, last, snaps);
    if last < id <= LastOf(batch, last) then id <= snaps[0].pruned
    else !LastRead(once, batch, snaps) && PrunedBeforeRead(f, once, LastOf(batch, last), snaps[1..], id)
  }

  /** Under any pruning a connection sends, in ascending order, exactly the wanted events up to the
      position it reaches that were not pruned before they were read. */
  lemma {:induction false} ServeExact(f: Filter, once: bool, last: int, snaps: seq<Snapshot>, log: seq<Event>)
    requires Ascending(log) && PartOf(snaps, log)
    ensures var sent, end := Events(Serve(f, once, last, snaps)), Position(f, once, last, snaps);
            && Ascending(sent) && last <= end
            && forall e :: e in sent <==>
                 e in log && last < e.id <= end && Wanted(f, e) && !PrunedBeforeRead(f, once, last, snaps, e.id)
    decreases |snaps|
  {
    hide Serve, Events, Frames, LastOf, Select, NextBatch, Wanted;
    if snaps == [] {
      NothingServed(f, once, last);
    } else {
      var batch := NextBatch(f, last, snaps);
      ServeUnfold(f, once, last, snaps);
      NextBatchIs(f, last, snaps);
      BatchIsExact(snaps[0], log, last, f);
      if !LastRead(once, batch, snaps) {
        var next := LastOf(batch, last);
        ServeExact(f, once, next, snaps[1..], log);
        AscendingJoin(Events(Frames(batch, f)), Events(Serve(f, once, next, snaps[1..])), next);
      }
    }
  }

  lemma AscendingJoin(a: seq<Event>, b: seq<Event>, mid: int)
    requires Ascending(a) && Ascending(b) && (forall e | e in a :: e.id <= mid) && (forall e | e in b :: e.id > mid)
    ensures Ascending(a + b)
  {
    var t := a + b;
    forall i, j | 0 <= i < j < |t| ensures t[i].id < t[j].id {
      if i < |a| <= j { assert t[i] in a && t[j] in b; }
    }
  }
}
