/** `cf events` (`runEvents` in cmd/cf/events.go): delivery over any number of dropped
    connections. */
module FeedSession {
  import opened EventFeed
  import opened EventStream
  import opened Options

  /** A try to connect: a stream, with the server's reads of the table while it lasts and how many
      of the bytes written reach the client; no answer; or an answer that is not a stream. */
  datatype Connection = Connection(snaps: seq<Snapshot>, cut: nat) | Unreachable | Refused

  function Arriving(json: Json, f: Filter, once: bool, last: nat, c: Connection): string
    requires c.Connection?
  {
    var w := Wire(json, Serve(f, once, last, c.snaps));
    if c.cut < |w| then w[..c.cut] else w
  }

  /** The client's part of one try: what it prints and the id it resumes from. */
  function Connect(json: Json, f: Filter, once: bool, last: nat, c: Connection): Reader {
    if c.Connection? then ReadStream(json, last, Arriving(json, f, once, last, c)) else Reader("", last, [])
  }

  /** The printed events and the last id of a client that reconnects; a snapshot is not resumed and
      a refusal ends the session. */
  function Session(json: Json, f: Filter, once: bool, last: nat, conns: seq<Connection>): (seq<Event>, nat)
    decreases |conns|
  {
    if conns == [] then ([], last)
    else
      var r := Connect(json, f, once, last, conns[0]);
      if once || conns[0].Refused? then (r.printed, r.lastSeq)
      else var (printed, end) := Session(json, f, once, r.lastSeq, conns[1..]); (r.printed + printed, end)
  }

  /** One try, server and client side. */
  method Receive(json: Json, f: Filter, once: bool, last: nat, c: Connection) returns (r: Reader)
    ensures r == Connect(json, f, once, last, c)
  {
    if !c.Connection? { return Reader("", last, []); }
    var sent := HandleEvents(f, once, last, c.snaps);
    var wire := Wire(json, sent);
    r := StreamEvents(json, last, if c.cut < |wire| then wire[..c.cut] else wire);
  }

  method RunEvents(json: Json, f: Filter, once: bool, since: nat, conns: seq<Connection>)
    returns (printed: seq<Event>, lastSeq: nat)
    ensures (printed, lastSeq) == Session(json, f, once, since, conns)
  {
    hide Connect;
    printed, lastSeq := [], since;
    var i := 0;
    assert conns[0..] == conns && [] + Session(json, f, once, since, conns).0 == Session(json, f, once, since, conns).0;
    while i < |conns|
      invariant 0 <= i <= |conns|
      invariant Session(json, f, once, since, conns)
             == (printed + Session(json, f, once, lastSeq, conns[i..]).0, Session(json, f, once, lastSeq, conns[i..]).1)
    {
      ghost var before, rest := printed, conns[i + 1..];
      assert conns[i..][0] == conns[i] && conns[i..][1..] == rest;
      var r := Receive(json, f, once, lastSeq, conns[i]);
      printed, lastSeq := printed + r.printed, r.lastSeq;
      if once || conns[i].Refused? { return; }
      assert before + (r.printed + Session(json, f, once, lastSeq, rest).0)
          == printed + Session(json, f, once, lastSeq, rest).0;
      i := i + 1;
    }
    assert conns[i..] == [] && printed + [] == printed;
  }

  // ---------------------------------------------------------------- one connection

  lemma {:induction false} SentIsSound(json: Json, chunks: seq<Chunk>)
    requires forall e | e in Events(chunks) :: json.Ok(e) && '\n' !in e.kind
    ensures AllSound(json, chunks)
  {
    if chunks != [] {
      assert forall e | e in Events(chunks[1..]) :: e in Events(chunks);
      SentIsSound(json, chunks[1..]);
      assert chunks[0].Frame? ==> Events(chunks)[0] == chunks[0].event;
      assert forall i | 1 <= i < |chunks| :: chunks[i] == chunks[1..][i - 1];
    }
  }

  lemma {:induction false} DeliveredUpTo(r: Reader, events: seq<Event>)
    requires Ascending(events) && forall i | 0 <= i < |events| :: events[i].id > r.lastSeq
    ensures Delivered(r, events).lastSeq == if events == [] then r.lastSeq else events[|events| - 1].id
    ensures Delivered(r, events).printed == r.printed + events
    decreases |events|
  {
    DeliveredData(r, events);
    if events != [] {
      DeliveredOne(r, events[0]);
      DeliveredConcat(r, [events[0]], events[1..]);
      assert events == [events[0]] + events[1..];
      DeliveredUpTo(Delivered(r, [events[0]]), events[1..]);
    }
  }

  ghost predicate Encodable(json: Json, log: seq<Event>) {
    forall e | e in log :: json.Ok(e) && '\n' !in e.kind
  }

  /** The client delivers a prefix of what was sent, all of it if nothing was cut. */
  lemma ConnectDelivers(json: Json, f: Filter, once: bool, last: nat, c: Connection)
    returns (got: seq<Event>)
    requires c.Connection? && AllSound(json, Serve(f, once, last, c.snaps))
    ensures var chunks := Serve(f, once, last, c.snaps);
            got <= Events(chunks) && (c.cut >= |Wire(json, chunks)| ==> got == Events(chunks))
    ensures Connect(json, f, once, last, c) == Delivered(Reader("", last, []), got)
  {
    hide Serve, Wire, Delivered, Received, ReadLines, Flush, Events, AllSound;
    var chunks := Serve(f, once, last, c.snaps);
    var wire := Wire(json, chunks);
    var n := if c.cut < |wire| then c.cut else |wire|;
    assert wire[..|wire|] == wire;
    ReaderUndoesWriter(json, Reader("", last, []), chunks, n);
    ReceivedIsPrefix(json, chunks, n);
    got := Received(json, chunks, n);
  }

  lemma SelectedAbove(log: seq<Event>, last: int, f: Filter)
    requires Ascending(log)
    ensures var m := Select(log, last, f);
            Ascending(m) && forall i | 0 <= i < |m| :: m[i].id > last && m[i] in log
  {
    SelectedRows(log, last, f);
    var m := Select(log, last, f);
    forall i | 0 <= i < |m| ensures m[i].id > last && m[i] in log { assert m[i] in m; }
  }

  lemma SentOfLog(json: Json, log: seq<Event>, m: seq<Event>, chunks: seq<Chunk>, rest: seq<Event>)
    requires Encodable(json, log) && m == Events(chunks) + rest && forall i | 0 <= i < |m| :: m[i] in log
    ensures AllSound(json, chunks)
  {
    forall e | e in Events(chunks) ensures json.Ok(e) && '\n' !in e.kind {
      var i :| 0 <= i < |Events(chunks)| && Events(chunks)[i] == e;
      assert m[i] == e;
    }
    SentIsSound(json, chunks);
  }

  lemma AscendingPart(m: seq<Event>, a: seq<Event>, b: seq<Event>)
    requires Ascending(m) && m == a + b
    ensures Ascending(a)
  {
    assert forall i | 0 <= i < |a| :: a[i] == m[i];
  }

  /** Delivering the first of the wanted events moves the position right behind them. */
  lemma PrintsNext(log: seq<Event>, last: nat, f: Filter, got: seq<Event>)
    requires Ascending(log) && got <= Select(log, last, f)
    ensures var r, m := Delivered(Reader("", last, []), got), Select(log, last, f);
            r.printed == got && m == got + Select(log, r.lastSeq, f) && (got == m ==> Select(log, r.lastSeq, f) == [])
  {
    hide Select, Delivered;
    var m := Select(log, last, f);
    SelectedAbove(log, last, f);
    assert m == got + m[|got|..];
    AscendingPart(m, got, m[|got|..]);
    assert forall i | 0 <= i < |got| :: got[i] == m[i];
    DeliveredUpTo(Reader("", last, []), got);
    SelectAfter(log, last, f, |got|);
    assert [] + got == got;
  }

  /** The stream is not cut, and the server's last read saw the whole log and no full batch of it. */
  ghost predicate Drains(json: Json, f: Filter, once: bool, last: nat, c: Connection, log: seq<Event>) {
    c.Connection? && Drained(f, once, last, c.snaps, log) && c.cut >= |Wire(json, Serve(f, once, last, c.snaps))|
  }

  /** One connection prints the next wanted events of the log and resumes right behind them; if it
      is not cut and drains the log, none is left. */
  lemma ConnectPrints(json: Json, f: Filter, once: bool, last: nat, c: Connection, log: seq<Event>)
    requires Ascending(log) && Encodable(json, log)
    requires c.Connection? ==> PartOf(c.snaps, log) && Undisturbed(f, once, last, c.snaps)
    ensures var r := Connect(json, f, once, last, c);
            Select(log, last, f) == r.printed + Select(log, r.lastSeq, f)
    ensures Drains(json, f, once, last, c, log) ==>
              Select(log, Connect(json, f, once, last, c).lastSeq, f) == []
  {
    if !c.Connection? {
      assert [] + Select(log, last, f) == Select(log, last, f);
      return;
    }
    hide Select, Serve, Wire, Undisturbed, Position, Delivered, Drained, Events, Connect, AllSound;
    var chunks := Serve(f, once, last, c.snaps);
    ServeSends(f, once, last, c.snaps, log);
    var m := Select(log, last, f);
    assert forall i | 0 <= i < |m| :: m[i] in log by { SelectedAbove(log, last, f); }
    SentOfLog(json, log, m, chunks, Select(log, Position(f, once, last, c.snaps), f));
    var got := ConnectDelivers(json, f, once, last, c);
    hide Encodable, PartOf;
    PrintsNext(log, last, f, got);
  }

  // ---------------------------------------------------------------- whole sessions

  /** Nothing that a connection still has to read is pruned first. */
  ghost predicate Calm(json: Json, f: Filter, once: bool, last: nat, conns: seq<Connection>, log: seq<Event>)
    decreases |conns|
  {
    conns == [] ||
    ((conns[0].Connection? ==> PartOf(conns[0].snaps, log) && Undisturbed(f, once, last, conns[0].snaps)) &&
     (once || conns[0].Refused? || Calm(json, f, once, Connect(json, f, once, last, conns[0]).lastSeq, conns[1..], log)))
  }

  /** The last connection is not cut and drains the log. */
  ghost predicate EndsDrained(json: Json, f: Filter, once: bool, last: nat, conns: seq<Connection>, log: seq<Event>)
    decreases |conns|
  {
    conns != [] &&
    if once || |conns| == 1 || conns[0].Refused? then Drains(json, f, once, last, conns[0], log)
    else EndsDrained(json, f, once, Connect(json, f, once, last, conns[0]).lastSeq, conns[1..], log)
  }

  /** Whatever the drops, the client prints wanted events above its start, each once, in ascending
      order and without a gap: what it has not printed lies behind the id it resumes from. When the
      last connection drains the log, it has printed them all. */
  lemma {:induction false} ExactlyOnce(json: Json, f: Filter, once: bool, last: nat, conns: seq<Connection>, log: seq<Event>)
    requires Ascending(log) && Encodable(json, log) && Calm(json, f, once, last, conns, log)
    ensures var (printed, end) := Session(json, f, once, last, conns);
            Select(log, last, f) == printed + Select(log, end, f) && Ascending(printed) &&
            (EndsDrained(json, f, once, last, conns, log) ==> printed == Select(log, last, f))
    decreases |conns|
  {
    hide Select, Connect, Undisturbed, Drains, Encodable, Ascending, PartOf;
    var m := Select(log, last, f);
    SelectedAbove(log, last, f);
    var (printed, end) := Session(json, f, once, last, conns);
    if conns != [] {
      var r := Connect(json, f, once, last, conns[0]);
      ConnectPrints(json, f, once, last, conns[0], log);
      if !once && !conns[0].Refused? {
        ExactlyOnce(json, f, once, r.lastSeq, conns[1..], log);
        var (more, _) := Session(json, f, once, r.lastSeq, conns[1..]);
        assert r.printed + (more + Select(log, end, f)) == printed + Select(log, end, f);
        if |conns| == 1 { assert conns[1..] == [] && printed == r.printed + [] == r.printed; }
      }
    }
    assert m == printed + Select(log, end, f);
    AscendingPart(m, printed, Select(log, end, f));
    assert printed + [] == printed;
  }

  // ---------------------------------------------------------------- whatever is pruned

  lemma PartIsEncodable(json: Json, log: seq<Event>, chunks: seq<Chunk>)
    requires Encodable(json, log) && forall e | e in Events(chunks) :: e in log
    ensures AllSound(json, chunks)
  {
    SentIsSound(json, chunks);
  }

  lemma DeliveredExact(sent: seq<Event>, got: seq<Event>, last: nat)
    requires Ascending(sent) && got <= sent && forall e | e in sent :: e.id > last
    ensures var r := Delivered(Reader("", last, []), got);
            && r.printed == got && Ascending(got) && last <= r.lastSeq
            && (forall e :: e in got <==> e in sent && e.id <= r.lastSeq)
            && (got == [] ==> r.lastSeq == last) && (got != [] ==> got[|got| - 1] in got && got[|got| - 1].id == r.lastSeq)
  {
    hide Delivered;
    PrefixExact(sent, got, last);
    assert forall i | 0 <= i < |got| :: got[i] in got;
    DeliveredUpTo(Reader("", last, []), got);
    assert [] + got == got;
  }

  /** Under any pruning one connection prints, in ascending order, exactly the wanted events up to
      the id it resumes from that were not pruned before they were read. */
  lemma ConnectExact(json: Json, f: Filter, once: bool, last: nat, c: Connection, log: seq<Event>)
    requires c.Connection? && Ascending(log) && Encodable(json, log) && PartOf(c.snaps, log)
    ensures var r := Connect(json, f, once, last, c);
            && Ascending(r.printed) && last <= r.lastSeq
            && forall e :: e in r.printed <==>
                 (e in log && last < e.id <= r.lastSeq && Wanted(f, e) && !PrunedBeforeRead(f, once, last, c.snaps, e.id))
  {
    hide *;
    var chunks := Serve(f, once, last, c.snaps);
    ServeExact(f, once, last, c.snaps, log);
    PartIsEncodable(json, log, chunks);
    var got := ConnectDelivers(json, f, once, last, c);
    DeliveredExact(Events(chunks), got, last);
  }

  lemma NoStream(json: Json, f: Filter, once: bool, last: nat, c: Connection)
    requires !c.Connection?
    ensures Connect(json, f, once, last, c) == Reader("", last, []) && Ascending([])
  {
  }

  /** The connection that brought the client past the id read it too late. */
  ghost predicate Missed(json: Json, f: Filter, once: bool, last: nat, conns: seq<Connection>, id: int)
    decreases |conns|
  {
    conns != [] &&
    var end := Connect(json, f, once, last, conns[0]).lastSeq;
    if last < id <= end then conns[0].Connection? && PrunedBeforeRead(f, once, last, conns[0].snaps, id)
    else !once && !conns[0].Refused? && Missed(json, f, once, end, conns[1..], id)
  }

  ghost predicate AllPartOf(conns: seq<Connection>, log: seq<Event>) {
    forall i | 0 <= i < |conns| && conns[i].Connection? :: PartOf(conns[i].snaps, log)
  }

  /** Whatever the drops and whatever is pruned when, the client prints, each once and in ascending
      order, exactly the wanted events up to the id it has reached, less those that were pruned
      before the read that passed them. */
  lemma {:induction false} PrintedExactly(json: Json, f: Filter, once: bool, last: nat, conns: seq<Connection>, log: seq<Event>)
    requires Ascending(log) && Encodable(json, log) && AllPartOf(conns, log)
    ensures var (printed, end) := Session(json, f, once, last, conns);
            && Ascending(printed) && last <= end
            && forall e :: e in printed <==>
                 (e in log && last < e.id <= end && Wanted(f, e) && !Missed(json, f, once, last, conns, e.id))
    decreases |conns|
  {
    hide Connect, Encodable, PartOf, PrunedBeforeRead, Wanted, Ascending;
    NothingAscends();
    if conns != [] {
      var r := Connect(json, f, once, last, conns[0]);
      if conns[0].Connection? { ConnectExact(json, f, once, last, conns[0], log); } else { NoStream(json, f, once, last, conns[0]); }
      if !once && !conns[0].Refused? {
        assert AllPartOf(conns[1..], log);
        PrintedExactly(json, f, once, r.lastSeq, conns[1..], log);
        AscendingJoin(r.printed, Session(json, f, once, r.lastSeq, conns[1..]).0, r.lastSeq);
      }
    }
  }

  lemma NothingAscends()
    ensures Ascending([])
  {
  }

  /** The reads of every connection were made of one table, in the course of a run. */
  ghost predicate AllReadIn(conns: seq<Connection>, run: seq<TableEvent>) {
    forall i | 0 <= i < |conns| && conns[i].Connection? :: ReadIn(conns[i].snaps, run)
  }

  /** So from the table to the terminal, over any appends, prunes, reads and drops. */
  lemma FeedDelivers(json: Json, run: seq<TableEvent>, f: Filter, once: bool, last: nat, conns: seq<Connection>)
    requires IsTableRun(NEW_TABLE, run) && AllReadIn(conns, run) && Encodable(json, LastTable(NEW_TABLE, run).snap.log)
    ensures var (printed, end) := Session(json, f, once, last, conns);
            && Ascending(printed)
            && forall e :: e in printed <==>
                 (e in LastTable(NEW_TABLE, run).snap.log && last < e.id <= end && Wanted(f, e) &&
                  !Missed(json, f, once, last, conns, e.id))
  {
    hide IsTableRun, ReadIn, PartOf, Encodable, Ascending, Missed, Session;
    forall i | 0 <= i < |conns| && conns[i].Connection? ensures PartOf(conns[i].snaps, LastTable(NEW_TABLE, run).snap.log) {
      ReadsArePartOfLog(run, conns[i].snaps);
    }
    ReadsArePartOfLog(run, []) by { NothingRead(run); }
    PrintedExactly(json, f, once, last, conns, LastTable(NEW_TABLE, run).snap.log);
  }

  lemma NothingRead(run: seq<TableEvent>)
    ensures ReadIn([], run)
  {
  }
}
