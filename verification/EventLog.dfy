/** A job's append-only event file (internal/ci/events.go): one JSON object per line, written by
    the runner and read by tailers while it grows. A character stands for a byte. */
module EventLog {
  import opened EventStream
  import opened Options
  import opened Text

  /** The lines that a newline ends. */
  function CountEvents(content: string): nat { |Split(content)| - 1 }

  class Log {
    var content: string
    var seqNo: nat

    /** `OpenEventLog`: numbering goes on after the complete lines already in the file. */
    constructor (existing: string)
      ensures content == existing && seqNo == CountEvents(existing)
    {
      content := existing;
      seqNo := CountEvents(existing);
    }

    method Append(json: Json, kind: string, rest: string) returns (e: Event)
      modifies this
      ensures e == Event(old(seqNo) + 1, kind, 0, rest)
      ensures seqNo == e.id && content == old(content) + Ended(json.encode(e))
    {
      e := Event(seqNo + 1, kind, 0, rest);
      content := content + Ended(json.encode(e));
      seqNo := seqNo + 1;
    }
  }

  /** The events of the complete lines up to the first that does not decode, the length of these
      lines, and whether all decoded. The last element is the part that no newline ends. */
  function ReadEntries(json: Json, lines: seq<string>): (r: (seq<Event>, nat, bool))
    requires lines != []
    decreases |lines|
  {
    if |lines| == 1 then ([], 0, true)
    else
      var e := json.decode(TrimSpace(lines[0]));
      if e == None then ([], 0, false)
      else
        var (events, length, ok) := ReadEntries(json, lines[1..]);
        ([e.value] + events, |lines[0]| + 1 + length, ok)
  }

  function ReadText(json: Json, text: string): (seq<Event>, nat, bool) { ReadEntries(json, Split(text)) }

  /** What a reader at the given offset sees; behind the end there is nothing. */
  function From(content: string, offset: nat): string {
    if offset <= |content| then content[offset..] else ""
  }

  method ReadEvents(json: Json, content: string, byteOffset: nat)
    returns (events: seq<Event>, nextOffset: nat, ok: bool)
    ensures var r := ReadText(json, From(content, byteOffset));
            events == r.0 && nextOffset == byteOffset + r.1 && ok == r.2
    ensures byteOffset >= |content| ==> events == [] && nextOffset == byteOffset && ok
  {
    hide TrimSpace;
    events, nextOffset, ok := [], byteOffset, true;
    var lines := Split(From(content, byteOffset));
    var i := 0;
    while i + 1 < |lines|
      invariant 0 <= i < |lines| && ok
      invariant var r, s := ReadEntries(json, lines[i..]), ReadEntries(json, lines);
                s.0 == events + r.0 && byteOffset + s.1 == nextOffset + r.1 && s.2 == r.2
    {
      var e := json.decode(TrimSpace(lines[i]));
      if e == None { return events, nextOffset, false; }
      assert lines[i..][1..] == lines[i + 1..];
      events := events + [e.value];
      nextOffset := nextOffset + |lines[i]| + 1;
      i := i + 1;
    }
  }

  // ---------------------------------------------------------------- tailing

  /** The read length of a text ends at a line end within it. */
  lemma {:induction false} ReadWithin(json: Json, text: string)
    ensures ReadText(json, text).1 <= |text|
    decreases |text|
  {
    hide TrimSpace, Split;
    var line, rest := FirstLine(text);
    if rest != None {
      ReadWithin(json, rest.value);
      ReadFirst(json, line, rest.value);
    } else {
      ReadNone(json, text);
    }
  }

  /** A text is a single unfinished line, or a line, a newline and the rest. */
  lemma FirstLine(text: string) returns (line: string, rest: Option<string>)
    ensures OneLine(line)
    ensures rest == None ==> text == line
    ensures rest.Some? ==> text == Ended(line) + rest.value && |rest.value| < |text|
  {
    var lines := Split(text);
    SplitIsLines(text);
    JoinSplit(text);
    line := lines[0];
    if |lines| == 1 {
      rest := None;
    } else {
      rest := Some(Join(lines[1..]));
    }
  }

  lemma ReadNone(json: Json, text: string)
    requires OneLine(text)
    ensures ReadText(json, text) == ([], 0, true)
  {
    SplitLine(text, []);
  }

  lemma ReadFirst(json: Json, line: string, rest: string)
    requires OneLine(line)
    ensures var e, r := json.decode(TrimSpace(line)), ReadText(json, rest);
            ReadText(json, Ended(line) + rest) ==
              if e == None then ([], 0, false) else ([e.value] + r.0, |line| + 1 + r.1, r.2)
  {
    hide TrimSpace;
    SplitLine(line, rest);
    assert ([line] + Split(rest))[1..] == Split(rest);
  }

  /** Polling a growing file from the last returned offset yields the same events as reading the
      grown file at once, wherever the writer was when the file was first read. */
  lemma {:induction false} TailEqualsReplay(json: Json, text: string, more: string)
    ensures var first := ReadText(json, text);
            var whole := ReadText(json, text + more);
            if !first.2 then whole == first
            else
              first.1 <= |text| &&
              var next := ReadText(json, (text + more)[first.1..]);
              whole == (first.0 + next.0, first.1 + next.1, next.2)
    decreases |text|
  {
    hide ReadText, TrimSpace;
    ReadWithin(json, text);
    var line, rest := FirstLine(text);
    if rest == None {
      ReadNone(json, text);
      assert (text + more)[0..] == text + more;
      var next := ReadText(json, text + more);
      assert [] + next.0 == next.0;
    } else {
      var tail := rest.value;
      TailEqualsReplay(json, tail, more);
      ReadWithin(json, tail);
      assert text + more == Ended(line) + (tail + more);
      ReadFirst(json, line, tail);
      ReadFirst(json, line, tail + more);
      var first := ReadText(json, tail);
      if first.2 {
        assert (text + more)[|line| + 1 + first.1..] == (tail + more)[first.1..];
        var next := ReadText(json, (tail + more)[first.1..]);
        var e := json.decode(TrimSpace(line));
        if e.Some? {
          assert [e.value] + (first.0 + next.0) == [e.value] + first.0 + next.0;
        }
      }
    }
  }

  // ---------------------------------------------------------------- writing and crashing

  function LogText(json: Json, events: seq<Event>): string {
    if events == [] then "" else Ended(json.encode(events[0])) + LogText(json, events[1..])
  }

  /** The file of a log that numbers its events 1, 2, 3 and so on. */
  ghost predicate IsLog(json: Json, content: string, events: seq<Event>) {
    && content == LogText(json, events)
    && forall i | 0 <= i < |events| :: events[i].id == i + 1 && json.Ok(events[i])
  }

  lemma EntryDecodes(json: Json, e: Event)
    requires json.Ok(e)
    ensures json.decode(TrimSpace(json.encode(e))) == Some(e) && OneLine(json.encode(e))
  {
    var text := json.encode(e);
    NoBraceIsSpace();
    TrimBefore(text, |text|);
    assert text[..|text|] == text;
    BlankInFront(text);
  }

  lemma BlankInFront(text: string)
    requires text != "" && !IsSpace(text[0])
    ensures TrimSpace(" " + text) == TrimSpace(text)
  {
    assert (" " + text)[1..] == text;
    assert TrimLeft(" " + text, IsSpace) == TrimLeft(text, IsSpace);
  }

  /** A log is read in full, and an unfinished line behind it is left for later. */
  lemma {:induction false} LogReadsBack(json: Json, events: seq<Event>, partial: string)
    requires (forall i | 0 <= i < |events| :: json.Ok(events[i])) && OneLine(partial)
    ensures ReadText(json, LogText(json, events) + partial) == (events, |LogText(json, events)|, true)
    ensures CountEvents(LogText(json, events) + partial) == |events|
  {
    hide TrimSpace, ReadText;
    if events == [] {
      assert "" + partial == partial;
      ReadNone(json, partial);
      SplitLine(partial, []);
    } else {
      var line, rest := json.encode(events[0]), LogText(json, events[1..]) + partial;
      LogReadsBack(json, events[1..], partial);
      EntryDecodes(json, events[0]);
      ReadFirst(json, line, rest);
      assert LogText(json, events) + partial == Ended(line) + rest;
      assert events == [events[0]] + events[1..];
      SplitLine(line, rest);
      assert Ended(line) + rest == line + ['\n'] + rest;
    }
  }

  lemma {:induction false} LogTextConcat(json: Json, a: seq<Event>, b: seq<Event>)
    ensures LogText(json, a + b) == LogText(json, a) + LogText(json, b)
  {
    if a == [] {
      assert a + b == b;
    } else {
      assert (a + b)[0] == a[0] && (a + b)[1..] == a[1..] + b;
      LogTextConcat(json, a[1..], b);
    }
  }

  /** Appending to a log, also after it was closed and opened again, keeps it one. */
  lemma AppendKeepsLog(json: Json, content: string, events: seq<Event>, e: Event)
    requires IsLog(json, content, events) && json.Ok(e) && e.id == CountEvents(content) + 1
    ensures IsLog(json, content + Ended(json.encode(e)), events + [e])
  {
    LogReadsBack(json, events, "");
    assert content + "" == content;
    LogTextConcat(json, events, [e]);
    assert [e][1..] == [] && Ended(json.encode(e)) + "" == Ended(json.encode(e));
  }

  lemma BrokenLine(json: Json, events: seq<Event>, line: string)
    requires (forall i | 0 <= i < |events| :: json.Ok(events[i]))
    requires OneLine(line) && json.decode(TrimSpace(line)) == None
    ensures ReadText(json, LogText(json, events) + Ended(line)) == (events, |LogText(json, events)|, false)
  {
    var text := LogText(json, events);
    LogReadsBack(json, events, "");
    assert text + "" == text;
    hide TrimSpace, ReadText, LogText;
    TailEqualsReplay(json, text, Ended(line));
    assert (text + Ended(line))[|text|..] == Ended(line) + "";
    ReadFirst(json, line, "");
    assert events + [] == events;
  }

  /** A crash while the entry of `lost` is written leaves its first n bytes behind. Numbering goes
      on where the complete lines end; but the next append continues the broken line, so the log
      reads on, with that event as its next, exactly when nothing was left behind. */
  lemma ReopenAfterCrash(json: Json, events: seq<Event>, lost: Event, n: nat, e: Event)
    requires IsLog(json, LogText(json, events), events) && json.Ok(lost) && json.Ok(e) && json.NeverGlued(lost, e)
    requires n <= |json.encode(lost)|
    requires e.id == CountEvents(LogText(json, events) + json.encode(lost)[..n]) + 1
    ensures var r := ReadText(json, LogText(json, events) + json.encode(lost)[..n] + Ended(json.encode(e)));
            && e.id == |events| + 1
            && (r.2 <==> n == 0)
            && r.0 == if n == 0 then events + [e] else events
  {
    var text, partial := LogText(json, events), json.encode(lost)[..n];
    LogReadsBack(json, events, partial);
    hide ReadText, LogText, CountEvents, OneLine, TrimSpace, Ended, Json.Ok, Json.NeverGlued;
    if n == 0 {
      assert text + partial == text;
      ReopenClean(json, events, e);
    } else {
      ReopenBroken(json, events, lost, n, e);
    }
  }

  lemma ReopenBroken(json: Json, events: seq<Event>, lost: Event, n: nat, e: Event)
    requires (forall i | 0 <= i < |events| :: json.Ok(events[i])) && json.Ok(lost) && json.Ok(e)
    requires json.NeverGlued(lost, e) && 0 < n <= |json.encode(lost)|
    ensures ReadText(json, LogText(json, events) + json.encode(lost)[..n] + Ended(json.encode(e)))
         == (events, |LogText(json, events)|, false)
  {
    var text, entry, partial := LogText(json, events), json.encode(e), json.encode(lost)[..n];
    GluedIsBroken(json, lost, n, e);
    JoinedLine(json, partial, e);
    hide ReadText, LogText, OneLine, TrimSpace, Ended, Json.Ok, Json.NeverGlued;
    Regroup(text, partial, Ended(entry));
    BrokenLine(json, events, partial + entry);
  }

  lemma Regroup(a: string, b: string, c: string)
    ensures a + b + c == a + (b + c)
  {
  }

  /** The glued line begins and ends like an object, so trimming leaves it alone, and it does not
      decode. */
  lemma GluedIsBroken(json: Json, lost: Event, n: nat, e: Event)
    requires json.Ok(lost) && json.Ok(e) && json.NeverGlued(lost, e) && n <= |json.encode(lost)|
    ensures n > 0 ==> json.decode(TrimSpace(json.encode(lost)[..n] + json.encode(e))) == None
  {
    if n > 0 {
      var line := json.encode(lost)[..n] + json.encode(e);
      assert line[0] == '{' && line[|line| - 1] == '}';
      NoBraceIsSpace();
      TrimBefore(line, |line|);
      assert line[..|line|] == line;
      BlankInFront(line);
    }
  }

  lemma ReopenClean(json: Json, events: seq<Event>, e: Event)
    requires IsLog(json, LogText(json, events), events) && json.Ok(e) && e.id == CountEvents(LogText(json, events)) + 1
    ensures ReadText(json, LogText(json, events) + Ended(json.encode(e))) ==
              (events + [e], |LogText(json, events + [e])|, true)
  {
    AppendKeepsLog(json, LogText(json, events), events, e);
    LogReadsBack(json, events + [e], "");
    assert LogText(json, events + [e]) + "" == LogText(json, events + [e]);
  }

  lemma JoinedLine(json: Json, partial: string, e: Event)
    requires OneLine(partial) && json.Ok(e)
    ensures OneLine(partial + json.encode(e)) && Ended(partial + json.encode(e)) == partial + Ended(json.encode(e))
  {
  }
}
