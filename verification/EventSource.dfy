/** The event feed as any standard client reads it: the interpretation of an event stream of section
    9.2.6 of the WHATWG HTML Standard, which, unlike `streamEvents`, uses the id and event lines. */
module EventSource {
  import opened EventStream
  import opened Text

  /** A dispatched event: its type, its data and the last event id it comes with. */
  datatype Message = Message(kind: string, data: string, id: string)

  /** The buffers of the standard, the last event id string and what has been dispatched. */
  datatype Source = Source(data: string, kind: string, idBuffer: string, lastId: string, messages: seq<Message>)

  /** Where the first colon is, or the line's length. */
  function Colon(line: string): (k: nat)
    ensures k <= |line|
  {
    if line == "" || line[0] == ':' then 0 else 1 + Colon(line[1..])
  }

  /** What follows the colon, less one leading space. */
  function FieldValue(line: string): string {
    var value := if Colon(line) < |line| then line[Colon(line) + 1..] else "";
    if value != "" && value[0] == ' ' then value[1..] else value
  }

  function SetField(s: Source, field: string, value: string): Source {
    if field == "event" then s.(kind := value)
    else if field == "data" then s.(data := s.data + (value + "\n"))
    else if field == "id" && '\0' !in value then s.(idBuffer := value)
    else s
  }

  /** The blank line at the end of an event. */
  function Dispatch(s: Source): Source {
    var t := s.(lastId := s.idBuffer, kind := "", data := "");
    if s.data == "" then t
    else t.(messages := s.messages + [Message(if s.kind == "" then "message" else s.kind, s.data[..|s.data| - 1], s.idBuffer)])
  }

  function Interpret(s: Source, line: string): Source {
    if line == "" then Dispatch(s)
    else if line[0] == ':' then s
    else SetField(s, line[..Colon(line)], FieldValue(line))
  }

  /** Every line but the last, which no line end follows. */
  function InterpretAll(s: Source, lines: seq<string>): Source
    decreases |lines|
  {
    if |lines| <= 1 then s else InterpretAll(Interpret(s, lines[0]), lines[1..])
  }

  // ---------------------------------------------------------------- what arrives

  /** The events of the frames that arrive as a whole. */
  function Whole(json: Json, chunks: seq<Chunk>, n: nat): seq<Event>
    decreases |chunks|
  {
    if chunks == [] || n < |WriteChunk(json, chunks[0])| then []
    else
      var rest := Whole(json, chunks[1..], n - |WriteChunk(json, chunks[0])|);
      if chunks[0].Frame? then [chunks[0].event] + rest else rest
  }

  function Messages(json: Json, events: seq<Event>): (ms: seq<Message>)
    ensures |ms| == |events|
  {
    seq(|events|, i requires 0 <= i < |events| => Message(events[i].kind, json.encode(events[i]), Decimal(events[i].id)))
  }

  /** Nothing is under way. */
  predicate Between(s: Source) { s.data == "" && s.kind == "" && s.idBuffer == s.lastId }

  /** The source after events have been dispatched. */
  function Dispatched(json: Json, s: Source, events: seq<Event>): Source {
    if events == [] then s
    else
      var id := Decimal(events[|events| - 1].id);
      s.(idBuffer := id, lastId := id, messages := s.messages + Messages(json, events))
  }

  /** The event has a type, and its lines hold no line end of either kind. */
  ghost predicate Plain(json: Json, c: Chunk) {
    c.Frame? ==> json.Ok(c.event) && c.event.kind != "" && '\n' !in c.event.kind && '\r' !in c.event.kind &&
                 '\r' !in json.encode(c.event)
  }

  // ---------------------------------------------------------------- a whole frame

  lemma {:induction false} ColonAfter(field: string, value: string)
    requires ':' !in field
    ensures Colon(field + (": " + value)) == |field|
  {
    var line := field + (": " + value);
    if field != "" {
      ColonAfter(field[1..], value);
      assert line[1..] == field[1..] + (": " + value);
    } else {
      assert line[0] == ':';
    }
  }

  lemma FieldLine(s: Source, field: string, value: string)
    requires field != "" && ':' !in field
    ensures Interpret(s, field + (": " + value)) == SetField(s, field, value)
  {
    hide SetField;
    var line := field + (": " + value);
    ColonAfter(field, value);
    assert line[0] == field[0] && line[..|field|] == field;
    assert line[|field| + 1..] == " " + value && (" " + value)[1..] == value;
  }

  lemma {:induction false} NoNul(s: string)
    requires AllDigits(s)
    ensures '\0' !in s
  {
  }

  lemma FrameDispatched(json: Json, s: Source, e: Event)
    requires Between(s) && e.kind != ""
    ensures Interpret(Interpret(Interpret(Interpret(s, IdLine(e)), TypeLine(e)), DataLine(json, e)), "")
         == Dispatched(json, s, [e])
  {
    hide Interpret, Colon, FieldValue;
    var id, data := Decimal(e.id), json.encode(e);
    NoNul(id);
    FieldsOf(json, e);
    FieldLine(s, "id", id);
    var s1 := SetField(s, "id", id);
    FieldLine(s1, "event", e.kind);
    var s2 := SetField(s1, "event", e.kind);
    FieldLine(s2, "data", data);
    var s3 := SetField(s2, "data", data);
    assert "" + (data + "\n") == data + "\n";
    assert s3 == Source(data + "\n", e.kind, id, s.lastId, s.messages);
    assert Messages(json, [e]) == [Message(e.kind, data, id)];
    assert (data + "\n")[..|data|] == data;
    assert Interpret(s3, "") == Dispatch(s3) by { BlankDispatches(s3); }
  }

  lemma BlankDispatches(s: Source)
    ensures Interpret(s, "") == Dispatch(s)
  {
  }

  lemma FieldsOf(json: Json, e: Event)
    ensures IdLine(e) == "id" + (": " + Decimal(e.id)) && TypeLine(e) == "event" + (": " + e.kind)
    ensures DataLine(json, e) == "data" + (": " + json.encode(e))
    ensures ':' !in "id" && ':' !in "event" && ':' !in "data"
  {
  }

  lemma AfterLine(s: Source, line: string, rest: string)
    requires OneLine(line)
    ensures InterpretAll(s, Split(Ended(line) + rest)) == InterpretAll(Interpret(s, line), Split(rest))
  {
    hide Interpret;
    SplitLine(line, rest);
    assert Ended(line) + rest == line + ['\n'] + rest;
  }

  lemma WholeFrameRead(json: Json, s: Source, e: Event, rest: string)
    requires Between(s) && Plain(json, Frame(e))
    ensures InterpretAll(s, Split(WriteChunk(json, Frame(e)) + rest)) == InterpretAll(Dispatched(json, s, [e]), Split(rest))
  {
    hide Interpret, InterpretAll, IdLine, TypeLine, DataLine, Ended, WriteChunk, Dispatched, OneLine;
    var i, t, d := IdLine(e), TypeLine(e), DataLine(json, e);
    LinesOfFrame(json, e);
    FrameThen(json, e, rest);
    FrameDispatched(json, s, e);
    AfterLine(s, i, Ended(t) + (Ended(d) + (Ended("") + rest)));
    var s1 := Interpret(s, i);
    AfterLine(s1, t, Ended(d) + (Ended("") + rest));
    var s2 := Interpret(s1, t);
    AfterLine(s2, d, Ended("") + rest);
    EmptyIsOneLine();
    AfterLine(Interpret(s2, d), "", rest);
  }

  lemma LinesOfFrame(json: Json, e: Event)
    requires Plain(json, Frame(e))
    ensures OneLine(IdLine(e)) && OneLine(TypeLine(e)) && OneLine(DataLine(json, e))
    ensures IdLine(e) != "" && TypeLine(e) != "" && DataLine(json, e) != ""
  {
    HeaderLines(e);
    DataLineEnd(json, e);
  }

  lemma WholePingRead(json: Json, s: Source, rest: string)
    requires Between(s)
    ensures InterpretAll(s, Split(WriteChunk(json, Ping) + rest)) == InterpretAll(s, Split(rest))
  {
    assert WriteChunk(json, Ping) + rest == Ended(PING) + (Ended("") + rest);
    assert PING[0] == ':' && OneLine(PING);
    AfterLine(s, PING, Ended("") + rest);
    AfterLine(s, "", rest);
    assert Interpret(s, PING) == s && Dispatch(s) == s;
  }

  // ---------------------------------------------------------------- a frame cut off

  /** No line of the text is blank, apart from the last. */
  ghost predicate NoBlank(text: string) {
    (text != "" ==> text[0] != '\n') && forall k | 0 <= k < |text| - 1 :: text[k] != '\n' || text[k + 1] != '\n'
  }

  lemma {:induction false} NoBlankLines(text: string)
    requires forall k | 0 <= k < |text| - 1 :: text[k] != '\n' || text[k + 1] != '\n'
    ensures forall i | 1 <= i < |Split(text)| - 1 :: Split(text)[i] != ""
    ensures text != "" && text[0] != '\n' ==> Split(text)[0] != ""
  {
    if text != "" {
      var rest := text[1..];
      assert forall k | 0 <= k < |rest| :: rest[k] == text[k + 1];
      NoBlankLines(rest);
    }
  }

  /** Without a blank line nothing is dispatched. */
  lemma {:induction false} NothingDispatched(s: Source, lines: seq<string>)
    requires forall i | 0 <= i < |lines| - 1 :: lines[i] != ""
    ensures InterpretAll(s, lines).messages == s.messages && InterpretAll(s, lines).lastId == s.lastId
    decreases |lines|
  {
    if |lines| > 1 {
      hide Colon, FieldValue;
      assert lines[0] != "";
      NothingDispatched(Interpret(s, lines[0]), lines[1..]);
    }
  }

  lemma NoBlankConcat(a: string, b: string)
    requires NoBlank(a) && NoBlank(b)
    ensures NoBlank(a + b)
  {
    var c := a + b;
    forall k | 0 <= k < |c| - 1 ensures c[k] != '\n' || c[k + 1] != '\n' {
      if k + 1 == |a| { assert c[k + 1] == b[0]; }
    }
  }

  lemma NoBlankEnded(line: string)
    requires OneLine(line) && line != ""
    ensures NoBlank(Ended(line))
  {
    assert forall k | 0 <= k < |line| :: line[k] in line;
  }

  /** A chunk less its last byte. */
  lemma ChunkHasNoBlank(json: Json, c: Chunk)
    requires Plain(json, c)
    ensures var text := WriteChunk(json, c); text != "" && NoBlank(text[..|text| - 1])
  {
    hide NoBlank, IdLine, TypeLine, DataLine;
    var text := WriteChunk(json, c);
    if c.Frame? {
      var i, t, d := IdLine(c.event), TypeLine(c.event), DataLine(json, c.event);
      LinesOfFrame(json, c.event);
      NoBlankEnded(i);
      NoBlankEnded(t);
      NoBlankEnded(d);
      NoBlankConcat(Ended(t), Ended(d));
      NoBlankConcat(Ended(i), Ended(t) + Ended(d));
      assert text[..|text| - 1] == Ended(i) + (Ended(t) + Ended(d));
    } else {
      assert OneLine(PING);
      NoBlankEnded(PING);
      assert text[..|text| - 1] == Ended(PING);
    }
  }

  lemma CutChunkRead(json: Json, s: Source, c: Chunk, n: nat)
    requires Plain(json, c) && n < |WriteChunk(json, c)|
    ensures var r := InterpretAll(s, Split(WriteChunk(json, c)[..n])); r.messages == s.messages && r.lastId == s.lastId
  {
    hide WriteChunk, InterpretAll, Split;
    var text := WriteChunk(json, c);
    ChunkHasNoBlank(json, c);
    var whole, part := text[..|text| - 1], text[..n];
    assert part == whole[..n];
    assert forall k | 0 <= k < n :: part[k] == whole[k];
    assert NoBlank(part);
    NoBlankLines(part);
    if |Split(part)| > 1 { SplitOfNothing(part); }
    NothingDispatched(s, Split(part));
  }

  lemma SplitOfNothing(text: string)
    requires |Split(text)| > 1
    ensures text != ""
  {
  }

  // ---------------------------------------------------------------- whole streams

  lemma DispatchedConcat(json: Json, s: Source, e: Event, events: seq<Event>)
    ensures Dispatched(json, Dispatched(json, s, [e]), events) == Dispatched(json, s, [e] + events)
  {
    assert Messages(json, [e]) + Messages(json, events) == Messages(json, [e] + events);
    assert s.messages + Messages(json, [e]) + Messages(json, events) == s.messages + (Messages(json, [e]) + Messages(json, events));
    if events == [] { assert [e] + events == [e]; }
  }

  /** Of a stream cut off at any byte exactly the events whose frames are complete are dispatched, each
      with its type, its data and its id, and the last event id is that of the last of them. */
  lemma {:induction false} StandardReader(json: Json, s: Source, chunks: seq<Chunk>, n: nat)
    requires Between(s) && n <= |Wire(json, chunks)| && forall c | c in chunks :: Plain(json, c)
    ensures var r, d := InterpretAll(s, Split(Wire(json, chunks)[..n])), Dispatched(json, s, Whole(json, chunks, n));
            r.messages == d.messages && r.lastId == d.lastId
    decreases |chunks|
  {
    hide InterpretAll, WriteChunk, Split, Dispatched, Plain;
    if chunks == [] {
      assert Wire(json, chunks)[..n] == "";
      NothingRead(json, s);
    } else {
      var c, rest := chunks[0], chunks[1..];
      var w, tail := WriteChunk(json, c), Wire(json, rest);
      assert c in chunks && forall d | d in rest :: d in chunks;
      NothingRead(json, s);
      if n < |w| {
        assert Wire(json, chunks)[..n] == w[..n];
        CutChunkRead(json, s, c, n);
      } else {
        var m := n - |w|;
        assert Wire(json, chunks)[..n] == w + tail[..m];
        if c.Frame? {
          WholeFrameRead(json, s, c.event, tail[..m]);
          StillBetween(json, s, c.event);
          StandardReader(json, Dispatched(json, s, [c.event]), rest, m);
          DispatchedConcat(json, s, c.event, Whole(json, rest, m));
        } else {
          WholePingRead(json, s, tail[..m]);
          StandardReader(json, s, rest, m);
        }
      }
    }
  }

  lemma NothingRead(json: Json, s: Source)
    ensures InterpretAll(s, Split("")) == s && Dispatched(json, s, []) == s
  {
  }

  lemma StillBetween(json: Json, s: Source, e: Event)
    requires Between(s)
    ensures Between(Dispatched(json, s, [e]))
  {
  }

  /** So a client that reconnects with its last event id resumes right behind the last event it has
      dispatched, or where it started. */
  lemma ResumesBehindLast(json: Json, s: Source, chunks: seq<Chunk>, n: nat)
    requires Between(s) && n <= |Wire(json, chunks)| && forall c | c in chunks :: Plain(json, c)
    ensures var id, events := InterpretAll(s, Split(Wire(json, chunks)[..n])).lastId, Whole(json, chunks, n);
            if events == [] then id == s.lastId else AllDigits(id) && ParseDecimal(id) == events[|events| - 1].id
  {
    StandardReader(json, s, chunks, n);
    LastDispatched(json, s, Whole(json, chunks, n));
    hide *;
  }

  lemma LastDispatched(json: Json, s: Source, events: seq<Event>)
    ensures var id := Dispatched(json, s, events).lastId;
            if events == [] then id == s.lastId else AllDigits(id) && ParseDecimal(id) == events[|events| - 1].id
  {
    if events != [] { DecimalRoundTrip(events[|events| - 1].id); }
  }
}
