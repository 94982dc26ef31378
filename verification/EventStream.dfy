/** The wire format of the event feed: frames as the server writes them (`writeEventSSE` in
    internal/server/events.go) and as the client reads them (`streamEvents` in
    cmd/cf/events.go). Section 9.2 of the WHATWG HTML Standard describes the framing. A character
    stands for a byte. */
module EventStream {
  import opened Options
  import opened Text

  /** An event; `rest` are the fields of its JSON form that delivery does not depend on. */
  datatype Event = Event(id: nat, kind: string, repo: nat, rest: string)

  /** The JSON encoding and decoding of an event. */
  datatype Json = Json(encode: Event -> string, decode: string -> Option<Event>)
  {
    /** Encoding yields one line, an object, that decodes to the event, and no part of it that is
        cut off early decodes. */
    ghost predicate Ok(e: Event) {
      var text := encode(e);
      && |text| >= 2 && text[0] == '{' && text[|text| - 1] == '}' && OneLine(text)
      && decode(text) == Some(e)
      && forall n | 0 < n < |text| :: decode(text[..n]) == None
    }

    /** No part of an encoding followed by another encoding decodes. */
    ghost predicate NeverGlued(first: Event, second: Event) {
      forall n | 0 < n <= |encode(first)| :: decode(encode(first)[..n] + encode(second)) == None
    }
  }

  /** What the server writes at once: an event or a heartbeat. */
  datatype Chunk = Frame(event: Event) | Ping

  const PING := ": ping"
  const DATA := "data:"

  function IdLine(e: Event): string { "id: " + Decimal(e.id) }

  function TypeLine(e: Event): string { "event: " + e.kind }

  function DataLine(json: Json, e: Event): string { DATA + (" " + json.encode(e)) }

  function Ended(line: string): string { line + ['\n'] }

  function WriteChunk(json: Json, c: Chunk): string {
    match c
    case Frame(e) => Ended(IdLine(e)) + (Ended(TypeLine(e)) + (Ended(DataLine(json, e)) + Ended("")))
    case Ping => Ended(PING) + Ended("")
  }

  function Wire(json: Json, chunks: seq<Chunk>): string {
    if chunks == [] then "" else WriteChunk(json, chunks[0]) + Wire(json, chunks[1..])
  }

  ghost predicate Sound(json: Json, c: Chunk) {
    c.Frame? ==> json.Ok(c.event) && OneLine(c.event.kind)
  }

  ghost predicate AllSound(json: Json, chunks: seq<Chunk>) {
    forall i | 0 <= i < |chunks| :: Sound(json, chunks[i])
  }

  // ---------------------------------------------------------------- the client

  /** The client's variables: the data of the open frame, the highest id and the printed events. */
  datatype Reader = Reader(data: string, lastSeq: nat, printed: seq<Event>)

  function Flush(json: Json, r: Reader): Reader {
    if r.data == "" then r
    else
      var e := json.decode(r.data);
      if e == None then r.(data := "")
      else Reader("", if e.value.id > r.lastSeq then e.value.id else r.lastSeq, r.printed + [e.value])
  }

  function ReadLine(json: Json, r: Reader, line: string): Reader {
    if line == "" then Flush(json, r)
    else if HasPrefix(line, DATA) then r.(data := r.data + TrimSpace(line[|DATA|..]))
    else r
  }

  /** A scanner's line comes without its carriage return. */
  function ScannedLine(line: string): string {
    if line != "" && line[|line| - 1] == '\r' then line[..|line| - 1] else line
  }

  /** Reads lines; the last one, which no newline follows, counts unless it is empty. */
  function ReadLines(json: Json, r: Reader, lines: seq<string>): Reader
    requires lines != []
    decreases |lines|
  {
    if |lines| == 1 then if lines[0] == "" then r else ReadLine(json, r, ScannedLine(lines[0]))
    else ReadLines(json, ReadLine(json, r, ScannedLine(lines[0])), lines[1..])
  }

  function ReadStream(json: Json, lastSeq: nat, text: string): Reader {
    Flush(json, ReadLines(json, Reader("", lastSeq, []), Split(text)))
  }

  method StreamEvents(json: Json, lastSeq: nat, text: string) returns (r: Reader)
    ensures r == ReadStream(json, lastSeq, text)
  {
    r := Reader("", lastSeq, []);
    var lines := Split(text);
    var i := 0;
    while i < |lines| && (i + 1 < |lines| || lines[i] != "")
      invariant 0 <= i <= |lines|
      invariant (if i < |lines| then ReadLines(json, r, lines[i..]) else r)
             == ReadLines(json, Reader("", lastSeq, []), lines)
    {
      r := ReadLine(json, r, ScannedLine(lines[i]));
      i := i + 1;
    }
    r := Flush(json, r);
  }

  /** The bytes of a frame and of a heartbeat. */
  lemma ChunkBytes(json: Json, e: Event)
    ensures WriteChunk(json, Frame(e)) ==
              "id: " + Decimal(e.id) + "\nevent: " + e.kind + "\ndata: " + json.encode(e) + "\n\n"
    ensures WriteChunk(json, Ping) == ": ping\n\n"
  {
    hide Decimal;
  }

  /** The data of a frame that spreads it over several lines adds up. */
  lemma DataAddsUp(json: Json, r: Reader, more: string)
    requires TrimSpace(more) == more
    ensures ReadLine(json, r, DATA + more) == r.(data := r.data + more)
    ensures more != "" && more[0] != '\r' ==> ReadLine(json, r, DATA + (" " + more)) == r.(data := r.data + more)
  {
    assert (DATA + more)[|DATA|..] == more && (DATA + (" " + more))[|DATA|..] == " " + more;
    assert (" " + more)[1..] == more;
  }

  /** Lines that end with a carriage return and a newline. */
  function WithReturns(lines: seq<string>): seq<string>
  {
    if |lines| <= 1 then lines else [lines[0] + "\r"] + WithReturns(lines[1..])
  }

  /** They are read like lines that end with a newline alone. */
  lemma {:induction false} ReturnsDropped(json: Json, r: Reader, lines: seq<string>)
    requires lines != [] && forall i | 0 <= i < |lines| :: '\r' !in lines[i]
    ensures ReadLines(json, r, WithReturns(lines)) == ReadLines(json, r, lines)
    decreases |lines|
  {
    hide ReadLine;
    if |lines| > 1 {
      var q := ReadLine(json, r, lines[0]);
      assert ScannedLine(lines[0] + "\r") == lines[0] == ScannedLine(lines[0]);
      ReturnsDropped(json, q, lines[1..]);
      assert WithReturns(lines)[1..] == WithReturns(lines[1..]);
    }
  }

  // ---------------------------------------------------------------- what a cut stream delivers

  /** How much of a chunk must arrive for its event to be read. */
  function Needed(json: Json, e: Event): nat {
    |IdLine(e)| + 1 + |TypeLine(e)| + 1 + |DataLine(json, e)|
  }

  /** The events of the chunks of which enough is among the first n bytes. */
  function Received(json: Json, chunks: seq<Chunk>, n: nat): seq<Event>
    decreases |chunks|
  {
    if chunks == [] then []
    else
      var size := |WriteChunk(json, chunks[0])|;
      var own := if chunks[0].Frame? && n >= Needed(json, chunks[0].event) then [chunks[0].event] else [];
      if n < size then own else own + Received(json, chunks[1..], n - size)
  }

  function Events(chunks: seq<Chunk>): seq<Event> {
    if chunks == [] then []
    else if chunks[0].Frame? then [chunks[0].event] + Events(chunks[1..])
    else Events(chunks[1..])
  }

  /** The reader after delivering events. */
  function Delivered(r: Reader, events: seq<Event>): Reader
    decreases |events|
  {
    if events == [] then r
    else
      var e := events[0];
      Delivered(r.(lastSeq := if e.id > r.lastSeq then e.id else r.lastSeq, printed := r.printed + [e]), events[1..])
  }

  lemma NotData(json: Json, r: Reader, line: string)
    requires line != "" && line[0] != 'd'
    ensures ReadLine(json, r, line) == r
  {
    assert DATA[0] == 'd';
  }

  lemma ReadEnded(json: Json, r: Reader, line: string, rest: string)
    requires OneLine(line)
    ensures Split(Ended(line) + rest) == [line] + Split(rest)
    ensures ReadLines(json, r, Split(Ended(line) + rest))
         == ReadLines(json, ReadLine(json, r, ScannedLine(line)), Split(rest))
  {
    hide ReadLine;
    SplitLine(line, rest);
    assert Ended(line) + rest == line + ['\n'] + rest;
  }

  lemma ReadPartial(json: Json, r: Reader, line: string)
    requires OneLine(line)
    ensures ReadLines(json, r, Split(line)) == if line == "" then r else ReadLine(json, r, ScannedLine(line))
  {
    SplitLine(line, "");
  }

  /** A cut or whole line that is neither a data line nor empty does nothing, carriage return or not. */
  lemma Skipped(json: Json, r: Reader, line: string, n: nat)
    requires n <= |line| && OneLine(line) && line != "" && line[0] != 'd' && line[0] != '\r'
    ensures ReadLines(json, r, Split(line[..n])) == r
    ensures ReadLine(json, r, ScannedLine(line)) == r
  {
    hide ReadLines;
    ReadPartial(json, r, line[..n]);
    if n > 0 { NotData(json, r, ScannedLine(line[..n])); }
    NotData(json, r, ScannedLine(line));
  }

  lemma TrimBefore(s: string, n: nat)
    requires 0 < n <= |s| && !IsSpace(s[0])
    ensures TrimSpace(" " + s[..n]) <= s[..n] && TrimSpace(" " + s[..n]) != ""
    ensures !IsSpace(s[n - 1]) ==> TrimSpace(" " + s[..n]) == s[..n]
  {
    var t := " " + s[..n];
    assert t[1..] == s[..n] && s[..n][0] == s[0];
    assert TrimLeft(t, IsSpace) == s[..n];
    TrimRightKeepsFirst(s[..n], IsSpace);
  }

  lemma {:induction false} TrimRightKeepsFirst(s: string, cut: char -> bool)
    requires s != "" && !cut(s[0])
    ensures TrimRight(s, cut) != ""
  {
    if cut(s[|s| - 1]) { TrimRightKeepsFirst(s[..|s| - 1], cut); }
  }

  /** A data line cut off early leaves data that does not decode, if any. */
  lemma DataPrefix(json: Json, r: Reader, e: Event, m: nat)
    requires json.Ok(e) && r.data == "" && m <= |DataLine(json, e)|
    ensures var q := ReadLine(json, r, DataLine(json, e)[..m]);
            && q == r.(data := q.data)
            && (m < |DataLine(json, e)| ==> q.data == "" || json.decode(q.data) == None)
            && (m == |DataLine(json, e)| ==> q.data == json.encode(e))
  {
    hide IsSpace, TrimSpace;
    var text, line := json.encode(e), DataLine(json, e);
    assert line[5..] == " " + text;
    var p := line[..m];
    if m < 5 {
      assert m == 0 || !HasPrefix(p, DATA);
    } else if m <= 6 {
      assert p[5..] == if m == 5 then "" else " ";
      BlanksTrimmed();
    } else {
      assert p[5..] == " " + text[..m - 6];
      assert !IsSpace('{') && !IsSpace('}') by { NoBraceIsSpace(); }
      TrimBefore(text, m - 6);
      assert HasPrefix(p, DATA);
      var t := TrimSpace(p[5..]);
      assert t == text[..|t|];
      assert r.data + t == t;
    }
  }

  lemma BlanksTrimmed()
    ensures TrimSpace("") == "" && TrimSpace(" ") == ""
  {
    assert TrimLeft(" ", IsSpace) == "" by { assert " "[1..] == ""; }
  }

  lemma NoBraceIsSpace()
    ensures !IsSpace('{') && !IsSpace('}')
  {
  }

  lemma ScannedPrefix(line: string, n: nat)
    requires n <= |line|
    ensures exists m: nat | m <= n :: ScannedLine(line[..n]) == line[..m]
    ensures line != "" && line[|line| - 1] != '\r' ==> ScannedLine(line) == line
  {
    var m := |ScannedLine(line[..n])|;
    assert ScannedLine(line[..n]) == line[..m];
  }

  lemma DeliveredOne(r: Reader, e: Event)
    ensures Delivered(r, [e]) == Reader(r.data, if e.id > r.lastSeq then e.id else r.lastSeq, r.printed + [e])
    ensures Delivered(r, []) == r
  {
    assert [e][1..] == [];
  }

  lemma DataLineEnd(json: Json, e: Event)
    requires json.Ok(e)
    ensures var line := DataLine(json, e); line[..|line|] == line && line[|line| - 1] == '}' && OneLine(line)
  {
    var line, text := DataLine(json, e), json.encode(e);
    assert line == "data: " + text;
    assert line[|line| - 1] == text[|text| - 1];
    assert '\n' !in "data: ";
  }

  /** The reader at the end of a stream that breaks off n bytes into a data line. */
  lemma CutDataLine(json: Json, r: Reader, e: Event, n: nat)
    requires json.Ok(e) && r.data == "" && n <= |DataLine(json, e)|
    ensures Flush(json, ReadLines(json, r, Split(DataLine(json, e)[..n])))
         == if n == |DataLine(json, e)| then Delivered(r, [e]) else r
  {
    var line := DataLine(json, e);
    DataLineEnd(json, e);
    hide ReadLine, ReadLines, ScannedLine, DataLine, Delivered;
    ReadPartial(json, r, line[..n]);
    DeliveredOne(r, e);
    ScannedPrefix(line, n);
    var m: nat :| m <= n && ScannedLine(line[..n]) == line[..m];
    if n == |line| { DataPrefix(json, r, e, n); } else { DataPrefix(json, r, e, m); }
  }

  lemma QuietLines(json: Json, r: Reader, e: Event)
    requires OneLine(e.kind)
    ensures OneLine(IdLine(e)) && ReadLine(json, r, ScannedLine(IdLine(e))) == r
    ensures OneLine(TypeLine(e)) && ReadLine(json, r, ScannedLine(TypeLine(e))) == r
  {
    HeaderLines(e);
    Skipped(json, r, IdLine(e), 0);
    Skipped(json, r, TypeLine(e), 0);
  }

  lemma DataRead(json: Json, r: Reader, e: Event)
    requires json.Ok(e) && r.data == ""
    ensures OneLine(DataLine(json, e))
    ensures Flush(json, ReadLine(json, r, ScannedLine(DataLine(json, e)))) == Delivered(r, [e])
  {
    var d := DataLine(json, e);
    DataLineEnd(json, e);
    DataPrefix(json, r, e, |d|);
    ScannedPrefix(d, |d|);
    DeliveredOne(r, e);
    hide ReadLine, ScannedLine, DataLine, Delivered;
  }

  /** Any stream that follows a complete frame is read with the frame's event delivered. */
  lemma WholeFrame(json: Json, r: Reader, e: Event, rest: string)
    requires json.Ok(e) && OneLine(e.kind) && r.data == ""
    ensures ReadLines(json, r, Split(WriteChunk(json, Frame(e)) + rest)) == ReadLines(json, Delivered(r, [e]), Split(rest))
  {
    hide ReadLine, ReadLines, ScannedLine, DataLine, Delivered, IdLine, TypeLine, Ended, Flush, WriteChunk, OneLine;
    var i, t, d := IdLine(e), TypeLine(e), DataLine(json, e);
    QuietLines(json, r, e);
    DataRead(json, r, e);
    FrameThen(json, e, rest);
    ReadEnded(json, r, i, Ended(t) + (Ended(d) + (Ended("") + rest)));
    ReadEnded(json, r, t, Ended(d) + (Ended("") + rest));
    ReadEnded(json, r, d, Ended("") + rest);
    var q := ReadLine(json, r, ScannedLine(d));
    EmptyIsOneLine();
    ReadEnded(json, q, "", rest);
    BlankLine(json, q);
  }

  lemma EmptyIsOneLine()
    ensures OneLine("")
  {
  }

  lemma HeaderLines(e: Event)
    requires OneLine(e.kind)
    ensures OneLine(IdLine(e)) && IdLine(e) != "" && IdLine(e)[0] == 'i'
    ensures OneLine(TypeLine(e)) && TypeLine(e) != "" && TypeLine(e)[0] == 'e'
  {
    assert AllDigits(Decimal(e.id));
    assert '\n' !in "id: " && '\n' !in "event: ";
  }

  lemma FrameThen(json: Json, e: Event, rest: string)
    ensures WriteChunk(json, Frame(e)) + rest
         == Ended(IdLine(e)) + (Ended(TypeLine(e)) + (Ended(DataLine(json, e)) + (Ended("") + rest)))
  {
    hide Ended, IdLine, TypeLine, DataLine;
  }

  lemma BlankLine(json: Json, q: Reader)
    ensures ReadLine(json, q, ScannedLine("")) == Flush(json, q)
  {
  }

  lemma WholePing(json: Json, r: Reader, rest: string)
    requires r.data == ""
    ensures ReadLines(json, r, Split(WriteChunk(json, Ping) + rest)) == ReadLines(json, r, Split(rest))
  {
    Skipped(json, r, PING, 0);
    assert WriteChunk(json, Ping) + rest == Ended(PING) + (Ended("") + rest);
    hide ReadLine, ReadLines, ScannedLine;
    ReadEnded(json, r, PING, Ended("") + rest);
    ReadEnded(json, r, "", rest);
    BlankLine(json, r);
    FlushNothing(json, r);
  }

  lemma FlushNothing(json: Json, r: Reader)
    ensures r.data == "" ==> Flush(json, r) == r
    ensures ReadLines(json, r, Split("")) == r
  {
  }

  lemma CutPing(json: Json, r: Reader, n: nat)
    requires r.data == "" && n < |WriteChunk(json, Ping)|
    ensures Flush(json, ReadLines(json, r, Split(WriteChunk(json, Ping)[..n]))) == r
  {
    var text := WriteChunk(json, Ping);
    FlushNothing(json, r);
    if n <= |PING| {
      assert text[..n] == PING[..n];
      Skipped(json, r, PING, n);
    } else {
      assert text[..n] == Ended(PING) + "";
      Skipped(json, r, PING, 0);
      ReadEnded(json, r, PING, "");
    }
  }

  /** A frame cut off after n bytes is read exactly when its data line is complete. */
  lemma CutFrame(json: Json, r: Reader, e: Event, n: nat)
    requires json.Ok(e) && OneLine(e.kind) && r.data == "" && n < |WriteChunk(json, Frame(e))|
    ensures Flush(json, ReadLines(json, r, Split(WriteChunk(json, Frame(e))[..n])))
         == if n >= Needed(json, e) then Delivered(r, [e]) else r
  {
    var i, t, d := IdLine(e), TypeLine(e), DataLine(json, e);
    HeaderLines(e);
    DataLineEnd(json, e);
    FlushNothing(json, r);
    var text := WriteChunk(json, Frame(e));
    var a, b := |i| + 1, |i| + 1 + |t| + 1;
    assert text == Ended(i) + (Ended(t) + (Ended(d) + Ended("")));
    Skipped(json, r, i, if n < a then n else 0);
    Skipped(json, r, t, if a <= n < b then n - a else 0);
    assert |text| == b + |d| + 2 && Needed(json, e) == b + |d|;
    hide IdLine, TypeLine, DataLine, ReadLine, ReadLines, ScannedLine, WriteChunk, Needed, Delivered;
    if n < a {
      assert text[..n] == i[..n];
    } else if n < b {
      assert text[..n] == Ended(i) + t[..n - a];
      ReadEnded(json, r, i, t[..n - a]);
    } else {
      var k := if n - b <= |d| then n - b else |d|;
      var rest := if n - b <= |d| then d[..k] else Ended(d) + "";
      assert text[..n] == Ended(i) + (Ended(t) + rest);
      ReadEnded(json, r, i, Ended(t) + rest);
      ReadEnded(json, r, t, rest);
      CutDataLine(json, r, e, k);
      if n - b > |d| { EndedIsCut(json, r, d); }
    }
  }

  /** A last newline makes no difference to what is read of a line. */
  lemma EndedIsCut(json: Json, r: Reader, line: string)
    requires OneLine(line) && line != ""
    ensures ReadLines(json, r, Split(Ended(line) + "")) == ReadLines(json, r, Split(line[..|line|]))
  {
    assert line[..|line|] == line;
    ReadEnded(json, r, line, "");
    ReadPartial(json, r, line);
    FlushNothing(json, ReadLine(json, r, ScannedLine(line)));
  }

  lemma {:induction false} DeliveredConcat(r: Reader, a: seq<Event>, b: seq<Event>)
    ensures Delivered(Delivered(r, a), b) == Delivered(r, a + b)
    decreases |a|
  {
    if a == [] {
      assert a + b == b;
    } else {
      var q := Delivered(r, [a[0]]);
      DeliveredOne(r, a[0]);
      assert (a + b)[1..] == a[1..] + b && (a + b)[0] == a[0];
      DeliveredConcat(q, a[1..], b);
    }
  }

  /** The reader undoes the writer: of a stream of frames and heartbeats cut off at any byte it
      delivers, in order, exactly the events whose data line is complete. */
  lemma {:induction false} ReaderUndoesWriter(json: Json, r: Reader, chunks: seq<Chunk>, n: nat)
    requires AllSound(json, chunks) && r.data == "" && n <= |Wire(json, chunks)|
    ensures Flush(json, ReadLines(json, r, Split(Wire(json, chunks)[..n]))) == Delivered(r, Received(json, chunks, n))
    decreases |chunks|
  {
    hide ReadLines, WriteChunk, Flush, Needed, Delivered, Split;
    if chunks == [] {
      FlushNothing(json, r);
      assert Wire(json, chunks)[..n] == "";
      DeliveredNone(r);
    } else {
      var c, rest := chunks[0], chunks[1..];
      var w, tail := WriteChunk(json, c), Wire(json, rest);
      assert Sound(json, c) && AllSound(json, rest);
      if n < |w| {
        assert Wire(json, chunks)[..n] == w[..n];
        DeliveredNone(r);
        if c.Frame? { CutFrame(json, r, c.event, n); } else { CutPing(json, r, n); }
      } else {
        var m := n - |w|;
        assert Wire(json, chunks)[..n] == w + tail[..m];
        if c.Frame? {
          WholeFrame(json, r, c.event, tail[..m]);
          NeededWithin(json, c.event);
          DeliveredData(r, [c.event]);
          ReaderUndoesWriter(json, Delivered(r, [c.event]), rest, m);
          DeliveredConcat(r, [c.event], Received(json, rest, m));
        } else {
          WholePing(json, r, tail[..m]);
          ReaderUndoesWriter(json, r, rest, m);
          assert [] + Received(json, rest, m) == Received(json, rest, m);
        }
      }
    }
  }

  lemma DeliveredNone(r: Reader)
    ensures Delivered(r, []) == r
  {
  }

  lemma NeededWithin(json: Json, e: Event)
    ensures Needed(json, e) < |WriteChunk(json, Frame(e))|
  {
  }

  lemma {:induction false} DeliveredData(r: Reader, events: seq<Event>)
    ensures Delivered(r, events).data == r.data && Delivered(r, events).printed == r.printed + events
    decreases |events|
  {
    if events != [] {
      DeliveredOne(r, events[0]);
      DeliveredData(Delivered(r, [events[0]]), events[1..]);
    }
  }

  /** A cut stream delivers a prefix of the events sent, a whole one all of them. */
  lemma {:induction false} ReceivedIsPrefix(json: Json, chunks: seq<Chunk>, n: nat)
    ensures Received(json, chunks, n) <= Events(chunks)
    ensures n >= |Wire(json, chunks)| ==> Received(json, chunks, n) == Events(chunks)
    decreases |chunks|
  {
    hide WriteChunk, Needed;
    if chunks != [] {
      var size := |WriteChunk(json, chunks[0])|;
      if chunks[0].Frame? { NeededWithin(json, chunks[0].event); }
      if n >= size { ReceivedIsPrefix(json, chunks[1..], n - size); }
    }
  }
}
