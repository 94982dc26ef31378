/** What stamping keeps: the body that `splitFrontmatter` reads, the frontmatter's lines, and the
    text itself when it is stamped again. */
module StampLaws {
  import opened Options
  import opened Specs
  import opened Stamp
  import opened Text

  // ---------------------------------------------------------------- line ends

  function DropCR(line: string): string {
    if line != "" && line[|line| - 1] == '\r' then line[..|line| - 1] else line
  }

  /** Every line that a newline follows loses one carriage return. */
  function DropCRs(lines: seq<string>): (r: seq<string>)
    ensures |r| == |lines|
    ensures forall i | 0 <= i < |lines| :: r[i] == if i < |lines| - 1 then DropCR(lines[i]) else lines[i]
  {
    hide DropCR;
    if |lines| <= 1 then lines else [DropCR(lines[0])] + DropCRs(lines[1..])
  }

  lemma NormalizeStep(s: string)
    requires s != []
    ensures Normalize(s) == if |s| >= 2 && s[0] == '\r' && s[1] == '\n' then ['\n'] + Normalize(s[2..])
                            else [s[0]] + Normalize(s[1..])
  {
  }

  lemma NormalizeCons(c: char, s: string)
    ensures Normalize([c] + s) == if c == '\r' && s != [] && s[0] == '\n' then Normalize(s) else [c] + Normalize(s)
  {
    var t := [c] + s;
    assert t[1..] == s;
    NormalizeStep(t);
    if s != [] {
      NormalizeStep(s);
      assert t[2..] == s[1..];
    }
    hide Normalize;
  }

  lemma DropCRCons(c: char, tail: string)
    ensures DropCR([c] + tail) == if tail == [] && c == '\r' then [] else [c] + DropCR(tail)
  {
  }

  lemma {:induction false} NormalizeAlone(line: string)
    requires OneLine(line)
    ensures Normalize(line) == line
  {
    if line == [] {
      NormalizeEmpty();
    } else {
      hide Normalize;
      var c, tail := line[0], line[1..];
      assert line == [c] + tail && (tail != [] ==> tail[0] in line);
      NormalizeAlone(tail);
      NormalizeCons(c, tail);
    }
  }

  lemma ConsConcat(c: char, a: string, b: string)
    ensures [c] + (a + b) == ([c] + a) + b
    ensures a != [] ==> (a + b)[0] == a[0]
    ensures [] + b == b
  {
  }

  /** One more character in front of a line that ends. */
  lemma NormalizeBrokenCons(c: char, tail: string, rest: string)
    requires tail != [] ==> tail[0] != '\n'
    requires Normalize(tail + (['\n'] + rest)) == DropCR(tail) + (['\n'] + Normalize(rest))
    ensures Normalize([c] + (tail + (['\n'] + rest))) == DropCR([c] + tail) + (['\n'] + Normalize(rest))
  {
    EmptyDropCR();
    hide Normalize, DropCR;
    var end, broken := ['\n'] + rest, ['\n'] + Normalize(rest);
    NormalizeCons(c, tail + end);
    DropCRCons(c, tail);
    ConsConcat(c, tail, end);
    ConsConcat(c, DropCR(tail), broken);
  }

  lemma {:induction false} NormalizeBroken(line: string, rest: string)
    requires OneLine(line)
    ensures Normalize(line + (['\n'] + rest)) == DropCR(line) + (['\n'] + Normalize(rest))
  {
    EmptyDropCR();
    hide Normalize, DropCR;
    var end := ['\n'] + rest;
    if line == [] {
      assert line + end == end;
      NormalizeCons('\n', rest);
    } else {
      var c, tail := line[0], line[1..];
      assert line == [c] + tail && (tail != [] ==> tail[0] in line);
      ConsConcat(c, tail, end);
      NormalizeBroken(tail, rest);
      NormalizeBrokenCons(c, tail, rest);
    }
  }

  lemma EmptyDropCR()
    ensures DropCR([]) == []
  {
  }

  lemma NormalizeLine(line: string, rest: string)
    requires OneLine(line)
    ensures Normalize(line + (['\n'] + rest)) == DropCR(line) + (['\n'] + Normalize(rest))
    ensures Normalize(line) == line
  {
    hide Normalize, DropCR;
    NormalizeAlone(line);
    NormalizeBroken(line, rest);
  }

  lemma NormalizeEmpty()
    ensures Normalize([]) == []
  {
  }

  lemma {:induction false} NormalizeJoin(lines: seq<string>)
    requires Lines(lines)
    ensures Normalize(Join(lines)) == Join(DropCRs(lines)) && Lines(DropCRs(lines))
  {
    hide Normalize;
    if |lines| == 1 {
      NormalizeLine(lines[0], []);
    } else {
      NormalizeLine(lines[0], Join(lines[1..]));
      assert lines[0] + ['\n'] + Join(lines[1..]) == lines[0] + (['\n'] + Join(lines[1..]));
      NormalizeJoin(lines[1..]);
      assert DropCRs(lines) == [DropCR(lines[0])] + DropCRs(lines[1..]);
      assert OneLine(DropCR(lines[0]));
    }
  }

  /** The lines that a file with these lines is read as. */
  lemma ReadBack(lines: seq<string>)
    requires Lines(lines)
    ensures Split(Normalize(Join(lines))) == DropCRs(lines)
  {
    NormalizeJoin(lines);
    SplitJoin(DropCRs(lines));
  }

  // ---------------------------------------------------------------- fences

  lemma ClosesByFirst(line: string)
    ensures Closes(line) ==> line != "" && line[0] in "-." && line[|line| - 1] != '\r'
  {
    var t := TrimRight(line, IsBlank);
    if Closes(line) {
      assert t[0] == line[0];
      TrimRightEnd(line, IsBlank);
    }
  }

  lemma TrimRightEnd(s: string, cut: char -> bool)
    ensures s == "" || cut(s[|s| - 1]) || TrimRight(s, cut) == s
  {
  }

  lemma KeyValueOpen(key: string, value: string)
    requires key == VERIFIED || key == ALIGNMENT
    ensures !Closes(KeyValue(key, value))
  {
    ClosesByFirst(KeyValue(key, value));
    assert KeyValue(key, value)[0] == key[0];
  }

  /** A value that can stand in one line of a file. */
  ghost predicate Scalar(value: string) { OneLine(value) && '\r' !in value }

  lemma KeyValueIsLine(key: string, value: string)
    requires (key == VERIFIED || key == ALIGNMENT) && Scalar(value)
    ensures OneLine(KeyValue(key, value)) && DropCR(KeyValue(key, value)) == KeyValue(key, value)
  {
    var line := KeyValue(key, value);
    assert line == key + ": " + value;
    assert value == "" ==> line[|line| - 1] == ' ';
    assert value != "" ==> line[|line| - 1] == value[|value| - 1];
  }

  /** A line that would close the frontmatter if it lost a carriage return. */
  ghost predicate HiddenFence(block: seq<string>) {
    exists i | 0 <= i < |block| :: Closes(DropCR(block[i]))
  }

  /** Lines that neither close the frontmatter nor break. */
  ghost predicate Block(block: seq<string>) {
    forall i | 0 <= i < |block| :: OneLine(block[i]) && !Closes(block[i])
  }

  lemma {:induction false} TrimLeftKeeps(s: string, cut: char -> bool)
    ensures s != "" && !cut(s[0]) ==> TrimLeft(s, cut) == s
  {
  }

  /** A line with one of the keys is no hidden fence. */
  lemma KeyLineOpen(line: string, key: string)
    requires (key == VERIFIED || key == ALIGNMENT) && KeyLine(line, key)
    ensures !Closes(DropCR(line))
  {
    ClosesByFirst(DropCR(line));
    TrimLeftKeeps(line, IsSpace);
    assert TrimSpace(line)[0] == key[0];
  }

  /** Upserting one key neither adds nor removes a fence. */
  lemma UpsertKeepsFences(block: seq<string>, key: string, value: string)
    requires (key == VERIFIED || key == ALIGNMENT) && Scalar(value) && Block(block)
    ensures Block(Upsert(block, key, value))
    ensures HiddenFence(Upsert(block, key, value)) <==> HiddenFence(block)
  {
    hide Closes, KeyLine, KeyValue, OneLine;
    KeyValueOpen(key, value);
    KeyValueIsLine(key, value);
    var i, u := KeyIndex(block, key), Upsert(block, key, value);
    if i < |block| { KeyLineOpen(block[i], key); }
    assert forall k | 0 <= k < |block| && k != i :: u[k] == block[k];
    assert u[i] == KeyValue(key, value);
    if HiddenFence(block) {
      var k :| 0 <= k < |block| && Closes(DropCR(block[k]));
      assert Closes(DropCR(u[k]));
    }
  }

  lemma UpsertBothKeepsFences(block: seq<string>, verified: string, alignment: string)
    requires Scalar(verified) && Scalar(alignment) && Block(block)
    ensures Block(UpsertBoth(block, verified, alignment))
    ensures HiddenFence(UpsertBoth(block, verified, alignment)) <==> HiddenFence(block)
  {
    hide Block, HiddenFence, Upsert, Scalar;
    UpsertKeepsFences(block, VERIFIED, verified);
    UpsertKeepsFences(Upsert(block, VERIFIED, verified), ALIGNMENT, alignment);
  }

  // ---------------------------------------------------------------- files with a block

  /** The lines of a file whose block is closed by line `close`. */
  function Fenced(block: seq<string>, close: string, body: seq<string>): seq<string> {
    [FENCE] + block + ([close] + body)
  }

  lemma FenceOfFenced(block: seq<string>, close: string, body: seq<string>)
    requires (forall i | 0 <= i < |block| :: !Closes(block[i])) && Closes(close)
    ensures ClosingFence(Fenced(block, close, body), 1) == |block| + 1
  {
    hide Closes;
    var lines := Fenced(block, close, body);
    assert lines[|block| + 1] == close;
    assert forall k | 1 <= k <= |block| :: lines[k] == block[k - 1];
  }

  function Each(lines: seq<string>): (r: seq<string>)
    ensures |r| == |lines| && forall i | 0 <= i < |lines| :: r[i] == DropCR(lines[i])
  {
    seq(|lines|, i requires 0 <= i < |lines| => DropCR(lines[i]))
  }

  lemma DropCRsConcat(a: seq<string>, b: seq<string>)
    requires b != []
    ensures DropCRs(a + b) == Each(a) + DropCRs(b)
  {
    hide DropCR;
  }

  lemma DropCRsCons(line: string, rest: seq<string>)
    requires DropCR(line) == line
    ensures DropCRs([line] + rest) == [line] + DropCRs(rest)
    ensures Each([line] + rest) == [line] + Each(rest)
  {
    hide DropCR;
  }

  lemma DropCRsOfFenced(block: seq<string>, close: string, body: seq<string>)
    requires Closes(close)
    ensures DropCRs(Fenced(block, close, body)) == Fenced(Each(block), close, DropCRs(body))
  {
    ClosesByFirst(close);
    assert DropCR(close) == close && DropCR(FENCE) == FENCE;
    hide Closes, DropCR, DropCRs, Each;
    DropCRsConcat([FENCE] + block, [close] + body);
    DropCRsCons(FENCE, block);
    DropCRsCons(close, body);
  }

  lemma FencedIsLines(block: seq<string>, close: string, body: seq<string>)
    requires Block(block) && OneLine(close) && (body == [] || Lines(body))
    ensures Lines(Fenced(block, close, body))
  {
    hide Closes, OneLine;
    assert OneLine(FENCE) by { FenceCloses(); }
  }

  lemma FenceCloses()
    ensures Closes(FENCE) && OneLine(FENCE)
  {
  }

  lemma PartsFromLines(text: string, lines: seq<string>)
    requires Split(Normalize(text)) == lines && lines[0] == FENCE && ClosingFence(lines, 1) < |lines|
    ensures var end := ClosingFence(lines, 1);
            PartsOf(text) == Parts(Some(lines[1..end]), Join(lines[end + 1..]), end + 2)
  {
    hide Normalize, Closes, Join;
  }

  lemma ReadFenced(block: seq<string>, close: string, body: seq<string>)
    requires Block(block) && Closes(close) && OneLine(close) && (body == [] || Lines(body))
    ensures var read := Fenced(Each(block), close, DropCRs(body));
            var end := ClosingFence(read, 1);
            Lines(read) && end <= |block| + 1 &&
            PartsOf(Join(Fenced(block, close, body))) == Parts(Some(read[1..end]), Join(read[end + 1..]), end + 2)
  {
    hide Closes, DropCR, Block, Normalize, Join, OneLine, PartsOf, DropCRs, Lines;
    var lines := Fenced(block, close, body);
    FencedIsLines(block, close, body);
    ReadBack(lines);
    NormalizeJoin(lines);
    DropCRsOfFenced(block, close, body);
    var read := Fenced(Each(block), close, DropCRs(body));
    assert read[|block| + 1] == close && read[0] == FENCE;
    PartsFromLines(Join(lines), read);
  }

  lemma JoinNormalized(body: seq<string>)
    requires body == [] || Lines(body)
    ensures Normalize(Join(body)) == Join(DropCRs(body))
  {
    if body == [] { NormalizeEmpty(); } else { NormalizeJoin(body); }
  }

  lemma OpenBlockRead(block: seq<string>, close: string, body: seq<string>)
    requires Block(block) && Closes(close) && OneLine(close) && (body == [] || Lines(body)) && !HiddenFence(block)
    ensures var parts := PartsOf(Join(Fenced(block, close, body)));
            parts.body == Normalize(Join(body)) && parts.block == Some(Each(block))
  {
    assert forall i | 0 <= i < |block| :: !Closes(Each(block)[i]);
    hide Closes, DropCR, Block, PartsOf, Join, Normalize, Lines, OneLine, Each, DropCRs, ClosingFence, HiddenFence, Fenced;
    ReadFenced(block, close, body);
    FenceOfFenced(Each(block), close, DropCRs(body));
    JoinNormalized(body);
    FencedParts(Each(block), close, DropCRs(body));
  }

  lemma FencedParts(block: seq<string>, close: string, body: seq<string>)
    ensures var lines := Fenced(block, close, body);
            |lines| == |block| + 2 + |body| && lines[1..|block| + 1] == block && lines[|block| + 2..] == body
  {
  }

  lemma HiddenFenceRead(block: seq<string>, close: string, body: seq<string>)
    requires Block(block) && Closes(close) && OneLine(close) && (body == [] || Lines(body)) && HiddenFence(block)
    ensures PartsOf(Join(Fenced(block, close, body))).body != Join(body)
  {
    hide Closes, DropCR, Block, PartsOf, Join, OneLine, DropCRs;
    ReadFenced(block, close, body);
    ClosesByFirst(close);
    var i :| 0 <= i < |block| && Closes(DropCR(block[i]));
    var read := Fenced(Each(block), close, DropCRs(body));
    assert read[i + 1] == Each(block)[i];
    LongerBody(read[ClosingFence(read, 1) + 1..], body, close);
  }

  lemma LongerBody(longer: seq<string>, body: seq<string>, close: string)
    requires Lines(longer) && (body == [] || Lines(body)) && |longer| > |body| && close != ""
    requires body == [] ==> longer[|longer| - 1] == close
    ensures Join(longer) != Join(body)
  {
    SplitJoin(longer);
    if body != [] { SplitJoin(body); }
  }

  // ---------------------------------------------------------------- the body

  /** The frontmatter a file is read with; none counts as empty. */
  function BlockOf(text: string): seq<string> {
    var parts := PartsOf(text);
    if parts.block.Some? then parts.block.value else []
  }

  /** The line ends of the text are settled: reading it again cannot change a line of its body or
      uncover a fence in its frontmatter. */
  ghost predicate Settled(text: string) {
    Normalize(PartsOf(text).body) == PartsOf(text).body && !HiddenFence(BlockOf(text))
  }

  lemma FreshIsFenced(lines: seq<string>, verified: string, alignment: string)
    ensures FreshBlock(verified, alignment) + lines == Fenced(UpsertBoth([], verified, alignment), FENCE, lines)
  {
    FreshIsUpserted(verified, alignment);
    hide KeyValue, UpsertBoth;
  }

  lemma RestIsFenced(lines: seq<string>, end: nat, verified: string, alignment: string)
    requires 0 < end < |lines|
    ensures [FENCE] + UpsertBoth(lines[1..end], verified, alignment) + lines[end..]
         == Fenced(UpsertBoth(lines[1..end], verified, alignment), lines[end], lines[end + 1..])
  {
    hide UpsertBoth;
    assert lines[end..] == [lines[end]] + lines[end + 1..];
  }

  /** What a stamped file consists of: the frontmatter with the keys upserted, a closing fence,
      and the lines of the body. */
  lemma StampedIsFenced(text: string, verified: string, alignment: string) returns (close: string, body: seq<string>)
    requires Scalar(verified) && Scalar(alignment)
    ensures Block(BlockOf(text)) && Closes(close) && OneLine(close) && (body == [] || Lines(body))
    ensures PartsOf(text).body == Join(body)
    ensures Stamped(text, verified, alignment) == Join(Fenced(UpsertBoth(BlockOf(text), verified, alignment), close, body))
  {
    FenceCloses();
    hide Closes, Normalize, UpsertBoth, FreshBlock, Fenced, Join, Scalar, OneLine;
    var lines := Split(Normalize(text));
    SplitIsLines(Normalize(text));
    JoinSplit(Normalize(text));
    if PartsOf(text).block == None {
      close, body := FENCE, lines;
      FreshIsFenced(lines, verified, alignment);
    } else {
      var end := ClosingFence(lines, 1);
      close, body := lines[end], lines[end + 1..];
      RestIsFenced(lines, end, verified, alignment);
    }
  }

  lemma FreshIsUpserted(verified: string, alignment: string)
    ensures UpsertBoth([], verified, alignment) == [KeyValue(VERIFIED, verified), KeyValue(ALIGNMENT, alignment)]
  {
    OneKey(KeyValue(VERIFIED, verified));
    KeyValueHasKey(VERIFIED, verified);
    hide KeyLine, KeyValue;
  }

  lemma UpsertKeepsBody(text: string, verified: string, alignment: string)
    requires Scalar(verified) && Scalar(alignment)
    ensures PartsOf(Stamped(text, verified, alignment)).body == PartsOf(text).body <==> Settled(text)
    ensures Settled(text) ==>
              PartsOf(Stamped(text, verified, alignment)).block == Some(Each(UpsertBoth(BlockOf(text), verified, alignment)))
  {
    hide PartsOf, Stamped, UpsertBoth, Block, Scalar, Closes, BlockOf, Fenced;
    var close, body := StampedIsFenced(text, verified, alignment);
    var block := BlockOf(text);
    UpsertBothKeepsFences(block, verified, alignment);
    if HiddenFence(block) {
      HiddenFenceRead(UpsertBoth(block, verified, alignment), close, body);
    } else {
      OpenBlockRead(UpsertBoth(block, verified, alignment), close, body);
    }
  }

  lemma AlignmentIsScalar(score: real)
    ensures Scalar(AlignmentText(score))
  {
    assert forall n: nat :: AllDigits(Decimal(n));
  }

  /** For every text, without frontmatter, with an unterminated fence or with a real block, and
      every score, the stamped file is read with the same body exactly when the text's line ends
      are settled. */
  lemma StampKeepsBody(text: string, verified: string, score: real)
    requires Scalar(verified)
    ensures PartsOf(Stamped(text, verified, AlignmentText(score))).body == PartsOf(text).body <==> Settled(text)
    ensures Settled(text) ==>
              PartsOf(Stamped(text, verified, AlignmentText(score))).block
                == Some(Each(UpsertBoth(BlockOf(text), verified, AlignmentText(score))))
  {
    hide *;
    AlignmentIsScalar(score);
    UpsertKeepsBody(text, verified, AlignmentText(score));
  }

  // ---------------------------------------------------------------- text without carriage returns

  lemma {:induction false} NothingToNormalize(s: string)
    requires '\r' !in s
    ensures Normalize(s) == s
  {
    if s != [] { NothingToNormalize(s[1..]); }
  }

  lemma {:induction false} CharsOfJoin(lines: seq<string>, c: char)
    requires c != '\n'
    ensures c in Join(lines) <==> exists i | 0 <= i < |lines| :: c in lines[i]
  {
    if |lines| > 1 {
      CharsOfJoin(lines[1..], c);
      if i :| 0 <= i < |lines| && c in lines[i] && i > 0 {
        assert c in lines[1..][i - 1];
      }
    }
  }

  lemma PlainLines(text: string)
    requires '\r' !in text
    ensures Normalize(text) == text && forall i | 0 <= i < |Split(text)| :: '\r' !in Split(text)[i]
  {
    NothingToNormalize(text);
    JoinSplit(text);
    CharsOfJoin(Split(text), '\r');
  }

  lemma PlainParts(text: string)
    requires '\r' !in text
    ensures '\r' !in PartsOf(text).body
    ensures forall i | 0 <= i < |BlockOf(text)| :: '\r' !in BlockOf(text)[i] && !Closes(BlockOf(text)[i])
  {
    hide Closes;
    PlainLines(text);
    var lines := Split(text);
    if PartsOf(text).block.Some? {
      CharsOfJoin(lines[ClosingFence(lines, 1) + 1..], '\r');
    }
  }

  /** Without carriage returns the body is always kept, and the frontmatter that is read back is
      the old one with the two keys upserted. */
  lemma PlainTextKeepsBody(text: string, verified: string, alignment: string)
    requires Scalar(verified) && Scalar(alignment) && '\r' !in text
    ensures PartsOf(Stamped(text, verified, alignment)).body == PartsOf(text).body
    ensures PartsOf(Stamped(text, verified, alignment)).block == Some(UpsertBoth(BlockOf(text), verified, alignment))
  {
    hide PartsOf, Closes, Stamped, KeyIndex;
    PlainParts(text);
    NothingToNormalize(PartsOf(text).body);
    var block := BlockOf(text);
    assert forall i | 0 <= i < |block| :: DropCR(block[i]) == block[i];
    UpsertKeepsBody(text, verified, alignment);
    KeyValueIsLine(VERIFIED, verified);
    KeyValueIsLine(ALIGNMENT, alignment);
    hide DropCR, KeyValue;
    var u := UpsertBoth(block, verified, alignment);
    assert Each(u) == u;
  }

  /** With a second carriage return before a line end the body does change. */
  lemma UnsettledExample()
    ensures !Settled("a\r\r\n") && PartsOf(Stamped("a\r\r\n", "", "")).body != PartsOf("a\r\r\n").body
  {
    var text := "a\r\r\n";
    NormalizeStep(text);
    NormalizeStep(text[1..]);
    assert text[1..] == "\r\r\n" && text[1..][1..] == "\r\n" && ("\r\n")[2..] == [];
    NormalizeStep("\r\n");
    NormalizeEmpty();
    var s := "a\r\n";
    assert Normalize(text) == s;
    NormalizeStep(s);
    assert s[1..] == "\r\n";
    assert Normalize(s) == "a\n";
    FirstLine(s);
    assert s[0] == 'a';
    UpsertKeepsBody(text, "", "");
  }

  // ---------------------------------------------------------------- stamping twice

  function CarriageReturns(s: string): nat {
    if s == "" then 0 else (if s[0] == '\r' then 1 else 0) + CarriageReturns(s[1..])
  }

  lemma {:induction false} ReturnsOfParts(a: string, b: string)
    ensures CarriageReturns(a + b) == CarriageReturns(a) + CarriageReturns(b)
  {
    if a == "" {
      assert a + b == b;
    } else {
      assert (a + b)[0] == a[0] && (a + b)[1..] == a[1..] + b;
      ReturnsOfParts(a[1..], b);
    }
  }

  lemma {:induction false} NoReturns(s: string)
    requires '\r' !in s
    ensures CarriageReturns(s) == 0
  {
    if s != "" { NoReturns(s[1..]); }
  }

  lemma ReturnsCons(c: char, s: string)
    ensures CarriageReturns([c] + s) == (if c == '\r' then 1 else 0) + CarriageReturns(s)
  {
    assert ([c] + s)[1..] == s;
  }

  lemma {:induction false} NormalizeDrops(s: string)
    ensures Normalize(s) == s || CarriageReturns(Normalize(s)) < CarriageReturns(s)
  {
    if s != [] {
      NormalizeStep(s);
      ReturnsCons(s[0], s[1..]);
      assert s == [s[0]] + s[1..];
      hide Normalize, CarriageReturns;
      if |s| >= 2 && s[0] == '\r' && s[1] == '\n' {
        NormalizeDrops(s[2..]);
        assert s[1..] == ['\n'] + s[2..];
        ReturnsCons('\n', s[2..]);
        ReturnsCons('\n', Normalize(s[2..]));
      } else {
        NormalizeDrops(s[1..]);
        ReturnsCons(s[0], Normalize(s[1..]));
      }
    }
  }

  function LineReturns(lines: seq<string>): nat {
    if lines == [] then 0 else CarriageReturns(lines[0]) + LineReturns(lines[1..])
  }

  lemma {:induction false} ReturnsOfConcat(a: seq<string>, b: seq<string>)
    ensures LineReturns(a + b) == LineReturns(a) + LineReturns(b)
  {
    if a == [] {
      assert a + b == b;
    } else {
      assert (a + b)[0] == a[0] && (a + b)[1..] == a[1..] + b;
      ReturnsOfConcat(a[1..], b);
    }
  }

  lemma {:induction false} ReturnsOfJoin(lines: seq<string>)
    ensures CarriageReturns(Join(lines)) == LineReturns(lines)
  {
    if |lines| == 1 {
      assert lines[1..] == [];
    } else if |lines| > 1 {
      ReturnsOfJoin(lines[1..]);
      hide CarriageReturns;
      ReturnsOfParts(lines[0] + ['\n'], Join(lines[1..]));
      ReturnsOfParts(lines[0], ['\n']);
      NoReturns(['\n']);
    }
  }

  lemma {:induction false} ReturnsOfUpdate(lines: seq<string>, i: nat, x: string)
    requires i < |lines| && CarriageReturns(x) == 0
    ensures LineReturns(lines[i := x]) <= LineReturns(lines)
  {
    hide CarriageReturns;
    if i == 0 {
      assert lines[i := x][1..] == lines[1..];
    } else {
      ReturnsOfUpdate(lines[1..], i - 1, x);
      assert lines[i := x][1..] == lines[1..][i - 1 := x];
    }
  }

  lemma KeyValueHasNone(key: string, value: string)
    requires (key == VERIFIED || key == ALIGNMENT) && Scalar(value)
    ensures CarriageReturns(KeyValue(key, value)) == 0
  {
    assert '\r' !in key && '\r' !in ": ";
    NotInConcat(": ", value);
    NotInConcat(key, ": " + value);
    NoReturns(KeyValue(key, value));
  }

  lemma NotInConcat(a: string, b: string)
    requires '\r' !in a && '\r' !in b
    ensures '\r' !in a + b
  {
  }

  lemma UpsertAddsNone(lines: seq<string>, key: string, value: string)
    requires (key == VERIFIED || key == ALIGNMENT) && Scalar(value)
    ensures LineReturns(Upsert(lines, key, value)) <= LineReturns(lines)
  {
    hide KeyIndex, KeyValue, CarriageReturns, Scalar, KeyLine;
    var i, kv := KeyIndex(lines, key), KeyValue(key, value);
    KeyValueHasNone(key, value);
    if i < |lines| {
      ReturnsOfUpdate(lines, i, kv);
    } else {
      ReturnsOfConcat(lines, [kv]);
      assert [kv][1..] == [];
    }
  }

  lemma ReturnsOfFenced(block: seq<string>, close: string, body: seq<string>)
    ensures LineReturns(Fenced(block, close, body)) == LineReturns(block) + LineReturns([close] + body)
  {
    NoReturns(FENCE);
    assert [FENCE][1..] == [];
    hide CarriageReturns;
    ReturnsOfConcat([FENCE] + block, [close] + body);
    ReturnsOfConcat([FENCE], block);
  }

  lemma StampAddsNone(text: string, verified: string, alignment: string)
    requires Scalar(verified) && Scalar(alignment)
    ensures CarriageReturns(Stamped(text, verified, alignment)) <= CarriageReturns(Normalize(text))
  {
    hide Normalize, KeyIndex, KeyValue, Closes, Scalar, CarriageReturns, Upsert, UpsertBoth, FreshBlock, LineReturns, Join;
    var lines := Split(Normalize(text));
    JoinSplit(Normalize(text));
    ReturnsOfJoin(lines);
    ReturnsOfJoin(StampedLines(lines, verified, alignment));
    var end := if lines[0] == FENCE then ClosingFence(lines, 1) else |lines|;
    if end == |lines| {
      FreshIsFenced(lines, verified, alignment);
      FencedAddsNone([], FENCE, lines, verified, alignment);
      ReturnsOfFenced([], FENCE, lines);
      FenceHasNone(lines);
    } else {
      var block := lines[1..end];
      FencedAddsNone(block, lines[end], lines[end + 1..], verified, alignment);
      assert lines == Fenced(block, lines[end], lines[end + 1..]);
      RestIsFenced(lines, end, verified, alignment);
    }
  }

  lemma FencedAddsNone(block: seq<string>, close: string, body: seq<string>, verified: string, alignment: string)
    requires Scalar(verified) && Scalar(alignment)
    ensures LineReturns(Fenced(UpsertBoth(block, verified, alignment), close, body))
         <= LineReturns(Fenced(block, close, body))
  {
    hide Upsert, Scalar, LineReturns, Fenced;
    UpsertAddsNone(block, VERIFIED, verified);
    UpsertAddsNone(Upsert(block, VERIFIED, verified), ALIGNMENT, alignment);
    ReturnsOfFenced(UpsertBoth(block, verified, alignment), close, body);
    ReturnsOfFenced(block, close, body);
  }

  lemma FenceHasNone(lines: seq<string>)
    ensures LineReturns([FENCE] + lines) == LineReturns(lines) && LineReturns([]) == 0
  {
    NoReturns(FENCE);
    assert ([FENCE] + lines)[1..] == lines;
  }

  /** Stamping a stamped text once more with the same values changes nothing, exactly when its
      line ends are normal. */
  lemma StampAgain(text: string, verified: string, alignment: string)
    requires Scalar(verified) && Scalar(alignment)
    ensures var once := Stamped(text, verified, alignment);
            Stamped(once, verified, alignment) == once <==> Normalize(once) == once
  {
    var once := Stamped(text, verified, alignment);
    NormalizeDrops(once);
    StampAddsNone(once, verified, alignment);
    hide CarriageReturns, Normalize, Closes, Scalar, UpsertBoth;
    if Normalize(once) == once {
      var close, body := StampedIsFenced(text, verified, alignment);
      var block := UpsertBoth(BlockOf(text), verified, alignment);
      UpsertBothKeepsFences(BlockOf(text), verified, alignment);
      StampFenced(block, close, body, verified, alignment);
      UpsertTwice(BlockOf(text), verified, alignment);
    }
  }

  lemma StampFenced(block: seq<string>, close: string, body: seq<string>, verified: string, alignment: string)
    requires Block(block) && Closes(close) && OneLine(close) && (body == [] || Lines(body))
    requires Normalize(Join(Fenced(block, close, body))) == Join(Fenced(block, close, body))
    ensures Stamped(Join(Fenced(block, close, body)), verified, alignment)
         == Join(Fenced(UpsertBoth(block, verified, alignment), close, body))
  {
    var lines := Fenced(block, close, body);
    assert Lines(lines);
    SplitJoin(lines);
    FenceOfFenced(block, close, body);
    hide Closes, Normalize, UpsertBoth, Block;
    assert lines[1..|block| + 1] == block && lines[|block| + 1..] == [close] + body;
    assert StampedLines(lines, verified, alignment) == Fenced(UpsertBoth(block, verified, alignment), close, body);
  }

  /** Without carriage returns stamping is idempotent. */
  lemma PlainTextStampsOnce(text: string, verified: string, alignment: string)
    requires Scalar(verified) && Scalar(alignment) && '\r' !in text
    ensures var once := Stamped(text, verified, alignment); Stamped(once, verified, alignment) == once
  {
    var once := Stamped(text, verified, alignment);
    NothingToNormalize(text);
    StampAddsNone(text, verified, alignment);
    NormalizeDrops(once);
    NoReturns(text);
    StampAgain(text, verified, alignment);
  }

  // ---------------------------------------------------------------- line ends of the given text

  predicate EndsInCR(line: string) { line != "" && line[|line| - 1] == '\r' }

  predicate Clean(lines: seq<string>) { forall i | 0 <= i < |lines| :: !EndsInCR(lines[i]) }

  predicate CleanButLast(lines: seq<string>) { forall i | 0 <= i < |lines| - 1 :: !EndsInCR(lines[i]) }

  lemma NormalExact(lines: seq<string>)
    requires Lines(lines)
    ensures Normalize(Join(lines)) == Join(lines) <==> CleanButLast(lines)
  {
    NormalizeJoin(lines);
    hide Normalize;
    if CleanButLast(lines) {
      assert DropCRs(lines) == lines;
    } else {
      var i :| 0 <= i < |lines| - 1 && EndsInCR(lines[i]);
      assert |DropCRs(lines)[i]| < |lines[i]|;
      SplitJoin(lines);
      SplitJoin(DropCRs(lines));
    }
  }

  lemma CleanConcat(a: seq<string>, b: seq<string>)
    requires b != []
    ensures CleanButLast(a + b) <==> Clean(a) && CleanButLast(b)
  {
    hide EndsInCR;
    assert forall i | 0 <= i < |a| :: (a + b)[i] == a[i];
    assert forall i | 0 <= i < |b| :: (a + b)[|a| + i] == b[i];
  }

  /** The line is one that stamping replaces: the first of the frontmatter with one of the keys. */
  predicate Replaced(lines: seq<string>, i: nat)
    requires lines != []
  {
    lines[0] == FENCE &&
    var end := ClosingFence(lines, 1);
    0 < i < end < |lines| &&
    (i == 1 + KeyIndex(lines[1..end], VERIFIED) || i == 1 + KeyIndex(lines[1..end], ALIGNMENT))
  }

  /** No line of the text, read once, ends in a carriage return, apart from the last line and the
      lines that stamping replaces. */
  ghost predicate CleanLineEnds(text: string) {
    var lines := Split(Normalize(text));
    forall i: nat | i < |lines| - 1 && EndsInCR(lines[i]) :: Replaced(lines, i)
  }

  lemma KeyValueClean(key: string, value: string)
    requires (key == VERIFIED || key == ALIGNMENT) && Scalar(value)
    ensures !EndsInCR(KeyValue(key, value)) && !EndsInCR(FENCE)
  {
    KeyValueIsLine(key, value);
  }

  lemma UpsertClean(block: seq<string>, verified: string, alignment: string)
    requires Scalar(verified) && Scalar(alignment)
    ensures Clean(UpsertBoth(block, verified, alignment)) <==>
              forall i | 0 <= i < |block| && EndsInCR(block[i]) ::
                i == KeyIndex(block, VERIFIED) || i == KeyIndex(block, ALIGNMENT)
  {
    OtherLinesSurvive(block, verified, alignment);
    KeyValueClean(VERIFIED, verified);
    KeyValueClean(ALIGNMENT, alignment);
    hide UpsertBoth, KeyValue, KeyIndex, EndsInCR, Scalar;
    var u := UpsertBoth(block, verified, alignment);
    var v, a := KeyIndex(block, VERIFIED), KeyIndex(block, ALIGNMENT);
    assert forall i | 0 <= i < |u| :: i == v || i == (if a == |block| then |u| - 1 else a) || (i < |block| && u[i] == block[i]);
    assert forall i | 0 <= i < |block| && i != v && i != a :: u[i] == block[i];
  }

  lemma FreshClean(lines: seq<string>, verified: string, alignment: string)
    requires Scalar(verified) && Scalar(alignment) && lines != []
    ensures CleanButLast(FreshBlock(verified, alignment) + lines) <==> CleanButLast(lines)
  {
    KeyValueClean(VERIFIED, verified);
    KeyValueClean(ALIGNMENT, alignment);
    hide KeyValue, EndsInCR, Scalar;
    CleanConcat(FreshBlock(verified, alignment), lines);
  }

  /** The lines before `end`, and those from it on. */
  lemma CleanAround(lines: seq<string>, end: nat, v: nat, a: nat)
    requires 0 < end < |lines| && !EndsInCR(lines[0])
    ensures (forall i: nat | i < |lines| - 1 && EndsInCR(lines[i]) :: 0 < i < end && (i == 1 + v || i == 1 + a)) <==>
              CleanButLast(lines[end..]) &&
              forall i | 0 <= i < |lines[1..end]| && EndsInCR(lines[1..end][i]) :: i == v || i == a
  {
    hide EndsInCR;
    var block, rest := lines[1..end], lines[end..];
    assert forall i | 0 <= i < |block| :: block[i] == lines[i + 1];
    assert forall i | 0 < i < end :: lines[i] == block[i - 1];
    assert forall i | 0 <= i < |rest| :: rest[i] == lines[i + end];
    assert forall i | end <= i < |lines| :: lines[i] == rest[i - end];
  }

  /** The stamped lines are clean when the upserted block and the rest of the file are. */
  lemma StampedClean(lines: seq<string>, end: nat, verified: string, alignment: string)
    requires Scalar(verified) && Scalar(alignment) && lines != [] && lines[0] == FENCE
    requires end == ClosingFence(lines, 1) < |lines|
    ensures CleanButLast(StampedLines(lines, verified, alignment)) <==>
              Clean(UpsertBoth(lines[1..end], verified, alignment)) && CleanButLast(lines[end..])
  {
    hide UpsertBoth, EndsInCR, Scalar, Closes, Clean, CleanButLast, FreshBlock;
    var u := UpsertBoth(lines[1..end], verified, alignment);
    CleanConcat([FENCE] + u, lines[end..]);
    FenceFirst(u);
  }

  /** With a real block, each line that ends in a carriage return is replaced. */
  lemma BlockClean(lines: seq<string>, verified: string, alignment: string)
    requires Scalar(verified) && Scalar(alignment) && lines != [] && lines[0] == FENCE
    requires ClosingFence(lines, 1) < |lines|
    ensures CleanButLast(StampedLines(lines, verified, alignment)) <==>
              forall i: nat | i < |lines| - 1 && EndsInCR(lines[i]) :: Replaced(lines, i)
  {
    var end := ClosingFence(lines, 1);
    var block := lines[1..end];
    KeyValueClean(VERIFIED, verified);
    hide UpsertBoth, KeyIndex, EndsInCR, Scalar, Closes, Clean, CleanButLast, StampedLines, KeyValue;
    UpsertClean(block, verified, alignment);
    StampedClean(lines, end, verified, alignment);
    CleanAround(lines, end, KeyIndex(block, VERIFIED), KeyIndex(block, ALIGNMENT));
  }

  lemma FenceFirst(u: seq<string>)
    ensures Clean([FENCE] + u) <==> Clean(u)
  {
    assert forall i | 0 <= i < |u| :: ([FENCE] + u)[i + 1] == u[i];
    assert forall i | 0 < i < |u| + 1 :: ([FENCE] + u)[i] == u[i - 1];
  }

  lemma BlockAndRest(lines: seq<string>, end: nat)
    requires Lines(lines) && 0 < end < |lines| && forall k | 1 <= k < end :: !Closes(lines[k])
    ensures Block(lines[1..end]) && OneLine(lines[end]) && (lines[end + 1..] == [] || Lines(lines[end + 1..]))
  {
    hide Closes, OneLine;
  }

  lemma BlockStampedIs(lines: seq<string>, end: nat, verified: string, alignment: string)
    requires lines != [] && lines[0] == FENCE && end == ClosingFence(lines, 1) < |lines|
    ensures StampedLines(lines, verified, alignment)
         == Fenced(UpsertBoth(lines[1..end], verified, alignment), lines[end], lines[end + 1..])
  {
    hide Closes, UpsertBoth, Fenced, FreshBlock;
    RestIsFenced(lines, end, verified, alignment);
  }

  lemma BlockStampedIsLines(lines: seq<string>, verified: string, alignment: string)
    requires Scalar(verified) && Scalar(alignment) && Lines(lines) && lines[0] == FENCE && ClosingFence(lines, 1) < |lines|
    ensures Lines(StampedLines(lines, verified, alignment))
  {
    var end := ClosingFence(lines, 1);
    BlockAndRest(lines, end);
    hide Closes, UpsertBoth, OneLine, Scalar, Block, Fenced, Lines, StampedLines, ClosingFence;
    BlockStampedIs(lines, end, verified, alignment);
    UpsertBothKeepsFences(lines[1..end], verified, alignment);
    FencedIsLines(UpsertBoth(lines[1..end], verified, alignment), lines[end], lines[end + 1..]);
  }

  lemma StampedLinesAreLines(text: string, verified: string, alignment: string)
    requires Scalar(verified) && Scalar(alignment)
    ensures Lines(StampedLines(Split(Normalize(text)), verified, alignment))
  {
    var lines := Split(Normalize(text));
    SplitIsLines(Normalize(text));
    hide Normalize, Closes, UpsertBoth, OneLine, Scalar, Fenced, FreshBlock, Lines;
    if lines[0] == FENCE && ClosingFence(lines, 1) < |lines| {
      BlockStampedIsLines(lines, verified, alignment);
    } else {
      FenceCloses();
      UpsertBothKeepsFences([], verified, alignment);
      FencedIsLines(UpsertBoth([], verified, alignment), FENCE, lines);
      FreshIsFenced(lines, verified, alignment);
    }
  }

  /** For every text, stamping twice is stamping once exactly when the text's line ends are clean. */
  lemma StampTwice(text: string, verified: string, alignment: string)
    requires Scalar(verified) && Scalar(alignment)
    ensures var once := Stamped(text, verified, alignment);
            Stamped(once, verified, alignment) == once <==> CleanLineEnds(text)
  {
    StampAgain(text, verified, alignment);
    var lines := Split(Normalize(text));
    StampedLinesAreLines(text, verified, alignment);
    NormalExact(StampedLines(lines, verified, alignment));
    hide Normalize, Closes, UpsertBoth, FreshBlock, EndsInCR, CleanButLast;
    if lines[0] == FENCE && ClosingFence(lines, 1) < |lines| {
      BlockClean(lines, verified, alignment);
    } else {
      FreshClean(lines, verified, alignment);
      NothingReplaced(lines);
    }
  }

  lemma NothingReplaced(lines: seq<string>)
    requires lines != [] && (lines[0] != FENCE || ClosingFence(lines, 1) == |lines|)
    ensures CleanButLast(lines) <==> forall i: nat | i < |lines| - 1 && EndsInCR(lines[i]) :: Replaced(lines, i)
  {
    hide EndsInCR, Closes;
  }

  /** A text on which stamping is not idempotent. */
  lemma StampTwiceExample()
    ensures var once := Stamped("a\r\r\n", "", ""); Stamped(once, "", "") != once
  {
    var text, line := "a\r\r\n", "a\r";
    SplitLine(line, "");
    assert Normalize(text) == line + ['\n'] + "" by {
      assert text == "a\r\r" + (['\n'] + "");
      NormalizeLine("a\r\r", "");
      NormalizeEmpty();
    }
    assert Split(Normalize(text)) == [line, ""];
    assert EndsInCR(line) && !Replaced([line, ""], 0);
    StampTwice(text, "", "");
  }
}
