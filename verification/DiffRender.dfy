/** Unified diffs as git writes them, and the theorem that `Diff.Parse` reads them back. */
module DiffRender {
  import opened Diff
  import opened Options
  import opened Text

  /** A line of a hunk; `noEol` when "\ No newline at end of file" follows it. */
  datatype SrcLine = SrcLine(kind: Kind, text: string, noEol: bool)

  /** A hunk; a count that equals one may be left out of the header. */
  datatype SrcHunk = SrcHunk(oldStart: nat, oldCount: Option<nat>, newStart: nat, newCount: Option<nat>,
                             section: string, lines: seq<SrcLine>)

  /** What git reports of a file; a created or removed file has a mode. */
  datatype Change = Modify | Create(mode: string) | Remove(mode: string) | Rename

  /** A file's entry. Header lines that the parser has no use for may stand before the lines that
      name the change (as `old mode` and `similarity index` do), between the two of a rename, and
      behind them (as `index` does). */
  datatype SrcFile = SrcFile(oldPath: string, newPath: string, change: Change, binary: bool,
                             before: seq<string>, between: seq<string>, behind: seq<string>,
                             hunks: seq<SrcHunk>)

  // ---------------------------------------------------------------- rendering

  function Marker(k: Kind): char {
    match k case Add => '+' case Del => '-' case Context => ' '
  }

  const NO_EOL := "\\ No newline at end of file"

  function RenderLine(l: SrcLine): seq<string> {
    [[Marker(l.kind)] + l.text] + if l.noEol then [NO_EOL] else []
  }

  function RenderLines(lines: seq<SrcLine>): seq<string> {
    if lines == [] then [] else RenderLine(lines[0]) + RenderLines(lines[1..])
  }

  function RenderRange(start: nat, count: Option<nat>): string {
    Decimal(start) + if count.Some? then "," + Decimal(count.value) else ""
  }

  function HunkHeader(h: SrcHunk): string {
    "@@ -" + (RenderRange(h.oldStart, h.oldCount) + (" +" + (RenderRange(h.newStart, h.newCount) +
      (" @@" + if h.section == "" then "" else " " + h.section))))
  }

  function RenderHunk(h: SrcHunk): seq<string> {
    [HunkHeader(h)] + RenderLines(h.lines)
  }

  function RenderHunks(hs: seq<SrcHunk>): seq<string> {
    if hs == [] then [] else RenderHunk(hs[0]) + RenderHunks(hs[1..])
  }

  function DiffGitLine(f: SrcFile): string {
    DIFF_GIT + ("a/" + f.oldPath + " b/" + f.newPath)
  }

  function ChangeLines(f: SrcFile): seq<string> {
    match f.change
    case Modify => []
    case Create(mode) => ["new file mode " + mode]
    case Remove(mode) => ["deleted file mode " + mode]
    case Rename => ["rename from " + f.oldPath] + (f.between + ["rename to " + f.newPath])
  }

  const DEV_NULL := "/dev/null"

  /** The names as the lines above the first hunk give them. */
  function OldName(f: SrcFile): string { if f.change.Create? then DEV_NULL else "a/" + f.oldPath }

  function NewName(f: SrcFile): string { if f.change.Remove? then DEV_NULL else "b/" + f.newPath }

  function ContentLines(f: SrcFile): seq<string> {
    if f.binary then ["Binary files " + (OldName(f) + (" and " + (NewName(f) + " differ")))]
    else if f.hunks == [] then []
    else ["--- " + OldName(f), "+++ " + NewName(f)]
  }

  function RenderFile(f: SrcFile): seq<string> {
    [DiffGitLine(f)] + (f.before + (ChangeLines(f) + (f.behind + (ContentLines(f) + RenderHunks(f.hunks)))))
  }

  function RenderFiles(fs: seq<SrcFile>): seq<string> {
    if fs == [] then [] else RenderFile(fs[0]) + RenderFiles(fs[1..])
  }

  /** The patch text: every line ends with a newline. */
  function Render(fs: seq<SrcFile>): string {
    Join(RenderFiles(fs) + [""])
  }

  // ---------------------------------------------------------------- what can be rendered

  ghost predicate Ignored(ln: string) {
    && OneLine(ln)
    && !HasPrefix(ln, DIFF_GIT) && !HasPrefix(ln, "@@")
    && !HasPrefix(ln, "new file mode") && !HasPrefix(ln, "deleted file mode")
    && !HasPrefix(ln, "rename from ") && !HasPrefix(ln, "rename to ") && !HasPrefix(ln, "Binary files ")
    && !HasPrefix(ln, "--- ") && !HasPrefix(ln, "+++ ")
  }

  ghost predicate AllIgnored(lines: seq<string>) { forall i | 0 <= i < |lines| :: Ignored(lines[i]) }

  ghost predicate WellFormed(f: SrcFile) {
    && OneLine(f.oldPath) && OneLine(f.newPath)
    && (f.binary ==> f.hunks == [])
    && AllIgnored(f.before) && AllIgnored(f.between) && AllIgnored(f.behind)
    && (f.change.Create? || f.change.Remove? ==> OneLine(f.change.mode))
    && (forall i | 0 <= i < |f.hunks| :: CleanHunk(f.hunks[i]))
  }

  ghost predicate AllWellFormed(fs: seq<SrcFile>) {
    forall i | 0 <= i < |fs| :: WellFormed(fs[i])
  }

  // ---------------------------------------------------------------- what the parse must yield

  /** Line numbers run on from the hunk's start, old ones over context and deleted lines and new
      ones over context and added lines. */
  function Numbered(lines: seq<SrcLine>, o: nat, n: nat): seq<Line> {
    if lines == [] then []
    else
      var l := lines[0];
      [NumberedLine(l, o, n)] +
      Numbered(lines[1..], if l.kind == Add then o else o + 1, if l.kind == Del then n else n + 1)
  }

  function NumberedLine(l: SrcLine, o: nat, n: nat): Line {
    Line(l.kind, if l.kind == Add then 0 else o, if l.kind == Del then 0 else n, l.text)
  }

  function OfKind(lines: seq<SrcLine>, k: Kind): nat {
    if lines == [] then 0 else (if lines[0].kind == k then 1 else 0) + OfKind(lines[1..], k)
  }

  function HunksOfKind(hs: seq<SrcHunk>, k: Kind): nat {
    if hs == [] then 0 else OfKind(hs[0].lines, k) + HunksOfKind(hs[1..], k)
  }

  function ExpectedHunks(hs: seq<SrcHunk>): seq<Hunk> {
    if hs == [] then []
    else [Hunk(hs[0].section, Numbered(hs[0].lines, hs[0].oldStart, hs[0].newStart))] + ExpectedHunks(hs[1..])
  }

  function HunkLineCount(hs: seq<SrcHunk>): nat {
    if hs == [] then 0 else |hs[0].lines| + HunkLineCount(hs[1..])
  }

  function LineCount(fs: seq<SrcFile>): nat {
    if fs == [] then 0 else HunkLineCount(fs[0].hunks) + LineCount(fs[1..])
  }

  function ExpectedFile(f: SrcFile): File {
    File(f.oldPath, f.newPath,
         StatusOf(f.change), f.binary, HunksOfKind(f.hunks, Add), HunksOfKind(f.hunks, Del), ExpectedHunks(f.hunks))
  }

  function ExpectedFiles(fs: seq<SrcFile>): seq<File> {
    if fs == [] then [] else [ExpectedFile(fs[0])] + ExpectedFiles(fs[1..])
  }

  // ---------------------------------------------------------------- hunk headers

  lemma {:induction false} DigitRunOf(d: string, rest: string)
    requires AllDigits(d) && (rest == "" || !IsDigit(rest[0]))
    ensures DigitRun(d + rest) == |d|
  {
    if d != "" {
      DigitRunOf(d[1..], rest);
      assert (d + rest)[1..] == d[1..] + rest;
    } else {
      assert d + rest == rest;
    }
  }

  lemma ParseCountOf(start: nat, count: nat, rest: string)
    requires rest != "" && !IsDigit(rest[0])
    ensures ParseRange(Decimal(start) + ("," + (Decimal(count) + rest))) == Option.Some((start, rest))
  {
    var d, c := Decimal(start), Decimal(count);
    var tail := "," + (c + rest);
    var s := d + tail;
    DecimalRoundTrip(start);
    DigitRunOf(d, tail);
    DigitRunOf(c, rest);
    hide Decimal, DigitRun, ParseDecimal;
    assert s[|d|..] == tail && s[..|d|] == d;
    assert tail[1..] == c + rest && tail[1 + |c|..] == rest;
  }

  lemma ParseNoCount(start: nat, rest: string)
    requires rest != "" && !IsDigit(rest[0]) && rest[0] != ','
    ensures ParseRange(Decimal(start) + rest) == Option.Some((start, rest))
  {
    var d := Decimal(start);
    DecimalRoundTrip(start);
    DigitRunOf(d, rest);
    hide Decimal, DigitRun, ParseDecimal;
    assert (d + rest)[|d|..] == rest && (d + rest)[..|d|] == d;
  }

  lemma ParseRangeOf(start: nat, count: Option<nat>, rest: string)
    requires rest != "" && !IsDigit(rest[0]) && rest[0] != ','
    ensures ParseRange(RenderRange(start, count) + rest) == Option.Some((start, rest))
  {
    hide Decimal, ParseRange, IsDigit;
    if count == None {
      ParseNoCount(start, rest);
      assert RenderRange(start, count) == Decimal(start) + "";
      assert RenderRange(start, count) + rest == Decimal(start) + rest;
    } else {
      ParseCountOf(start, count.value, rest);
      assert RenderRange(start, count) + rest == Decimal(start) + ("," + (Decimal(count.value) + rest));
    }
  }

  lemma HunkHeaderRoundTrip(h: SrcHunk)
    ensures ParseHunkHeader(HunkHeader(h)) == (h.oldStart, h.newStart, h.section)
    ensures HasPrefix(HunkHeader(h), "@@") && !HasPrefix(HunkHeader(h), DIFF_GIT)
  {
    hide RenderRange, ParseRange;
    var trailer := if h.section == "" then "" else " " + h.section;
    var r2 := " @@" + trailer;
    var r1 := " +" + (RenderRange(h.newStart, h.newCount) + r2);
    var ln := HunkHeader(h);
    assert ln == "@@ -" + (RenderRange(h.oldStart, h.oldCount) + r1);
    assert ln[4..] == RenderRange(h.oldStart, h.oldCount) + r1;
    ParseRangeOf(h.oldStart, h.oldCount, r1);
    assert r1[2..] == RenderRange(h.newStart, h.newCount) + r2;
    ParseRangeOf(h.newStart, h.newCount, r2);
    assert r2[3..] == trailer;
    assert ln[0] == '@' && DIFF_GIT[0] == 'd';
  }

  // ---------------------------------------------------------------- any header line

  ghost predicate IsNumber(s: string) { s != "" && AllDigits(s) }

  ghost predicate IsCount(s: string) { s == "" || (s[0] == ',' && IsNumber(s[1..])) }

  /** A hunk header: two start lines, either with a count or without, and what follows. */
  ghost predicate HeaderParts(ln: string, from: string, fromCount: string, to: string, toCount: string, trailer: string) {
    && IsNumber(from) && IsCount(fromCount) && IsNumber(to) && IsCount(toCount)
    && ln == "@@ -" + (from + (fromCount + (" +" + (to + (toCount + (" @@" + trailer))))))
  }

  lemma RangeParsed(n: string, count: string, rest: string)
    requires IsNumber(n) && IsCount(count) && rest != "" && !IsDigit(rest[0]) && rest[0] != ','
    ensures ParseRange(n + (count + rest)) == Option.Some((ParseDecimal(n), rest))
  {
    hide ParseDecimal, DigitRun, AllDigits;
    var tail := count + rest;
    assert tail[0] == if count == "" then rest[0] else ',';
    DigitRunOf(n, tail);
    var s := n + tail;
    assert s[..|n|] == n && s[|n|..] == tail;
    if count != "" {
      var digits := count[1..];
      DigitRunOf(digits, rest);
      assert tail[1..] == digits + rest && tail[1 + |digits|..] == rest;
    } else {
      assert tail == rest;
    }
  }

  /** The count behind a number: a comma and digits, or nothing. */
  lemma CountHasParts(rest: string) returns (count: string, after: string)
    ensures IsCount(count) && rest == count + after
    ensures var m := if HasPrefix(rest, ",") then DigitRun(rest[1..]) else 0;
            after == if m > 0 then rest[1 + m..] else rest
  {
    hide DigitRun, AllDigits;
    var m := if HasPrefix(rest, ",") then DigitRun(rest[1..]) else 0;
    if m > 0 {
      count, after := rest[..1 + m], rest[1 + m..];
      assert count[1..] == rest[1..][..m];
    } else {
      count, after := "", rest;
    }
  }

  lemma RangeHasParts(s: string) returns (n: string, count: string)
    requires ParseRange(s).Some?
    ensures IsNumber(n) && IsCount(count) && s == n + (count + ParseRange(s).value.1)
    ensures ParseRange(s).value.0 == ParseDecimal(n)
  {
    hide ParseDecimal, DigitRun, AllDigits, IsCount, HasPrefix;
    var k, after := DigitRun(s), "";
    n := s[..k];
    count, after := CountHasParts(s[k..]);
    assert s == n + s[k..];
  }

  /** Every line of that form is read so, whatever its numbers look like. */
  lemma HeaderParsed(ln: string, from: string, fromCount: string, to: string, toCount: string, trailer: string)
    requires HeaderParts(ln, from, fromCount, to, toCount, trailer)
    ensures ParseHunkHeader(ln) == (ParseDecimal(from), ParseDecimal(to), if HasPrefix(trailer, " ") then trailer[1..] else trailer)
  {
    hide ParseRange, ParseDecimal, IsNumber, IsCount;
    var r2 := " @@" + trailer;
    var r1 := " +" + (to + (toCount + r2));
    assert ln[4..] == from + (fromCount + r1);
    RangeParsed(from, fromCount, r1);
    assert r1[2..] == to + (toCount + r2);
    RangeParsed(to, toCount, r2);
    assert r2[3..] == trailer;
  }

  /** And any other line as a hunk at line one without a section. */
  lemma OtherHeaderParsed(ln: string)
    ensures ParseHunkHeader(ln) == (1, 1, "") ||
            exists from, fromCount, to, toCount, trailer :: HeaderParts(ln, from, fromCount, to, toCount, trailer)
  {
    hide ParseRange, ParseDecimal, IsNumber, IsCount;
    if HasPrefix(ln, "@@ -") && ParseRange(ln[4..]).Some? {
      var from, fromCount := RangeHasParts(ln[4..]);
      var r1 := ParseRange(ln[4..]).value.1;
      if HasPrefix(r1, " +") && ParseRange(r1[2..]).Some? {
        var to, toCount := RangeHasParts(r1[2..]);
        var r2 := ParseRange(r1[2..]).value.1;
        if HasPrefix(r2, " @@") {
          assert r2 == " @@" + r2[3..] && r1 == " +" + r1[2..] && ln == "@@ -" + ln[4..];
          assert HeaderParts(ln, from, fromCount, to, toCount, r2[3..]);
        }
      }
    }
  }

  // ---------------------------------------------------------------- hunks

  /** The parser after the lines of a hunk. */
  function AfterLines(p: Parser, lines: seq<SrcLine>): Parser
    requires p.cur.Some? && p.hunk.Some?
  {
    var c, h := p.cur.value, p.hunk.value;
    p.(hunk := Some(h.(lines := h.lines + Numbered(lines, p.oldLine, p.newLine))),
       cur := Some(c.(additions := c.additions + OfKind(lines, Add), deletions := c.deletions + OfKind(lines, Del))),
       oldLine := p.oldLine + OfKind(lines, Del) + OfKind(lines, Context),
       newLine := p.newLine + OfKind(lines, Add) + OfKind(lines, Context),
       total := p.total + |lines|)
  }

  lemma OneLineCounts(l: SrcLine, o: nat, n: nat)
    ensures Numbered([l], o, n) == [NumberedLine(l, o, n)]
    ensures forall k: Kind :: OfKind([l], k) == if l.kind == k then 1 else 0
  {
    assert [l][1..] == [];
  }

  lemma OneHunkCounts(h: SrcHunk)
    ensures ExpectedHunks([h]) == [Hunk(h.section, Numbered(h.lines, h.oldStart, h.newStart))]
    ensures HunkLineCount([h]) == |h.lines| && forall k: Kind :: HunksOfKind([h], k) == OfKind(h.lines, k)
  {
    assert [h][1..] == [];
  }

  lemma StepsOne(p: Parser, ln: string, budget: nat)
    ensures Steps(p, [ln], budget) == Step(p, ln, budget)
  {
    assert [ln][1..] == [];
  }

  /** A marker line is never taken for a header, whatever its text. */
  lemma MarkerLineStep(p: Parser, l: SrcLine, budget: nat)
    requires p.cur.Some? && p.hunk.Some? && p.total < budget
    ensures Steps(p, RenderLine(l), budget) == AfterLines(p, [l])
  {
    var ln := [Marker(l.kind)] + l.text;
    assert ln[0] == Marker(l.kind) && ln[1..] == l.text;
    assert DIFF_GIT[0] == 'd' && "@@"[0] == '@' && NO_EOL[0] == '\\';
    OneLineCounts(l, p.oldLine, p.newLine);
    var q := HunkLine(p, ln, budget);
    assert Step(p, ln, budget) == q;
    assert Step(q, NO_EOL, budget) == q;
    assert q == AfterLines(p, [l]);
    StepsOne(p, ln, budget);
    StepsOne(q, NO_EOL, budget);
    StepsConcat(p, [ln], [NO_EOL], budget);
    assert l.noEol || RenderLine(l) == [ln];
  }

  lemma AfterNoLines(p: Parser)
    requires p.cur.Some? && p.hunk.Some?
    ensures AfterLines(p, []) == p
  {
    assert p.hunk.value.lines + [] == p.hunk.value.lines;
  }

  lemma AfterLinesCons(p: Parser, l: SrcLine, rest: seq<SrcLine>)
    requires p.cur.Some? && p.hunk.Some?
    ensures var q := AfterLines(p, [l]);
            q.cur.Some? && q.hunk.Some? && q.total == p.total + 1 && AfterLines(q, rest) == AfterLines(p, [l] + rest)
  {
    var lines := [l] + rest;
    assert lines[1..] == rest;
    OneLineCounts(l, p.oldLine, p.newLine);
    var one := Numbered([l], p.oldLine, p.newLine);
    var q := AfterLines(p, [l]);
    assert Numbered(lines, p.oldLine, p.newLine) == one + Numbered(rest, q.oldLine, q.newLine);
    assert p.hunk.value.lines + one + Numbered(rest, q.oldLine, q.newLine)
        == p.hunk.value.lines + (one + Numbered(rest, q.oldLine, q.newLine));
  }

  lemma {:induction false} LinesParse(p: Parser, lines: seq<SrcLine>, budget: nat)
    requires p.cur.Some? && p.hunk.Some? && p.total + |lines| <= budget
    ensures Steps(p, RenderLines(lines), budget) == AfterLines(p, lines)
    decreases |lines|
  {
    hide AfterLines, RenderLine, Step;
    if lines == [] {
      AfterNoLines(p);
    } else {
      var l, rest := lines[0], lines[1..];
      assert lines == [l] + rest;
      StepsConcat(p, RenderLine(l), RenderLines(rest), budget);
      MarkerLineStep(p, l, budget);
      AfterLinesCons(p, l, rest);
      LinesParse(AfterLines(p, [l]), rest, budget);
    }
  }

  /** Reading hunks appends them to the open file, once the last one is flushed. */
  ghost predicate ReadHunks(p: Parser, q: Parser, hs: seq<SrcHunk>) {
    var p', q' := FlushHunk(p), FlushHunk(q);
    && p'.cur.Some? && q'.cur.Some? && q'.hunk == None
    && q'.files == p'.files && q'.truncated == p'.truncated && q'.total == p'.total + HunkLineCount(hs)
    && q'.cur.value == p'.cur.value.(
         hunks := p'.cur.value.hunks + ExpectedHunks(hs),
         additions := p'.cur.value.additions + HunksOfKind(hs, Add),
         deletions := p'.cur.value.deletions + HunksOfKind(hs, Del))
  }

  lemma OneHunkParse(p: Parser, h: SrcHunk, budget: nat)
    requires p.cur.Some? && p.total + |h.lines| <= budget
    ensures ReadHunks(p, Steps(p, RenderHunk(h), budget), [h])
  {
    hide HunkHeader, ParseHunkHeader;
    HunkHeaderRoundTrip(h);
    OneHunkCounts(h);
    var lines := RenderHunk(h);
    assert lines[0] == HunkHeader(h) && lines[1..] == RenderLines(h.lines);
    var q := Step(p, lines[0], budget);
    LinesParse(q, h.lines, budget);
    assert [] + Numbered(h.lines, h.oldStart, h.newStart) == Numbered(h.lines, h.oldStart, h.newStart);
  }

  lemma FlushKeepsTotal(p: Parser)
    ensures FlushHunk(p).total == p.total && (FlushHunk(p).cur.Some? <==> p.cur.Some?)
    ensures p.cur.Some? ==> FlushHunk(p).hunk == None
  {
  }

  lemma ReadNothing(p: Parser)
    requires p.cur.Some?
    ensures ReadHunks(p, p, [])
  {
    FlushKeepsTotal(p);
    hide FlushHunk;
    var c := FlushHunk(p).cur.value;
    assert c.hunks + [] == c.hunks;
  }

  lemma ReadBoth(p: Parser, q: Parser, r: Parser, h: SrcHunk, rest: seq<SrcHunk>)
    requires ReadHunks(p, q, [h]) && ReadHunks(q, r, rest)
    ensures ReadHunks(p, r, [h] + rest)
  {
    OneHunkCounts(h);
    var hs := [h] + rest;
    assert hs[1..] == rest;
    hide FlushHunk, Numbered;
    var c := FlushHunk(p).cur.value;
    assert c.hunks + ExpectedHunks([h]) + ExpectedHunks(rest) == c.hunks + (ExpectedHunks([h]) + ExpectedHunks(rest));
  }

  lemma ReadTotal(p: Parser, q: Parser, h: SrcHunk)
    requires ReadHunks(p, q, [h])
    ensures q.cur.Some? && q.total == p.total + |h.lines|
  {
    FlushKeepsTotal(p);
    FlushKeepsTotal(q);
    OneHunkCounts(h);
  }

  lemma {:induction false} HunksParse(p: Parser, hs: seq<SrcHunk>, budget: nat)
    requires p.cur.Some? && p.total + HunkLineCount(hs) <= budget
    ensures ReadHunks(p, Steps(p, RenderHunks(hs), budget), hs)
    decreases |hs|
  {
    hide RenderHunk, ReadHunks, Step;
    if hs == [] {
      ReadNothing(p);
    } else {
      var h, rest := hs[0], hs[1..];
      StepsConcat(p, RenderHunk(h), RenderHunks(rest), budget);
      OneHunkParse(p, h, budget);
      var q := Steps(p, RenderHunk(h), budget);
      ReadTotal(p, q, h);
      HunksParse(q, rest, budget);
      ReadBoth(p, q, Steps(q, RenderHunks(rest), budget), h, rest);
      assert hs == [h] + rest;
    }
  }

  // ---------------------------------------------------------------- file headers

  /** A line that starts neither a file nor a hunk. */
  ghost predicate Plain(ln: string) { !HasPrefix(ln, DIFF_GIT) && !HasPrefix(ln, "@@") }

  function FileHeaders(f: File, lines: seq<string>): File
    decreases |lines|
  {
    if lines == [] then f else FileHeaders(FileHeader(f, lines[0]), lines[1..])
  }

  lemma {:induction false} HeaderSteps(p: Parser, lines: seq<string>, budget: nat)
    requires p.cur.Some? && p.hunk == None && forall i | 0 <= i < |lines| :: Plain(lines[i])
    ensures Steps(p, lines, budget) == p.(cur := Some(FileHeaders(p.cur.value, lines)))
    decreases |lines|
  {
    hide FileHeader;
    if lines != [] {
      HeaderSteps(Step(p, lines[0], budget), lines[1..], budget);
    }
  }

  lemma {:induction false} HeadersConcat(f: File, a: seq<string>, b: seq<string>)
    ensures FileHeaders(f, a + b) == FileHeaders(FileHeaders(f, a), b)
    decreases |a|
  {
    hide FileHeader;
    if a == [] {
      assert a + b == b;
    } else {
      assert (a + b)[0] == a[0] && (a + b)[1..] == a[1..] + b;
      HeadersConcat(FileHeader(f, a[0]), a[1..], b);
    }
  }

  lemma {:induction false} IgnoredLines(f: File, lines: seq<string>)
    requires AllIgnored(lines)
    ensures FileHeaders(f, lines) == f && AllPlain(lines)
  {
    if lines != [] { IgnoredLines(f, lines[1..]); }
  }

  ghost predicate AllPlain(lines: seq<string>) { forall i | 0 <= i < |lines| :: Plain(lines[i]) }

  lemma PlainConcat(a: seq<string>, b: seq<string>)
    ensures AllPlain(a + b) <==> AllPlain(a) && AllPlain(b)
  {
    hide Plain;
    assert forall i | 0 <= i < |a| :: (a + b)[i] == a[i];
    assert forall i | 0 <= i < |b| :: (a + b)[|a| + i] == b[i];
  }

  lemma TwoHeaders(f: File, a: string, b: string)
    ensures FileHeaders(f, [a, b]) == FileHeader(FileHeader(f, a), b)
    ensures FileHeaders(f, [a]) == FileHeader(f, a) && FileHeaders(f, []) == f
  {
    hide FileHeader;
    assert [a, b][1..] == [b] && [a][1..] == [];
    assert FileHeaders(FileHeader(f, a), [b]) == FileHeader(FileHeader(f, a), b) by { assert [b][1..] == []; }
  }

  function StatusOf(c: Change): Status {
    match c case Modify => Modified case Create(_) => Added case Remove(_) => Deleted case Rename => Renamed
  }

  lemma ModeLines(g: File, mode: string)
    ensures FileHeader(g, "new file mode " + mode) == g.(status := Added) && Plain("new file mode " + mode)
    ensures FileHeader(g, "deleted file mode " + mode) == g.(status := Deleted) && Plain("deleted file mode " + mode)
  {
    var created, removed := "new file mode " + mode, "deleted file mode " + mode;
    assert created[..13] == "new file mode" && removed[..17] == "deleted file mode";
    assert created[0] == 'n' && removed[1] == 'e';
  }

  lemma RenameLines(g: File, path: string)
    ensures FileHeader(g, "rename from " + path) == g.(status := Renamed, oldPath := path) && Plain("rename from " + path)
    ensures FileHeader(g, "rename to " + path) == g.(status := Renamed, newPath := path) && Plain("rename to " + path)
  {
    var from, to := "rename from " + path, "rename to " + path;
    assert from[12..] == path && to[10..] == path;
    assert from[0] == to[0] == 'r' && to[7] == 't';
  }

  lemma RenameParses(g: File, f: SrcFile)
    requires f.change == Rename && AllIgnored(f.between)
    ensures FileHeaders(g, ChangeLines(f)) == g.(status := Renamed, oldPath := f.oldPath, newPath := f.newPath)
    ensures AllPlain(ChangeLines(f))
  {
    hide FileHeader, Plain, Ignored;
    var from, to := "rename from " + f.oldPath, "rename to " + f.newPath;
    var h := FileHeader(g, from);
    HeadersConcat(g, [from], f.between + [to]);
    HeadersConcat(h, f.between, [to]);
    IgnoredLines(h, f.between);
    TwoHeaders(g, from, "");
    TwoHeaders(h, to, "");
    RenameLines(g, f.oldPath);
    RenameLines(h, f.newPath);
    PlainConcat([from], f.between + [to]);
    PlainConcat(f.between, [to]);
  }

  lemma ChangeParses(g: File, f: SrcFile)
    requires g.status == Modified && AllIgnored(f.between)
    ensures FileHeaders(g, ChangeLines(f)) ==
            g.(status := StatusOf(f.change),
               oldPath := if f.change == Rename then f.oldPath else g.oldPath,
               newPath := if f.change == Rename then f.newPath else g.newPath)
    ensures AllPlain(ChangeLines(f))
  {
    hide FileHeaders, FileHeader, Plain, Ignored;
    TwoHeaders(g, "", "");
    match f.change
    case Modify =>
    case Create(mode) =>
      TwoHeaders(g, "new file mode " + mode, "");
      ModeLines(g, mode);
    case Remove(mode) =>
      TwoHeaders(g, "deleted file mode " + mode, "");
      ModeLines(g, mode);
    case Rename => RenameParses(g, f);
  }

  /** A line that starts with a minus or plus sign can only be a path line. */
  lemma SignedLine(g: File, ln: string)
    requires ln != "" && ln[0] in "-+"
    ensures Plain(ln)
    ensures ln[0] == '-' && HasPrefix(ln, "--- ") && ln[4..] != "/dev/null" ==>
              FileHeader(g, ln) == g.(oldPath := StripPathPrefix(ln[4..]))
    ensures ln[0] == '+' && HasPrefix(ln, "+++ ") && ln[4..] != "/dev/null" ==>
              FileHeader(g, ln) == g.(newPath := StripPathPrefix(ln[4..]))
  {
    hide StripPathPrefix;
  }

  lemma StripPrefix(path: string)
    ensures StripPathPrefix("a/" + path) == path && StripPathPrefix("b/" + path) == path
  {
    assert ("a/" + path)[2..] == path && ("b/" + path)[2..] == path;
  }

  /** The `---` and `+++` lines give the paths, except for /dev/null. */
  lemma PathLines(g: File, path: string)
    ensures FileHeader(g, "--- " + ("a/" + path)) == g.(oldPath := path) && Plain("--- " + ("a/" + path))
    ensures FileHeader(g, "+++ " + ("b/" + path)) == g.(newPath := path) && Plain("+++ " + ("b/" + path))
  {
    hide FileHeader, Plain, StripPathPrefix;
    var from, to := "--- " + ("a/" + path), "+++ " + ("b/" + path);
    assert from[4..] == "a/" + path && to[4..] == "b/" + path;
    assert from[0] == '-' && to[0] == '+' && from[4] == 'a' && to[4] == 'b';
    StripPrefix(path);
    SignedLine(g, from);
    SignedLine(g, to);
  }

  lemma NullLines(g: File)
    ensures FileHeader(g, "--- " + "/dev/null") == g && Plain("--- " + "/dev/null")
    ensures FileHeader(g, "+++ " + "/dev/null") == g && Plain("+++ " + "/dev/null")
  {
    var from, to := "--- " + "/dev/null", "+++ " + "/dev/null";
    assert from[4..] == "/dev/null" && to[4..] == "/dev/null";
    assert from[0] == '-' && to[0] == '+';
  }

  lemma BinaryLine(g: File, rest: string)
    ensures FileHeader(g, "Binary files " + rest) == g.(binary := true) && Plain("Binary files " + rest)
  {
    assert ("Binary files " + rest)[0] == 'B';
  }

  lemma ContentParses(g: File, f: SrcFile)
    requires f.binary ==> f.hunks == []
    ensures FileHeaders(g, ContentLines(f)) ==
            g.(binary := g.binary || f.binary,
               oldPath := if f.hunks != [] && !f.change.Create? then f.oldPath else g.oldPath,
               newPath := if f.hunks != [] && !f.change.Remove? then f.newPath else g.newPath)
    ensures AllPlain(ContentLines(f))
  {
    hide FileHeaders, FileHeader, Plain;
    var lines := ContentLines(f);
    if f.binary {
      TwoHeaders(g, lines[0], "");
      BinaryLine(g, OldName(f) + (" and " + (NewName(f) + " differ")));
    } else if f.hunks == [] {
      TwoHeaders(g, "", "");
    } else {
      var h := FileHeader(g, lines[0]);
      TwoHeaders(g, lines[0], lines[1]);
      NullLines(g);
      NullLines(h);
      PathLines(g, f.oldPath);
      PathLines(h, f.newPath);
    }
  }

  // ---------------------------------------------------------------- whole files

  /** What the parser makes of a file: a path that has no line of its own is the one the
      `diff --git` line gives. */
  function ParsedFile(f: SrcFile): File {
    var (o, n) := ParseDiffGitPaths(DiffGitLine(f));
    ExpectedFile(f).(
      oldPath := if f.change == Rename || (f.hunks != [] && !f.change.Create?) then f.oldPath else o,
      newPath := if f.change == Rename || (f.hunks != [] && !f.change.Remove?) then f.newPath else n)
  }

  function ParsedFiles(fs: seq<SrcFile>): seq<File> {
    if fs == [] then [] else [ParsedFile(fs[0])] + ParsedFiles(fs[1..])
  }

  /** The header part of a file's entry. */
  function HeaderLines(f: SrcFile): seq<string> {
    f.before + (ChangeLines(f) + (f.behind + ContentLines(f)))
  }

  lemma HeaderParses(f: SrcFile)
    requires WellFormed(f)
    ensures var (o, n) := ParseDiffGitPaths(DiffGitLine(f));
            FileHeaders(File(o, n, Modified, false, 0, 0, []), HeaderLines(f))
            == ParsedFile(f).(additions := 0, deletions := 0, hunks := [])
    ensures AllPlain(HeaderLines(f))
  {
    hide FileHeaders, ParseDiffGitPaths, ChangeLines, ContentLines, Ignored, Plain, AllPlain, AllIgnored;
    var (o, n) := ParseDiffGitPaths(DiffGitLine(f));
    var g := File(o, n, Modified, false, 0, 0, []);
    var h := FileHeaders(g, ChangeLines(f));
    HeadersConcat(g, f.before, ChangeLines(f) + (f.behind + ContentLines(f)));
    HeadersConcat(g, ChangeLines(f), f.behind + ContentLines(f));
    HeadersConcat(h, f.behind, ContentLines(f));
    IgnoredLines(g, f.before);
    IgnoredLines(h, f.behind);
    ChangeParses(g, f);
    ContentParses(h, f);
    PlainConcat(f.before, ChangeLines(f) + (f.behind + ContentLines(f)));
    PlainConcat(ChangeLines(f), f.behind + ContentLines(f));
    PlainConcat(f.behind, ContentLines(f));
  }

  ghost predicate Ready(p: Parser) { p.cur == None ==> p.hunk == None }

  /** The `diff --git` line closes the last file and opens the next. */
  lemma GitLineStep(p: Parser, f: SrcFile, budget: nat)
    requires Ready(p)
    ensures var (o, n) := ParseDiffGitPaths(DiffGitLine(f));
            var q := Step(p, DiffGitLine(f), budget);
            && q.cur == Some(File(o, n, Modified, false, 0, 0, [])) && q.hunk == None
            && q.files == FlushFile(p).files && q.total == p.total && q.truncated == p.truncated
  {
    hide ParseDiffGitPaths;
    assert HasPrefix(DiffGitLine(f), DIFF_GIT);
  }

  /** Flushing after the hunks of a file adds the file with these hunks. */
  lemma FlushAfterHunks(p: Parser, q: Parser, f: SrcFile)
    requires p.cur == Some(ParsedFile(f).(additions := 0, deletions := 0, hunks := [])) && p.hunk == None
    requires ReadHunks(p, q, f.hunks)
    ensures Ready(q) && q.total == p.total + HunkLineCount(f.hunks) && q.truncated == p.truncated
    ensures FlushFile(q).files == p.files + [ParsedFile(f)]
  {
    ParsedFileHunks(f);
    hide ParsedFile;
    assert [] + ExpectedHunks(f.hunks) == ExpectedHunks(f.hunks);
  }

  /** Reading a file's entry adds that file, once the last one is flushed. */
  lemma FileParses(p: Parser, f: SrcFile, budget: nat)
    requires WellFormed(f) && Ready(p) && p.total + HunkLineCount(f.hunks) <= budget
    ensures var q := Steps(p, RenderFile(f), budget);
            && Ready(q) && q.total == p.total + HunkLineCount(f.hunks) && q.truncated == p.truncated
            && FlushFile(q).files == FlushFile(p).files + [ParsedFile(f)]
  {
    hide FileHeaders, HeaderLines, ParsedFile, RenderHunks, RenderFile, DiffGitLine, WellFormed;
    hide Step, Steps, FlushFile, ReadHunks, ParseDiffGitPaths, Plain;
    var line := DiffGitLine(f);
    HeaderLinesConcat(f);
    GitLineStep(p, f, budget);
    var p1 := Step(p, line, budget);
    StepsOne(p, line, budget);
    StepsConcat(p, [line], HeaderLines(f) + RenderHunks(f.hunks), budget);
    StepsConcat(p1, HeaderLines(f), RenderHunks(f.hunks), budget);
    HeaderParses(f);
    HeaderSteps(p1, HeaderLines(f), budget);
    var p2 := Steps(p1, HeaderLines(f), budget);
    HunksParse(p2, f.hunks, budget);
    FlushAfterHunks(p2, Steps(p2, RenderHunks(f.hunks), budget), f);
  }

  lemma HeaderLinesConcat(f: SrcFile)
    ensures RenderFile(f) == [DiffGitLine(f)] + (HeaderLines(f) + RenderHunks(f.hunks))
  {
    hide DiffGitLine, ChangeLines, ContentLines, RenderHunks;
  }

  lemma ParsedFileHunks(f: SrcFile)
    ensures var g := ParsedFile(f);
            && g.hunks == ExpectedHunks(f.hunks)
            && g.additions == HunksOfKind(f.hunks, Add) && g.deletions == HunksOfKind(f.hunks, Del)
  {
  }

  lemma {:induction false} FilesParse(p: Parser, fs: seq<SrcFile>, budget: nat)
    requires AllWellFormed(fs) && Ready(p) && p.total + LineCount(fs) <= budget
    ensures var q := Steps(p, RenderFiles(fs), budget);
            && Ready(q) && q.truncated == p.truncated
            && FlushFile(q).files == FlushFile(p).files + ParsedFiles(fs)
    decreases |fs|
  {
    hide FlushFile, RenderFile, ParsedFile, WellFormed;
    if fs == [] {
      assert FlushFile(p).files + [] == FlushFile(p).files;
    } else {
      var f, rest := fs[0], fs[1..];
      StepsConcat(p, RenderFile(f), RenderFiles(rest), budget);
      FileParses(p, f, budget);
      FilesParse(Steps(p, RenderFile(f), budget), rest, budget);
      assert FlushFile(p).files + [ParsedFile(f)] + ParsedFiles(rest)
          == FlushFile(p).files + ([ParsedFile(f)] + ParsedFiles(rest));
    }
  }

  // ---------------------------------------------------------------- the text

  ghost predicate AllOneLine(lines: seq<string>) { forall i | 0 <= i < |lines| :: OneLine(lines[i]) }

  ghost predicate CleanHunk(h: SrcHunk) {
    OneLine(h.section) && forall k | 0 <= k < |h.lines| :: OneLine(h.lines[k].text)
  }

  lemma HunkHeaderIsOneLine(h: SrcHunk)
    requires OneLine(h.section)
    ensures OneLine(HunkHeader(h))
  {
    forall n: nat ensures OneLine(Decimal(n)) { assert AllDigits(Decimal(n)); }
  }

  lemma {:induction false} LinesAreOneLine(lines: seq<SrcLine>)
    requires forall k | 0 <= k < |lines| :: OneLine(lines[k].text)
    ensures AllOneLine(RenderLines(lines))
  {
    if lines != [] {
      LinesAreOneLine(lines[1..]);
      assert OneLine(lines[0].text) && OneLine(NO_EOL);
    }
  }

  lemma {:induction false} HunksAreOneLine(hs: seq<SrcHunk>)
    requires forall i | 0 <= i < |hs| :: CleanHunk(hs[i])
    ensures AllOneLine(RenderHunks(hs))
  {
    hide HunkHeader;
    if hs != [] {
      HunksAreOneLine(hs[1..]);
      HunkHeaderIsOneLine(hs[0]);
      LinesAreOneLine(hs[0].lines);
    }
  }

  lemma {:induction false} IgnoredIsOneLine(lines: seq<string>)
    requires AllIgnored(lines)
    ensures AllOneLine(lines)
  {
    assert forall i | 0 <= i < |lines| :: Ignored(lines[i]);
  }

  lemma GitLineIsOneLine(f: SrcFile)
    requires OneLine(f.oldPath) && OneLine(f.newPath)
    ensures OneLine(DiffGitLine(f))
  {
  }

  lemma ChangeIsOneLine(f: SrcFile)
    requires WellFormed(f)
    ensures AllOneLine(ChangeLines(f))
  {
    IgnoredIsOneLine(f.between);
    assert OneLine("new file mode ") && OneLine("deleted file mode ") && OneLine("rename from ") && OneLine("rename to ");
    hide OneLine, AllIgnored;
    match f.change
    case Modify =>
    case Create(mode) => JoinedOneLine("new file mode ", mode);
    case Remove(mode) => JoinedOneLine("deleted file mode ", mode);
    case Rename =>
      JoinedOneLine("rename from ", f.oldPath);
      JoinedOneLine("rename to ", f.newPath);
  }

  lemma JoinedOneLine(a: string, b: string)
    requires OneLine(a) && OneLine(b)
    ensures OneLine(a + b)
  {
  }

  lemma ContentIsOneLine(f: SrcFile)
    requires OneLine(f.oldPath) && OneLine(f.newPath)
    ensures AllOneLine(ContentLines(f))
  {
    assert OneLine("Binary files ") && OneLine("a/") && OneLine("b/") && OneLine(" and ") && OneLine(" differ");
    assert OneLine("--- ") && OneLine("+++ ") && OneLine(DEV_NULL);
    hide OneLine;
    JoinedOneLine("a/", f.oldPath);
    JoinedOneLine("b/", f.newPath);
    if f.binary {
      JoinedOneLine(NewName(f), " differ");
      JoinedOneLine(" and ", NewName(f) + " differ");
      JoinedOneLine(OldName(f), " and " + (NewName(f) + " differ"));
      JoinedOneLine("Binary files ", OldName(f) + (" and " + (NewName(f) + " differ")));
    } else {
      JoinedOneLine("--- ", OldName(f));
      JoinedOneLine("+++ ", NewName(f));
    }
  }

  lemma FileIsOneLine(f: SrcFile)
    requires WellFormed(f)
    ensures AllOneLine(RenderFile(f))
  {
    GitLineIsOneLine(f);
    ChangeIsOneLine(f);
    ContentIsOneLine(f);
    IgnoredIsOneLine(f.before);
    IgnoredIsOneLine(f.behind);
    HunksAreOneLine(f.hunks);
    hide AllIgnored, DiffGitLine, ChangeLines, ContentLines, RenderHunks, OneLine;
  }

  lemma {:induction false} FilesAreOneLine(fs: seq<SrcFile>)
    requires AllWellFormed(fs)
    ensures AllOneLine(RenderFiles(fs))
  {
    hide RenderFile, WellFormed, OneLine;
    if fs != [] {
      FilesAreOneLine(fs[1..]);
      FileIsOneLine(fs[0]);
    }
  }

  /** The empty line after the last newline changes nothing but an unread file header. */
  lemma LastLineIgnored(p: Parser, budget: nat)
    ensures FlushFile(Step(p, "", budget)) == FlushFile(p)
  {
  }

  /** Reading a rendered diff yields the same files, hunks and lines, with their line numbers. */
  lemma RenderParses(fs: seq<SrcFile>, budget: nat)
    requires AllWellFormed(fs) && LineCount(fs) <= budget
    ensures Parse(Render(fs), budget) == (ParsedFiles(fs), false)
  {
    var lines := RenderFiles(fs) + [""];
    FilesAreOneLine(fs);
    SplitJoin(lines);
    StepsConcat(START, RenderFiles(fs), [""], budget);
    FilesParse(START, fs, budget);
    var p := Steps(START, RenderFiles(fs), budget);
    StepsOne(p, "", budget);
    LastLineIgnored(p, budget);
    assert [] + ParsedFiles(fs) == ParsedFiles(fs);
  }

  lemma {:induction false} LinesAtLeast(lines: seq<SrcLine>)
    ensures |RenderLines(lines)| >= |lines|
  {
    if lines != [] { LinesAtLeast(lines[1..]); }
  }

  lemma {:induction false} HunksAtLeast(hs: seq<SrcHunk>)
    ensures |RenderHunks(hs)| >= HunkLineCount(hs)
  {
    if hs != [] {
      LinesAtLeast(hs[0].lines);
      HunksAtLeast(hs[1..]);
    }
  }

  lemma {:induction false} FilesAtLeast(fs: seq<SrcFile>)
    ensures |RenderFiles(fs)| >= LineCount(fs)
  {
    hide RenderHunks, ContentLines, ChangeLines, DiffGitLine;
    if fs != [] {
      HunksAtLeast(fs[0].hunks);
      FilesAtLeast(fs[1..]);
    }
  }

  /** Reading a rendered diff with any budget b yields its first b lines, in the same files and
      hunks, and reports truncation exactly when it has more. */
  lemma RenderParsesWithin(fs: seq<SrcFile>, b: nat)
    requires AllWellFormed(fs)
    ensures Parse(Render(fs), b) == (KeepFiles(ParsedFiles(fs), b), FileLines(ParsedFiles(fs)) > b)
  {
    FilesAtLeast(fs);
    FilesAreOneLine(fs);
    SplitJoin(RenderFiles(fs) + [""]);
    hide AllWellFormed, Parse, RenderFiles, KeepFiles, FileLines, ParsedFiles;
    RenderParses(fs, |Split(Render(fs))|);
    BudgetKeepsPrefix(Render(fs), b);
  }

  // ---------------------------------------------------------------- paths

  /** The paths can be told apart in the `diff --git` line: " b/" first occurs between them. */
  predicate Unambiguous(f: SrcFile) {
    Index("a/" + f.oldPath + " b/" + f.newPath, " b/") == |f.oldPath| + 2
  }

  /** Both paths also stand in lines that override the `diff --git` line. */
  predicate HasPathLines(f: SrcFile) {
    f.change == Rename || (f.change == Modify && f.hunks != [])
  }

  /** A `diff --git` line without a " b/" gives no paths. */
  lemma NoSeparatorNoPaths(ln: string)
    requires HasPrefix(ln, DIFF_GIT)
    ensures ParseDiffGitPaths(ln) == ("", "") || exists k | 11 <= k <= |ln| :: HasPrefix(ln[k..], " b/")
  {
    var s := ln[|DIFF_GIT|..];
    var i := Index(s, " b/");
    assert |DIFF_GIT| == 11;
    if i >= 0 { assert s[i..] == ln[11 + i..]; }
  }

  lemma IndexFinds(s: string, sep: string, k: nat)
    requires k <= |s| && HasPrefix(s[k..], sep)
    ensures 0 <= Index(s, sep) <= k
  {
    if !HasPrefix(s, sep) {
      assert k > 0 && s[1..][k - 1..] == s[k..];
      IndexFinds(s[1..], sep, k - 1);
    }
  }

  /** The `diff --git` line gives both paths, or neither when it is ambiguous. */
  lemma GitLinePaths(f: SrcFile)
    ensures var (o, n) := ParseDiffGitPaths(DiffGitLine(f));
            (Unambiguous(f) ==> o == f.oldPath && n == f.newPath) &&
            (!Unambiguous(f) ==> o != f.oldPath && n != f.newPath)
  {
    hide Index, StripPathPrefix;
    var s := "a/" + f.oldPath + " b/" + f.newPath;
    assert DiffGitLine(f)[|DIFF_GIT|..] == s;
    assert s[|f.oldPath| + 2..] == " b/" + f.newPath;
    IndexFinds(s, " b/", |f.oldPath| + 2);
    CutAt(f.oldPath, f.newPath, Index(s, " b/"));
  }

  /** Cutting the line at " b/" gives a path of the length that was cut. */
  lemma CutAt(o: string, n: string, i: nat)
    requires var s := "a/" + o + " b/" + n; i <= |s| && HasPrefix(s[i..], " b/")
    ensures var s := "a/" + o + " b/" + n;
            i < |s| && |StripPathPrefix(s[..i])| == i - 2 && |StripPathPrefix(s[i + 1..])| == |s| - i - 3 &&
            (i == |o| + 2 ==> StripPathPrefix(s[..i]) == o && StripPathPrefix(s[i + 1..]) == n)
  {
    var s := "a/" + o + " b/" + n;
    var tail := s[i..];
    assert s[0] == 'a' && s[1] == '/' && tail[0] == ' ' && tail[1] == 'b' && tail[2] == '/';
    assert i >= 2;
    assert s[i + 1] == 'b' && s[i + 2] == '/';
    assert HasPrefix(s[..i], "a/") && HasPrefix(s[i + 1..], "b/");
    if i == |o| + 2 {
      assert s[..i][2..] == o && s[i + 1..][2..] == n;
    }
  }

  lemma PathsExact(f: SrcFile)
    ensures ParsedFile(f) == ExpectedFile(f) <==> HasPathLines(f) || Unambiguous(f)
  {
    hide ParseDiffGitPaths, Unambiguous, ExpectedHunks, HunksOfKind;
    GitLinePaths(f);
  }

  lemma {:induction false} AllPathsExact(fs: seq<SrcFile>)
    ensures ParsedFiles(fs) == ExpectedFiles(fs) <==>
              forall i | 0 <= i < |fs| :: HasPathLines(fs[i]) || Unambiguous(fs[i])
  {
    hide ParsedFile, ExpectedFile, HasPathLines, Unambiguous;
    if fs != [] {
      AllPathsExact(fs[1..]);
      PathsExact(fs[0]);
      assert ParsedFiles(fs)[0] == ParsedFile(fs[0]) && ParsedFiles(fs)[1..] == ParsedFiles(fs[1..]);
      assert ExpectedFiles(fs)[0] == ExpectedFile(fs[0]) && ExpectedFiles(fs)[1..] == ExpectedFiles(fs[1..]);
      assert forall i | 1 <= i < |fs| :: fs[i] == fs[1..][i - 1];
    }
  }

  /** The round trip: every rendered list of files is read back as it was, line numbers included,
      exactly when each file's paths stand in lines of their own or can be told apart in its
      `diff --git` line. No line text can break it. */
  lemma RoundTrip(fs: seq<SrcFile>, budget: nat)
    requires AllWellFormed(fs) && LineCount(fs) <= budget
    ensures Parse(Render(fs), budget) == (ExpectedFiles(fs), false) <==>
              forall i | 0 <= i < |fs| :: HasPathLines(fs[i]) || Unambiguous(fs[i])
  {
    RenderParses(fs, budget);
    AllPathsExact(fs);
  }

  const AMBIGUOUS := SrcFile("x b/y", "x b/y", Modify, false, ["old mode 100644", "new mode 100755"], [], [], [])

  lemma AmbiguousIsWellFormed()
    ensures WellFormed(AMBIGUOUS) && LineCount([AMBIGUOUS]) == 0
  {
    ModeChangeIgnored();
    hide Ignored;
    assert [AMBIGUOUS][1..] == [];
  }

  lemma ModeChangeIgnored()
    ensures Ignored("old mode 100644") && Ignored("new mode 100755")
  {
    var a, b := "old mode 100644", "new mode 100755";
    assert a[0] == 'o' && b[0] == 'n' && b[4] == 'm';
  }

  lemma AmbiguousIsAmbiguous()
    ensures !Unambiguous(AMBIGUOUS) && !HasPathLines(AMBIGUOUS)
  {
    var f := AMBIGUOUS;
    var s := "a/" + f.oldPath + " b/" + f.newPath;
    assert s[3..][..3] == " b/";
    IndexFinds(s, " b/", 3);
  }

  /** A file mode change of a path that holds " b/" is read back with wrong paths. */
  lemma AmbiguousPathExample()
    ensures AllWellFormed([AMBIGUOUS]) && Parse(Render([AMBIGUOUS]), 0) != (ExpectedFiles([AMBIGUOUS]), false)
  {
    AmbiguousIsWellFormed();
    AmbiguousIsAmbiguous();
    hide *;
    assert AllWellFormed([AMBIGUOUS]) by { AllAre(AMBIGUOUS); }
    RoundTrip([AMBIGUOUS], 0);
    assert [AMBIGUOUS][0] == AMBIGUOUS;
  }

  lemma AllAre(f: SrcFile)
    requires WellFormed(f)
    ensures AllWellFormed([f])
  {
  }

  // ---------------------------------------------------------------- git's own output

  const NEW_SCRIPT := SrcFile("run.sh", "run.sh", Create("100755"), false, [], [], ["index 0000000..45b983b"],
                              [SrcHunk(0, Some(0), 1, None, "", [SrcLine(Add, "hi", false)])])

  /** A new executable file, exactly as git writes it, is among the rendered files. */
  lemma NewScriptExample()
    ensures WellFormed(NEW_SCRIPT)
    ensures RenderFile(NEW_SCRIPT) ==
              ["diff --git a/run.sh b/run.sh", "new file mode 100755", "index 0000000..45b983b",
               "--- /dev/null", "+++ b/run.sh", "@@ -0,0 +1 @@", "+hi"]
  {
    NewScriptIsWellFormed();
    NewScriptHunk();
    var f := NEW_SCRIPT;
    var hunk := ["@@ -0,0 +1 @@", "+hi"];
    hide RenderHunk, WellFormed;
    assert RenderHunks(f.hunks) == hunk by { assert f.hunks[1..] == [] && hunk + [] == hunk; }
    assert DiffGitLine(f) == "diff --git a/run.sh b/run.sh";
    assert "new file mode " + "100755" == "new file mode 100755";
    assert "--- " + "/dev/null" == "--- /dev/null";
    assert "b/" + "run.sh" == "b/run.sh" && "+++ " + "b/run.sh" == "+++ b/run.sh";
    assert ChangeLines(f) == ["new file mode 100755"];
    assert ContentLines(f) == ["--- /dev/null", "+++ b/run.sh"];
    hide RenderHunks, DiffGitLine, ChangeLines, ContentLines, WellFormed;
    var content := ["--- /dev/null", "+++ b/run.sh"];
    assert RenderFile(f) == [DiffGitLine(f)] + ([] + (ChangeLines(f) + (f.behind + (content + hunk))));
  }

  lemma NewScriptIsWellFormed()
    ensures WellFormed(NEW_SCRIPT)
  {
    var index := "index 0000000..45b983b";
    assert Ignored(index) by { assert index[0] == 'i'; }
    hide Ignored;
  }

  lemma NewScriptHunk()
    ensures RenderHunk(NEW_SCRIPT.hunks[0]) == ["@@ -0,0 +1 @@", "+hi"]
  {
    var h := NEW_SCRIPT.hunks[0];
    assert Decimal(0) == "0" && Decimal(1) == "1";
    assert HunkHeader(h) == "@@ -0,0 +1 @@";
    assert ['+'] + "hi" == "+hi";
    assert RenderLine(h.lines[0]) == ["+hi"] by { assert ["+hi"] + [] == ["+hi"]; }
    assert RenderLines(h.lines) == ["+hi"] by { assert h.lines[1..] == [] && ["+hi"] + [] == ["+hi"]; }
  }
}
