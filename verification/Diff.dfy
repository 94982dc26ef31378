/** The unified-diff parser (`parseUnifiedDiff` in internal/server/commits.go). */
module Diff {
  import opened Options
  import opened Text

  datatype Kind = Add | Del | Context

  /** A line number is 0 where the source leaves it unset. */
  datatype Line = Line(kind: Kind, oldNo: nat, newNo: nat, text: string)

  datatype Hunk = Hunk(header: string, lines: seq<Line>)

  datatype Status = Modified | Added | Deleted | Renamed

  datatype File = File(oldPath: string, newPath: string, status: Status, binary: bool,
                       additions: nat, deletions: nat, hunks: seq<Hunk>)

  // ---------------------------------------------------------------- header lines

  /** The first position of `sep` in `s`, or -1. */
  function Index(s: string, sep: string): (i: int)
    ensures -1 <= i <= |s|
    ensures i >= 0 ==> HasPrefix(s[i..], sep)
  {
    if HasPrefix(s, sep) then 0
    else if s == [] then -1
    else var i := Index(s[1..], sep); if i < 0 then -1 else i + 1
  }

  function StripPathPrefix(p: string): string {
    if HasPrefix(p, "a/") || HasPrefix(p, "b/") then p[2..] else p
  }

  const DIFF_GIT := "diff --git "

  function ParseDiffGitPaths(ln: string): (string, string)
    requires HasPrefix(ln, DIFF_GIT)
  {
    var s := ln[|DIFF_GIT|..];
    var i := Index(s, " b/");
    if i >= 0 then (StripPathPrefix(s[..i]), StripPathPrefix(s[i + 1..])) else ("", "")
  }

  /** The length of the longest prefix of digits. */
  function DigitRun(s: string): (n: nat)
    ensures n <= |s| && AllDigits(s[..n])
  {
    if s != [] && IsDigit(s[0]) then 1 + DigitRun(s[1..]) else 0
  }

  /** Matches `\d+(?:,\d+)?` at the start of `s`: the number and the rest. */
  function ParseRange(s: string): Option<(nat, string)> {
    var n := DigitRun(s);
    if n == 0 then None
    else
      var rest := s[n..];
      var m := if HasPrefix(rest, ",") then DigitRun(rest[1..]) else 0;
      Some((ParseDecimal(s[..n]), if m > 0 then rest[1 + m..] else rest))
  }

  /** `parseHunkHeader`: matches `^@@ -(\d+)(?:,\d+)? \+(\d+)(?:,\d+)? @@ ?(.*)$`. */
  function ParseHunkHeader(ln: string): (nat, nat, string) {
    if !HasPrefix(ln, "@@ -") then (1, 1, "") else
    var from := ParseRange(ln[4..]);
    if from == None || !HasPrefix(from.value.1, " +") then (1, 1, "") else
    var to := ParseRange(from.value.1[2..]);
    if to == None || !HasPrefix(to.value.1, " @@") then (1, 1, "") else
    var trailer := to.value.1[3..];
    (from.value.0, to.value.0, if HasPrefix(trailer, " ") then trailer[1..] else trailer)
  }

  // ---------------------------------------------------------------- the parser

  /** The loop's variables. */
  datatype Parser = Parser(files: seq<File>, cur: Option<File>, hunk: Option<Hunk>,
                           oldLine: nat, newLine: nat, total: nat, truncated: bool)

  const START := Parser([], None, None, 0, 0, 0, false)

  function FlushHunk(p: Parser): Parser {
    if p.cur.Some? && p.hunk.Some? then
      p.(cur := Some(p.cur.value.(hunks := p.cur.value.hunks + [p.hunk.value])), hunk := None)
    else p
  }

  function FlushFile(p: Parser): Parser {
    var q := FlushHunk(p);
    if q.cur.Some? then q.(files := q.files + [q.cur.value], cur := None) else q
  }

  /** A line inside a hunk. */
  function HunkLine(p: Parser, ln: string, budget: nat): Parser
    requires p.cur.Some? && p.hunk.Some?
  {
    if ln == "" || ln[0] == '\\' then p
    else if p.total >= budget then p.(truncated := true)
    else
      var c, h := p.cur.value, p.hunk.value;
      var text := ln[1..];
      if ln[0] == '+' then
        p.(hunk := Some(h.(lines := h.lines + [Line(Add, 0, p.newLine, text)])), newLine := p.newLine + 1,
           cur := Some(c.(additions := c.additions + 1)), total := p.total + 1)
      else if ln[0] == '-' then
        p.(hunk := Some(h.(lines := h.lines + [Line(Del, p.oldLine, 0, text)])), oldLine := p.oldLine + 1,
           cur := Some(c.(deletions := c.deletions + 1)), total := p.total + 1)
      else
        p.(hunk := Some(h.(lines := h.lines + [Line(Context, p.oldLine, p.newLine, text)])),
           oldLine := p.oldLine + 1, newLine := p.newLine + 1, total := p.total + 1)
  }

  /** A line between a file's header and its first hunk. */
  function FileHeader(f: File, ln: string): File {
    if HasPrefix(ln, "new file mode") then f.(status := Added)
    else if HasPrefix(ln, "deleted file mode") then f.(status := Deleted)
    else if HasPrefix(ln, "rename from ") then f.(status := Renamed, oldPath := ln[12..])
    else if HasPrefix(ln, "rename to ") then f.(status := Renamed, newPath := ln[10..])
    else if HasPrefix(ln, "Binary files ") then f.(binary := true)
    else if HasPrefix(ln, "--- ") then if ln[4..] != "/dev/null" then f.(oldPath := StripPathPrefix(ln[4..])) else f
    else if HasPrefix(ln, "+++ ") then if ln[4..] != "/dev/null" then f.(newPath := StripPathPrefix(ln[4..])) else f
    else f
  }

  /** The body of the loop. */
  function Step(p: Parser, ln: string, budget: nat): Parser {
    if HasPrefix(ln, DIFF_GIT) then
      var (o, n) := ParseDiffGitPaths(ln);
      FlushFile(p).(cur := Some(File(o, n, Modified, false, 0, 0, [])))
    else if p.cur == None then p
    else if HasPrefix(ln, "@@") then
      var (o, n, hdr) := ParseHunkHeader(ln);
      FlushHunk(p).(oldLine := o, newLine := n, hunk := Some(Hunk(hdr, [])))
    else if p.hunk.Some? then HunkLine(p, ln, budget)
    else p.(cur := Some(FileHeader(p.cur.value, ln)))
  }

  function Steps(p: Parser, lines: seq<string>, budget: nat): Parser
    decreases |lines|
  {
    if lines == [] then p else Steps(Step(p, lines[0], budget), lines[1..], budget)
  }

  lemma {:induction false} StepsConcat(p: Parser, a: seq<string>, b: seq<string>, budget: nat)
    ensures Steps(p, a + b, budget) == Steps(Steps(p, a, budget), b, budget)
    decreases |a|
  {
    if a == [] {
      assert a + b == b;
    } else {
      assert (a + b)[0] == a[0] && (a + b)[1..] == a[1..] + b;
      StepsConcat(Step(p, a[0], budget), a[1..], b, budget);
    }
  }

  /** Parses a whole patch. */
  function Parse(patch: string, budget: nat): (seq<File>, bool) {
    var p := FlushFile(Steps(START, Split(patch), budget));
    (p.files, p.truncated)
  }

  method ParseUnifiedDiff(patch: string, budget: nat) returns (files: seq<File>, truncated: bool)
    ensures (files, truncated) == Parse(patch, budget)
  {
    var p := START;
    var lines := Split(patch);
    var i := 0;
    while i < |lines|
      invariant 0 <= i <= |lines|
      invariant Steps(p, lines[i..], budget) == Steps(START, lines, budget)
    {
      p := Step(p, lines[i], budget);
      i := i + 1;
    }
    p := FlushFile(p);
    return p.files, p.truncated;
  }

  // ---------------------------------------------------------------- the line budget

  function Count(lines: seq<Line>, k: Kind): nat {
    if lines == [] then 0 else (if lines[|lines| - 1].kind == k then 1 else 0) + Count(lines[..|lines| - 1], k)
  }

  function Minus(a: nat, b: nat): nat { if a < b then 0 else a - b }

  function Take<T>(lines: seq<T>, b: nat): seq<T> { if |lines| <= b then lines else lines[..b] }

  function HunkLines(hunks: seq<Hunk>): seq<Line> {
    if hunks == [] then [] else HunkLines(hunks[..|hunks| - 1]) + hunks[|hunks| - 1].lines
  }

  function FileLines(files: seq<File>): nat {
    if files == [] then 0 else FileLines(files[..|files| - 1]) + |HunkLines(files[|files| - 1].hunks)|
  }

  /** The hunks with only their first b lines, counted over all of them. */
  function KeepHunks(hunks: seq<Hunk>, b: nat): seq<Hunk> {
    if hunks == [] then []
    else
      var init, last := hunks[..|hunks| - 1], hunks[|hunks| - 1];
      KeepHunks(init, b) + [last.(lines := Take(last.lines, Minus(b, |HunkLines(init)|)))]
  }

  function KeepFile(f: File, b: nat): File {
    var kept := Take(HunkLines(f.hunks), b);
    f.(hunks := KeepHunks(f.hunks, b), additions := Count(kept, Add), deletions := Count(kept, Del))
  }

  /** The files with only their first b lines, counted over all of them. */
  function KeepFiles(files: seq<File>, b: nat): seq<File> {
    if files == [] then []
    else
      var init, last := files[..|files| - 1], files[|files| - 1];
      KeepFiles(init, b) + [KeepFile(last, Minus(b, FileLines(init)))]
  }

  /** The lines of the file being read, including its open hunk. */
  function OpenLines(p: Parser): seq<Line> {
    if p.cur == None then []
    else HunkLines(p.cur.value.hunks) + (if p.hunk.Some? then p.hunk.value.lines else [])
  }

  /** What a parse without a limit keeps: counts are those of the lines read. */
  ghost predicate Whole(u: Parser) {
    && u.total == FileLines(u.files) + |OpenLines(u)| && !u.truncated
    && (u.cur.Some? ==> u.cur.value.additions == Count(OpenLines(u), Add) && u.cur.value.deletions == Count(OpenLines(u), Del))
    && (u.cur == None ==> u.hunk == None)
  }

  /** The limited parse `p` is at the same point as the unlimited one `u`. */
  ghost predicate InStep(p: Parser, u: Parser, b: nat) {
    var left := Minus(b, FileLines(u.files));
    && p.files == KeepFiles(u.files, b)
    && p.total == (if u.total <= b then u.total else b) && (p.truncated <==> u.total > b)
    && (u.total <= b ==> p.oldLine == u.oldLine && p.newLine == u.newLine)
    && (p.cur == None <==> u.cur == None) && (p.hunk == None <==> u.hunk == None)
    && (u.cur.Some? ==>
          var kept := Take(OpenLines(u), left);
          p.cur.value == u.cur.value.(hunks := KeepHunks(u.cur.value.hunks, left),
                                      additions := Count(kept, Add), deletions := Count(kept, Del)))
    && (u.hunk.Some? && u.cur.Some? ==>
          p.hunk.value == u.hunk.value.(lines := Take(u.hunk.value.lines, Minus(left, |HunkLines(u.cur.value.hunks)|))))
  }

  lemma HunksSnoc(hs: seq<Hunk>, h: Hunk, b: nat)
    ensures HunkLines(hs + [h]) == HunkLines(hs) + h.lines
    ensures KeepHunks(hs + [h], b) == KeepHunks(hs, b) + [h.(lines := Take(h.lines, Minus(b, |HunkLines(hs)|)))]
  {
    var t := hs + [h];
    assert t[..|t| - 1] == hs;
  }

  lemma FilesSnoc(fs: seq<File>, f: File, b: nat)
    ensures FileLines(fs + [f]) == FileLines(fs) + |HunkLines(f.hunks)|
    ensures KeepFiles(fs + [f], b) == KeepFiles(fs, b) + [KeepFile(f, Minus(b, FileLines(fs)))]
  {
    var t := fs + [f];
    assert t[..|t| - 1] == fs;
  }

  lemma NothingKept(b: nat)
    ensures HunkLines([]) == [] && KeepHunks([], b) == [] && Take<Line>([], b) == []
    ensures Count([], Add) == 0 && Count([], Del) == 0
  {
  }

  lemma TakeSnoc<T>(s: seq<T>, x: T, b: nat)
    ensures Take(s + [x], b) == if |s| < b then Take(s, b) + [x] else Take(s, b)
  {
  }

  lemma CountSnoc(lines: seq<Line>, l: Line, k: Kind)
    ensures Count(lines + [l], k) == Count(lines, k) + if l.kind == k then 1 else 0
  {
    var t := lines + [l];
    assert t[..|t| - 1] == lines;
  }

  lemma FlushHunkInStep(p: Parser, u: Parser, b: nat)
    requires Whole(u) && InStep(p, u, b)
    ensures Whole(FlushHunk(u)) && InStep(FlushHunk(p), FlushHunk(u), b)
    ensures FlushHunk(u).hunk == None && FlushHunk(u).total == u.total
  {
    hide HunkLines, KeepHunks, KeepFiles, KeepFile, FileLines, Count, Take, Minus;
    if u.cur.Some? && u.hunk.Some? {
      HunksSnoc(u.cur.value.hunks, u.hunk.value, Minus(b, FileLines(u.files)));
      assert OpenLines(FlushHunk(u)) == OpenLines(u);
    }
  }

  lemma FlushFileInStep(p: Parser, u: Parser, b: nat)
    requires Whole(u) && InStep(p, u, b)
    ensures Whole(FlushFile(u)) && InStep(FlushFile(p), FlushFile(u), b)
    ensures FlushFile(u).cur == None && FlushFile(u).total == u.total
  {
    hide HunkLines, KeepHunks, KeepFiles, FileLines, Count, Take, Minus;
    FlushHunkInStep(p, u, b);
    var v := FlushHunk(u);
    if v.cur.Some? {
      FilesSnoc(v.files, v.cur.value, b);
      assert OpenLines(v) == HunkLines(v.cur.value.hunks);
    }
  }

  /** The line a marker line stands for at the parser's position. */
  function LineAt(p: Parser, ln: string): Line
    requires ln != ""
  {
    if ln[0] == '+' then Line(Add, 0, p.newLine, ln[1..])
    else if ln[0] == '-' then Line(Del, p.oldLine, 0, ln[1..])
    else Line(Context, p.oldLine, p.newLine, ln[1..])
  }

  lemma HunkLineInStep(p: Parser, u: Parser, ln: string, b: nat, all: nat)
    requires Whole(u) && InStep(p, u, b) && u.cur.Some? && u.hunk.Some? && u.total < all
    ensures Whole(HunkLine(u, ln, all)) && InStep(HunkLine(p, ln, b), HunkLine(u, ln, all), b)
    ensures HunkLine(u, ln, all).total <= u.total + 1
  {
    hide HunkLines, KeepHunks, KeepFiles, FileLines, Count;
    if ln != "" && ln[0] != '\\' {
      var l := LineAt(u, ln);
      var left := Minus(b, FileLines(u.files));
      var before, lines := HunkLines(u.cur.value.hunks), u.hunk.value.lines;
      assert before + lines + [l] == before + (lines + [l]);
      TakeSnoc(before + lines, l, left);
      TakeSnoc(lines, l, Minus(left, |before|));
      forall k: Kind ensures Count(OpenLines(u) + [l], k) == Count(OpenLines(u), k) + if l.kind == k then 1 else 0 {
        CountSnoc(OpenLines(u), l, k);
      }
      forall k: Kind
        ensures Count(Take(OpenLines(u), left) + [l], k) == Count(Take(OpenLines(u), left), k) + if l.kind == k then 1 else 0
      {
        CountSnoc(Take(OpenLines(u), left), l, k);
      }
    }
  }

  lemma NewFileInStep(p: Parser, u: Parser, ln: string, b: nat, all: nat)
    requires Whole(u) && InStep(p, u, b) && HasPrefix(ln, DIFF_GIT)
    ensures Whole(Step(u, ln, all)) && InStep(Step(p, ln, b), Step(u, ln, all), b)
    ensures Step(u, ln, all).total == u.total
  {
    hide HunkLines, KeepHunks, KeepFiles, KeepFile, FileLines, Count, Take, ParseDiffGitPaths, FlushFile;
    FlushFileInStep(p, u, b);
    NothingKept(Minus(b, FileLines(FlushFile(u).files)));
  }

  lemma NewHunkInStep(p: Parser, u: Parser, ln: string, b: nat, all: nat)
    requires Whole(u) && InStep(p, u, b) && u.cur.Some? && HasPrefix(ln, "@@") && !HasPrefix(ln, DIFF_GIT)
    ensures Whole(Step(u, ln, all)) && InStep(Step(p, ln, b), Step(u, ln, all), b)
    ensures Step(u, ln, all).total == u.total
  {
    hide HunkLines, KeepHunks, KeepFiles, KeepFile, FileLines, Count, Take, ParseHunkHeader;
    FlushHunkInStep(p, u, b);
    NothingKept(Minus(Minus(b, FileLines(u.files)), |HunkLines(FlushHunk(u).cur.value.hunks)|));
    assert OpenLines(Step(u, ln, all)) == OpenLines(FlushHunk(u));
  }

  /** A header line neither reads nor changes a file's hunks and counts. */
  lemma HeaderKeepsHunks(f: File, ln: string, hunks: seq<Hunk>, additions: nat, deletions: nat)
    ensures var g, h := FileHeader(f, ln), f.(hunks := hunks, additions := additions, deletions := deletions);
            && g.hunks == f.hunks && g.additions == f.additions && g.deletions == f.deletions
            && FileHeader(h, ln) == g.(hunks := hunks, additions := additions, deletions := deletions)
  {
    hide StripPathPrefix;
  }

  lemma HeaderInStep(p: Parser, u: Parser, ln: string, b: nat, all: nat)
    requires Whole(u) && InStep(p, u, b) && !HasPrefix(ln, DIFF_GIT)
    requires u.cur == None || (u.hunk == None && !HasPrefix(ln, "@@"))
    ensures Whole(Step(u, ln, all)) && InStep(Step(p, ln, b), Step(u, ln, all), b)
    ensures Step(u, ln, all).total == u.total
  {
    hide HunkLines, KeepHunks, KeepFiles, FileLines, Count, Take, FileHeader;
    if u.cur.Some? {
      HeaderKeepsHunks(u.cur.value, ln, p.cur.value.hunks, p.cur.value.additions, p.cur.value.deletions);
    }
  }

  lemma StepInStep(p: Parser, u: Parser, ln: string, b: nat, all: nat)
    requires Whole(u) && InStep(p, u, b) && u.total < all
    ensures Whole(Step(u, ln, all)) && InStep(Step(p, ln, b), Step(u, ln, all), b)
    ensures Step(u, ln, all).total <= u.total + 1
  {
    hide Step, Whole, InStep, HasPrefix;
    if HasPrefix(ln, DIFF_GIT) {
      NewFileInStep(p, u, ln, b, all);
    } else if u.cur.Some? && HasPrefix(ln, "@@") {
      NewHunkInStep(p, u, ln, b, all);
    } else if u.cur.Some? && u.hunk.Some? {
      HunkLineStep(p, u, ln, b, all);
    } else {
      HeaderInStep(p, u, ln, b, all);
    }
  }

  lemma HunkLineStep(p: Parser, u: Parser, ln: string, b: nat, all: nat)
    requires Whole(u) && InStep(p, u, b) && u.cur.Some? && u.hunk.Some? && u.total < all
    requires !HasPrefix(ln, DIFF_GIT) && !HasPrefix(ln, "@@")
    ensures Whole(Step(u, ln, all)) && InStep(Step(p, ln, b), Step(u, ln, all), b)
    ensures Step(u, ln, all).total <= u.total + 1
  {
    HunkLineInStep(p, u, ln, b, all);
    assert p.cur.Some? && p.hunk.Some?;
    hide HunkLine, Whole, InStep;
  }

  lemma {:induction false} StepsInStep(p: Parser, u: Parser, lines: seq<string>, b: nat, all: nat)
    requires Whole(u) && InStep(p, u, b) && u.total + |lines| <= all
    ensures Whole(Steps(u, lines, all)) && InStep(Steps(p, lines, b), Steps(u, lines, all), b)
    decreases |lines|
  {
    if lines != [] {
      StepInStep(p, u, lines[0], b, all);
      StepsInStep(Step(p, lines[0], b), Step(u, lines[0], all), lines[1..], b, all);
    }
  }

  /** For every patch, a parse with budget b keeps exactly the first b lines of the parse without
      a limit, with the same files and hunk headers and the counts of the kept lines, and reports
      truncation exactly when there are more than b lines. A budget of the number of lines of the
      patch is no limit. */
  lemma BudgetKeepsPrefix(patch: string, b: nat)
    ensures var all := Parse(patch, |Split(patch)|).0;
            Parse(patch, b) == (KeepFiles(all, b), FileLines(all) > b) && !Parse(patch, |Split(patch)|).1
  {
    var lines := Split(patch);
    StepsInStep(START, START, lines, b, |lines|);
    FlushFileInStep(Steps(START, lines, b), Steps(START, lines, |lines|), b);
  }
}
