/** The reader of spec files (internal/specs/specs.go). */
module Specs {
  import opened Options
  import opened Text

  // ---------------------------------------------------------------- frontmatter

  const FENCE := "---"

  /** `strings.ReplaceAll(s, "\r\n", "\n")`. */
  function Normalize(s: string): string {
    if s == [] then []
    else if HasPrefix(s, "\r\n") then ['\n'] + Normalize(s[2..])
    else [s[0]] + Normalize(s[1..])
  }

  predicate Closes(line: string) {
    TrimRight(line, IsBlank) == FENCE || TrimRight(line, IsBlank) == "..."
  }

  /** Three dashes or three dots, and nothing but spaces and tabs behind them. */
  lemma ClosesExact(line: string)
    ensures Closes(line) <==> (HasPrefix(line, "---") || HasPrefix(line, "...")) &&
                              forall k | 3 <= k < |line| :: line[k] == ' ' || line[k] == '\t'
  {
    TrimRightCuts(line, IsBlank);
    if (HasPrefix(line, "---") || HasPrefix(line, "...")) && forall k | 3 <= k < |line| :: line[k] == ' ' || line[k] == '\t' {
      assert line[2] == '-' || line[2] == '.';
      TrimRightIs(line, 3, IsBlank);
    }
  }

  /** The first closing fence at or after line i, or the number of lines. */
  function ClosingFence(lines: seq<string>, i: nat): (end: nat)
    requires i <= |lines|
    ensures i <= end <= |lines| && (end < |lines| ==> Closes(lines[end]))
    ensures forall k | i <= k < end :: !Closes(lines[k])
    decreases |lines| - i
  {
    if i == |lines| || Closes(lines[i]) then i else ClosingFence(lines, i + 1)
  }

  /** The frontmatter's lines, the body, and the line of the file the body starts on. */
  datatype Parts = Parts(block: Option<seq<string>>, body: string, bodyStart: nat)

  function PartsOf(text: string): Parts {
    var s := Normalize(text);
    var lines := Split(s);
    if lines[0] != FENCE then Parts(None, s, 1)
    else
      var end := ClosingFence(lines, 1);
      if end == |lines| then Parts(None, s, 1)
      else Parts(Some(lines[1..end]), Join(lines[end + 1..]), end + 2)
  }

  lemma FirstLine(s: string)
    ensures Split(s)[0] == FENCE <==> HasPrefix(s, FENCE + "\n") || s == FENCE
  {
    var first := Split(s)[0];
    JoinSplit(s);
    SplitIsLines(s);
    if |Split(s)| > 1 {
      assert s == first + ['\n'] + Join(Split(s)[1..]);
    }
    if HasPrefix(s, FENCE + "\n") {
      SplitLine(FENCE, s[4..]);
      assert s == FENCE + ['\n'] + s[4..];
    } else if s == FENCE {
      SplitLine(FENCE, []);
    }
  }

  /** The block is blank or decodes. */
  predicate Decodes(block: seq<string>, yaml: string -> bool) {
    TrimSpace(Join(block)) == "" || yaml(Join(block))
  }

  /** `splitFrontmatter`, where `yaml` tells which blocks decode: a file is refused exactly when it
      has a block that is not blank and does not decode. */
  method SplitFrontmatter(data: string, yaml: string -> bool) returns (r: Option<Parts>)
    ensures r == None <==> PartsOf(data).block.Some? && !Decodes(PartsOf(data).block.value, yaml)
    ensures r.Some? ==> r.value == PartsOf(data)
  {
    var s := Normalize(data);
    FirstLine(s);
    if !HasPrefix(s, FENCE + "\n") && s != FENCE { return Some(Parts(None, s, 1)); }
    var lines := Split(s);
    var end := 1;
    while end < |lines| && !Closes(lines[end])
      invariant 1 <= end <= |lines| && ClosingFence(lines, 1) == ClosingFence(lines, end)
    {
      end := end + 1;
    }
    if end == |lines| { return Some(Parts(None, s, 1)); }
    var yamlBlock := Join(lines[1..end]);
    if TrimSpace(yamlBlock) != "" && !yaml(yamlBlock) { return None; }
    r := Some(Parts(Some(lines[1..end]), Join(lines[end + 1..]), end + 2));
  }

  // ---------------------------------------------------------------- lines of the body

  datatype Section = Section(title: string, level: nat, body: string, line: int)

  datatype ChecklistItem = ChecklistItem(text: string, checked: bool, line: int)

  datatype Heading = Heading(level: nat, text: string)

  function Hashes(t: string): (n: nat)
    ensures n <= |t|
  {
    if t != [] && t[0] == '#' then 1 + Hashes(t[1..]) else 0
  }

  function HeadingText(t: string): string { TrimSpace(TrimRight(TrimSpace(t), IsHash)) }

  /** An ATX heading. */
  function HeadingOf(line: string): (h: Option<Heading>)
    ensures h.Some? ==> 1 <= h.value.level <= 6
  {
    if HasPrefix(line, "    ") then None
    else
      var t := TrimLeft(line, IsPlainSpace);
      var n := Hashes(t);
      if n == 0 || n > 6 || n >= |t| || t[n] != ' ' then None
      else Some(Heading(n, HeadingText(t[n + 1..])))
  }

  /** The text behind a heading's hashes, without white space around it, without closing hashes, and
      again without white space around it. */
  ghost predicate IsHeadingText(rest: string, text: string) {
    exists inner: string, closing: nat :: ClosedWith(rest, text, inner, closing)
  }

  ghost predicate ClosedWith(rest: string, text: string, inner: string, closing: nat) {
    && Trimmed(rest, inner + Repeat('#', closing), IsSpace)
    && (inner != "" ==> inner[|inner| - 1] != '#') && Trimmed(inner, text, IsSpace)
  }

  lemma HeadingTextExact(rest: string, text: string)
    ensures IsHeadingText(rest, text) <==> text == HeadingText(rest)
  {
    var t := TrimSpace(rest);
    var cut := TrimRight(t, IsHash);
    var n := |t| - |cut|;
    TrimRightCuts(t, IsHash);
    assert t == cut + Repeat('#', n);
    TrimExact(rest, t, IsSpace);
    TrimExact(cut, HeadingText(rest), IsSpace);
    assert ClosedWith(rest, HeadingText(rest), cut, n);
    if IsHeadingText(rest, text) {
      var inner: string, closing: nat :| ClosedWith(rest, text, inner, closing);
      var whole := inner + Repeat('#', closing);
      TrimExact(rest, whole, IsSpace);
      TrimRightIs(whole, |inner|, IsHash);
      assert whole[..|inner|] == inner;
      TrimExact(inner, text, IsSpace);
    }
  }

  /** At most three spaces, one to six hashes, a space, and anything, of which the heading's text is
      left. */
  ghost predicate IsAtx(line: string, level: nat, text: string) {
    exists k: nat, rest: string :: AtxParts(line, level, text, k, rest)
  }

  ghost predicate AtxParts(line: string, level: nat, text: string, k: nat, rest: string) {
    && k <= 3 && 1 <= level <= 6 && IsHeadingText(rest, text)
    && line == Repeat(' ', k) + (Repeat('#', level) + (" " + rest))
  }

  lemma {:induction false} SpacesTrimmed(k: nat, t: string)
    requires t == "" || t[0] != ' '
    ensures TrimLeft(Repeat(' ', k) + t, IsPlainSpace) == t
  {
    var line := Repeat(' ', k) + t;
    if k == 0 {
      assert line == t;
    } else {
      SpacesTrimmed(k - 1, t);
      assert line[1..] == Repeat(' ', k - 1) + t;
    }
  }

  lemma {:induction false} TrimmedSpaces(line: string)
    ensures var t := TrimLeft(line, IsPlainSpace); line == Repeat(' ', |line| - |t|) + t
  {
    if line != "" && line[0] == ' ' {
      TrimmedSpaces(line[1..]);
      var t := TrimLeft(line, IsPlainSpace);
      assert line == [' '] + line[1..];
      assert Repeat(' ', |line| - |t|) == [' '] + Repeat(' ', |line| - 1 - |t|);
    } else {
      assert line == Repeat(' ', 0) + line;
    }
  }

  lemma {:induction false} HashRun(n: nat, rest: string)
    requires rest == "" || rest[0] != '#'
    ensures Hashes(Repeat('#', n) + rest) == n
  {
    var t := Repeat('#', n) + rest;
    if n == 0 {
      assert t == rest;
    } else {
      HashRun(n - 1, rest);
      assert t[1..] == Repeat('#', n - 1) + rest;
    }
  }

  lemma {:induction false} RunOfHashes(t: string)
    ensures var n := Hashes(t); t[..n] == Repeat('#', n) && (n < |t| ==> t[n] != '#')
  {
    if t != "" && t[0] == '#' {
      RunOfHashes(t[1..]);
      var n := Hashes(t);
      assert t[..n] == ['#'] + t[1..][..n - 1];
      assert Repeat('#', n) == ['#'] + Repeat('#', n - 1);
    } else {
      assert t[..0] == Repeat('#', 0);
    }
  }

  lemma NotIndentedCode(line: string, k: nat)
    requires k <= 3 && k < |line| && line[k] == '#'
    ensures !HasPrefix(line, "    ")
  {
    assert "    "[k] == ' ';
  }

  lemma HashesThenText(level: nat, rest: string)
    requires level > 0
    ensures var t := Repeat('#', level) + (" " + rest);
            t[0] == '#' && Hashes(t) == level && level < |t| && t[level] == ' ' && t[level + 1..] == rest
  {
    HashRun(level, " " + rest);
  }

  lemma AtxIsHeading(line: string, level: nat, text: string, k: nat, rest: string)
    requires AtxParts(line, level, text, k, rest)
    ensures HeadingOf(line) == Some(Heading(level, text))
  {
    hide TrimLeft, Hashes, HeadingText, IsHeadingText, HasPrefix;
    HeadingTextExact(rest, text);
    var t := Repeat('#', level) + (" " + rest);
    HashesThenText(level, rest);
    assert line[k] == t[0];
    NotIndentedCode(line, k);
    SpacesTrimmed(k, t);
  }

  lemma HeadingIsAtx(line: string)
    requires HeadingOf(line).Some?
    ensures IsAtx(line, HeadingOf(line).value.level, HeadingOf(line).value.text)
  {
    hide HeadingText, IsHeadingText, TrimLeft, Hashes;
    var t := TrimLeft(line, IsPlainSpace);
    var n, k := Hashes(t), |line| - |t|;
    TrimmedSpaces(line);
    RunOfHashes(t);
    assert k > 3 ==> HasPrefix(line, "    ");
    var rest := t[n + 1..];
    assert t == t[..n] + (" " + rest);
    HeadingTextExact(rest, HeadingText(rest));
    assert AtxParts(line, n, HeadingText(rest), k, rest);
  }

  lemma HeadingExact(line: string, level: nat, text: string)
    ensures IsAtx(line, level, text) <==> HeadingOf(line) == Some(Heading(level, text))
  {
    hide HeadingOf;
    if IsAtx(line, level, text) {
      var k: nat, rest: string :| AtxParts(line, level, text, k, rest);
      AtxIsHeading(line, level, text, k, rest);
    }
    if HeadingOf(line).Some? { HeadingIsAtx(line); }
  }

  /** Recognises exactly the ATX headings, with their level and text. */
  method ParseHeading(line: string) returns (h: Option<Heading>)
    ensures h == HeadingOf(line)
    ensures forall level, text :: IsAtx(line, level, text) <==> h == Some(Heading(level, text))
  {
    forall level, text ensures IsAtx(line, level, text) <==> HeadingOf(line) == Some(Heading(level, text)) {
      HeadingExact(line, level, text);
    }
    if HasPrefix(line, "    ") { return None; }
    var t := TrimLeft(line, IsPlainSpace);
    var n := 0;
    while n < |t| && t[n] == '#'
      invariant n <= |t| && Hashes(t) == n + Hashes(t[n..])
    {
      n := n + 1;
    }
    if n == 0 || n > 6 || n >= |t| || t[n] != ' ' { return None; }
    h := Some(Heading(n, HeadingText(t[n + 1..])));
  }

  /** A task-list line: its text and whether it is checked. */
  function ChecklistOf(line: string): Option<(string, bool)> {
    var t := TrimLeft(line, IsBlank);
    if |t| < 5 || t[0] !in "-*+" then None
    else
      var rest := TrimLeft(t[1..], IsPlainSpace);
      if |rest| < 3 || rest[0] != '[' || rest[2] != ']' || rest[1] !in " xX" then None
      else Some((TrimSpace(rest[3..]), rest[1] != ' '))
  }

  /** Spaces and tabs, a bullet, spaces, a box with a mark and any text; at least five characters
      without the leading ones. */
  ghost predicate IsItem(line: string, text: string, checked: bool) {
    exists lead: string, bullet: char, spaces: nat, mark: char, rest: string ::
      ItemParts(line, text, checked, lead, bullet, spaces, mark, rest)
  }

  ghost predicate ItemParts(line: string, text: string, checked: bool,
                            lead: string, bullet: char, spaces: nat, mark: char, rest: string)
  {
    && line == lead + ([bullet] + (Repeat(' ', spaces) + (['[', mark, ']'] + rest)))
    && (forall k | 0 <= k < |lead| :: lead[k] == ' ' || lead[k] == '\t')
    && (bullet == '-' || bullet == '*' || bullet == '+')
    && (mark == ' ' || mark == 'x' || mark == 'X') && (checked <==> mark == 'x' || mark == 'X')
    && |line| - |lead| >= 5 && Trimmed(rest, text, IsSpace)
  }

  lemma PartsAreItem(line: string, text: string, checked: bool,
                     lead: string, bullet: char, spaces: nat, mark: char, rest: string)
    requires ItemParts(line, text, checked, lead, bullet, spaces, mark, rest)
    ensures ChecklistOf(line) == Some((text, checked))
  {
    hide TrimLeft, Trimmed, TrimSpace;
    var box := ['[', mark, ']'] + rest;
    var t := [bullet] + (Repeat(' ', spaces) + box);
    assert line[|lead|] == bullet && forall k | 0 <= k < |lead| :: line[k] == lead[k];
    TrimLeftIs(line, |lead|, IsBlank);
    assert line[|lead|..] == t && t[1..] == Repeat(' ', spaces) + box;
    SpacesTrimmed(spaces, box);
    assert box[3..] == rest;
    TrimmedIsSpace(rest, text);
  }

  lemma TrimmedIsSpace(rest: string, text: string)
    ensures Trimmed(rest, text, IsSpace) <==> text == TrimSpace(rest)
  {
    TrimExact(rest, text, IsSpace);
  }

  lemma ItemHasParts(line: string)
    requires ChecklistOf(line).Some?
    ensures IsItem(line, ChecklistOf(line).value.0, ChecklistOf(line).value.1)
  {
    hide TrimLeft, Trimmed, TrimSpace;
    var t := TrimLeft(line, IsBlank);
    TrimLeftCuts(line, IsBlank);
    var lead := line[..|line| - |t|];
    var box := TrimLeft(t[1..], IsPlainSpace);
    TrimmedSpaces(t[1..]);
    var spaces, rest := |t| - 1 - |box|, box[3..];
    assert box == ['[', box[1], ']'] + rest;
    assert t == [t[0]] + t[1..] && line == lead + t;
    TrimmedIsSpace(rest, TrimSpace(rest));
    assert ItemParts(line, TrimSpace(rest), box[1] != ' ', lead, t[0], spaces, box[1], rest);
  }

  lemma ItemExact(line: string, text: string, checked: bool)
    ensures IsItem(line, text, checked) <==> ChecklistOf(line) == Some((text, checked))
  {
    hide ChecklistOf, ItemParts;
    if IsItem(line, text, checked) {
      var lead: string, bullet: char, spaces: nat, mark: char, rest: string :|
        ItemParts(line, text, checked, lead, bullet, spaces, mark, rest);
      PartsAreItem(line, text, checked, lead, bullet, spaces, mark, rest);
    }
    if ChecklistOf(line).Some? { ItemHasParts(line); }
  }

  /** A line cannot be both. */
  lemma ItemIsNoHeading(line: string)
    requires ChecklistOf(line).Some?
    ensures HeadingOf(line) == None
  {
    var t := TrimLeft(line, IsBlank);
    TrimLeftCuts(line, IsBlank);
    TrimLeftCuts(line, IsPlainSpace);
    var n, k := |line| - |TrimLeft(line, IsPlainSpace)|, |line| - |t|;
    assert n <= k && line[k] == t[0];
    assert n < |line| ==> TrimLeft(line, IsPlainSpace)[0] == line[n];
  }

  predicate TogglesFence(line: string) {
    HasPrefix(TrimSpace(line), "```") || HasPrefix(TrimSpace(line), "~~~")
  }

  /** Three backticks or three tildes behind white space. */
  ghost predicate IsFenceLine(line: string) {
    exists k | 0 <= k < |line| :: FenceFrom(line, k)
  }

  ghost predicate FenceFrom(line: string, k: nat) {
    && k + 3 <= |line| && line[k] == line[k + 1] == line[k + 2] && (line[k] == '`' || line[k] == '~')
    && forall j | 0 <= j < k :: IsSpace(line[j])
  }

  lemma FenceExact(line: string)
    ensures TogglesFence(line) <==> IsFenceLine(line)
  {
    hide IsSpace, FenceFrom, TrimLeft, TrimRight;
    if TogglesFence(line) {
      TrimLeftCuts(line, IsSpace);
      var n := |line| - |TrimLeft(line, IsSpace)|;
      FenceFound(line, n);
    }
    if IsFenceLine(line) {
      var k :| 0 <= k < |line| && FenceFrom(line, k);
      FenceToggles(line, k);
    }
  }

  lemma FenceFound(line: string, n: nat)
    requires n <= |line| && TrimLeft(line, IsSpace) == line[n..] && TogglesFence(line)
    requires forall k | 0 <= k < n :: IsSpace(line[k])
    ensures n < |line| && FenceFrom(line, n)
  {
    hide IsSpace, TrimLeft;
    var t := TrimRight(line[n..], IsSpace);
    assert forall k | 0 <= k < |t| :: t[k] == line[n + k];
    assert forall k | 0 <= k < 3 :: "```"[k] == '`' && "~~~"[k] == '~';
  }

  lemma FenceToggles(line: string, k: nat)
    requires k < |line| && FenceFrom(line, k)
    ensures TogglesFence(line)
  {
    hide IsSpace, TrimLeft, TrimRight;
    NoMarkIsSpace();
    TrimLeftIs(line, k, IsSpace);
    var left := line[k..];
    TrimRightCuts(left, IsSpace);
    var t := TrimRight(left, IsSpace);
    assert left[2] == line[k + 2] && |t| > 2;
    assert t[..3] == if line[k] == '`' then "```" else "~~~";
  }

  lemma NoMarkIsSpace()
    ensures !IsSpace('`') && !IsSpace('~')
  {
  }

  // ---------------------------------------------------------------- the outline, declaratively

  /** Whether line i lies inside a fenced code block. */
  function InFence(lines: seq<string>, i: nat): bool
    requires i <= |lines|
  {
    i > 0 && (if TogglesFence(lines[i - 1]) then !InFence(lines, i - 1) else InFence(lines, i - 1))
  }

  predicate Plain(lines: seq<string>, i: nat)
    requires i < |lines|
  {
    !TogglesFence(lines[i]) && !InFence(lines, i)
  }

  /** The unfenced heading on line i, if any. */
  function HeadingAt(lines: seq<string>, i: nat): Option<Heading>
    requires i < |lines|
  {
    if Plain(lines, i) then HeadingOf(lines[i]) else None
  }

  predicate IsHead(lines: seq<string>, i: nat)
    requires i < |lines|
  {
    HeadingAt(lines, i).Some?
  }

  predicate Ends(lines: seq<string>, i: nat, level: nat)
    requires i < |lines|
  {
    HeadingAt(lines, i).Some? && HeadingAt(lines, i).value.level <= level
  }

  /** The first line at or after i with a heading of the same or a shallower level, or the end. */
  function ExtentEnd(lines: seq<string>, i: nat, level: nat): (end: nat)
    requires i <= |lines|
    ensures i <= end <= |lines|
    decreases |lines| - i
  {
    if i == |lines| || Ends(lines, i, level) then i else ExtentEnd(lines, i + 1, level)
  }

  lemma {:induction false} ExtentIsFirst(lines: seq<string>, i: nat, level: nat)
    requires i <= |lines|
    ensures var end := ExtentEnd(lines, i, level);
            (end < |lines| ==> Ends(lines, end, level)) && forall k | i <= k < end :: !Ends(lines, k, level)
    decreases |lines| - i
  {
    hide Ends;
    if i < |lines| && !Ends(lines, i, level) { ExtentIsFirst(lines, i + 1, level); }
  }

  function BodyText(lines: seq<string>, from: nat, to: nat): string
    requires from <= to <= |lines|
  {
    Trim(Join(lines[from..to]), IsNewline)
  }

  function SectionAt(lines: seq<string>, base: int, i: nat): Section
    requires i < |lines| && IsHead(lines, i)
  {
    var h := HeadingAt(lines, i).value;
    Section(h.text, h.level, BodyText(lines, i + 1, ExtentEnd(lines, i + 1, h.level)), base + i)
  }

  /** The positions of the unfenced headings among the first n lines. */
  function Heads(lines: seq<string>, n: nat): (hs: seq<nat>)
    requires n <= |lines|
    ensures forall k | 0 <= k < |hs| :: hs[k] < n
  {
    hide IsHead;
    if n == 0 then []
    else if IsHead(lines, n - 1) then Heads(lines, n - 1) + [n - 1]
    else Heads(lines, n - 1)
  }

  lemma {:induction false} HeadsAreAll(lines: seq<string>, n: nat)
    requires n <= |lines|
    ensures forall k | 0 <= k < |Heads(lines, n)| :: IsHead(lines, Heads(lines, n)[k])
    ensures forall i: nat | i < n && IsHead(lines, i) :: i in Heads(lines, n)
    ensures forall j, k | 0 <= j < k < |Heads(lines, n)| :: Heads(lines, n)[j] < Heads(lines, n)[k]
  {
    hide IsHead;
    if n > 0 { HeadsAreAll(lines, n - 1); }
  }

  function SectionsOf(lines: seq<string>, base: int): seq<Section> {
    HeadsAreAll(lines, |lines|);
    var hs := Heads(lines, |lines|);
    seq(|hs|, k requires 0 <= k < |hs| => SectionAt(lines, base, hs[k]))
  }

  /** The first heading of level one that has a text. */
  function TitleOf(lines: seq<string>, n: nat): string
    requires n <= |lines|
  {
    if n == 0 then ""
    else
      var t := TitleOf(lines, n - 1);
      var h := HeadingAt(lines, n - 1);
      if t == "" && h.Some? && h.value.level == 1 then h.value.text else t
  }

  function ChecklistAt(lines: seq<string>, base: int, i: nat): seq<ChecklistItem>
    requires i < |lines|
  {
    var c := ChecklistOf(lines[i]);
    if Plain(lines, i) && HeadingAt(lines, i) == None && c.Some?
    then [ChecklistItem(c.value.0, c.value.1, base + i)] else []
  }

  function ChecklistItems(lines: seq<string>, base: int, n: nat): seq<ChecklistItem>
    requires n <= |lines|
  {
    if n == 0 then [] else ChecklistItems(lines, base, n - 1) + ChecklistAt(lines, base, n - 1)
  }

  // ---------------------------------------------------------------- what an outline is

  ghost function FencesBefore(lines: seq<string>, i: nat): set<nat>
    requires i <= |lines|
  {
    set k: nat | k < i && IsFenceLine(lines[k])
  }

  /** Line i stands outside fenced code: it is no fence, and an even number of them precedes it. */
  ghost predicate Unfenced(lines: seq<string>, i: nat)
    requires i < |lines|
  {
    !IsFenceLine(lines[i]) && |FencesBefore(lines, i)| % 2 == 0
  }

  ghost predicate HeadingOn(lines: seq<string>, i: int, level: nat, text: string) {
    0 <= i < |lines| && Unfenced(lines, i) && IsAtx(lines[i], level, text)
  }

  ghost predicate ItemOn(lines: seq<string>, i: int, text: string, checked: bool) {
    0 <= i < |lines| && Unfenced(lines, i) && IsItem(lines[i], text, checked)
  }

  /** The first heading of level one that has a text gives the title. */
  ghost predicate IsTitle(lines: seq<string>, n: nat, title: string) {
    if title == "" then forall i, text | i < n && HeadingOn(lines, i, 1, text) :: text == ""
    else exists i | 0 <= i < n :: HeadingOn(lines, i, 1, title) &&
           forall k, text | k < i && HeadingOn(lines, k, 1, text) :: text == ""
  }

  /** A section stands for the heading on its line and reaches up to the next heading of the same or a
      shallower level, or to the end; its body are the lines between, without newlines around it. */
  ghost predicate IsSection(lines: seq<string>, base: int, s: Section) {
    && HeadingOn(lines, s.line - base, s.level, s.title)
    && SectionFrom(lines, s.line - base, s)
  }

  ghost predicate SectionFrom(lines: seq<string>, i: nat, s: Section) {
    exists end | i < end <= |lines| :: SectionSpans(lines, i, end, s)
  }

  ghost predicate SectionSpans(lines: seq<string>, i: nat, end: nat, s: Section)
    requires i < end <= |lines|
  {
    && (forall k, level: nat, text | i < k < end && HeadingOn(lines, k, level, text) :: level > s.level)
    && (end < |lines| ==> exists level: nat, text :: HeadingOn(lines, end, level, text) && level <= s.level)
    && IsSectionBody(Join(lines[i + 1..end]), s.body)
  }

  ghost predicate IsSectionBody(between: string, body: string) {
    exists i, j | 0 <= i <= j <= |between| ::
      && body == between[i..j] && (forall k | 0 <= k < i || j <= k < |between| :: between[k] == '\n')
      && (body != "" ==> body[0] != '\n' && body[|body| - 1] != '\n')
  }

  ghost predicate SectionsListed(lines: seq<string>, base: int, sections: seq<Section>) {
    && (forall k | 0 <= k < |sections| :: IsSection(lines, base, sections[k]))
    && (forall j, k | 0 <= j < k < |sections| :: sections[j].line < sections[k].line)
    && (forall i, level: nat, text | HeadingOn(lines, i, level, text) :: exists s | s in sections :: s.line == base + i)
  }

  ghost predicate ItemsListed(lines: seq<string>, base: int, items: seq<ChecklistItem>) {
    && (forall k | 0 <= k < |items| :: ItemOn(lines, items[k].line - base, items[k].text, items[k].checked))
    && (forall j, k | 0 <= j < k < |items| :: items[j].line < items[k].line)
    && (forall i, text, checked | ItemOn(lines, i, text, checked) :: ChecklistItem(text, checked, base + i) in items)
  }

  /** The title, a section for each heading and an item for each task-list line, in the order of
      their lines and only outside fenced code. */
  ghost predicate IsOutline(lines: seq<string>, base: int, title: string, sections: seq<Section>, items: seq<ChecklistItem>) {
    IsTitle(lines, |lines|, title) && SectionsListed(lines, base, sections) && ItemsListed(lines, base, items)
  }

  lemma {:induction false} FenceParity(lines: seq<string>, i: nat)
    requires i <= |lines|
    ensures InFence(lines, i) <==> |FencesBefore(lines, i)| % 2 == 1
  {
    hide TogglesFence, IsFenceLine;
    if i > 0 {
      FenceParity(lines, i - 1);
      FenceExact(lines[i - 1]);
      var before, now := FencesBefore(lines, i - 1), FencesBefore(lines, i);
      assert now == if IsFenceLine(lines[i - 1]) then before + {i - 1} else before;
    }
  }

  lemma HeadingOnExact(lines: seq<string>, i: nat, level: nat, text: string)
    requires i < |lines|
    ensures HeadingOn(lines, i, level, text) <==> HeadingAt(lines, i) == Some(Heading(level, text))
  {
    hide IsAtx, HeadingOf, TogglesFence, IsFenceLine, InFence, FencesBefore;
    FenceParity(lines, i);
    FenceExact(lines[i]);
    HeadingExact(lines[i], level, text);
  }

  lemma ItemOnExact(lines: seq<string>, base: int, i: nat, text: string, checked: bool)
    requires i < |lines|
    ensures ItemOn(lines, i, text, checked) <==> ChecklistAt(lines, base, i) == [ChecklistItem(text, checked, base + i)]
  {
    hide IsItem, ChecklistOf, HeadingOf, TogglesFence, IsFenceLine, InFence, FencesBefore;
    FenceParity(lines, i);
    FenceExact(lines[i]);
    ItemExact(lines[i], text, checked);
    if ChecklistOf(lines[i]).Some? { ItemIsNoHeading(lines[i]); }
  }

  lemma {:induction false} TitleExact(lines: seq<string>, n: nat)
    requires n <= |lines|
    ensures IsTitle(lines, n, TitleOf(lines, n))
  {
    hide HeadingOn, HeadingAt;
    PositionsArePositive(lines);
    if n > 0 {
      TitleExact(lines, n - 1);
      var h, m := HeadingAt(lines, n - 1), n - 1;
      forall text ensures HeadingOn(lines, m, 1, text) <==> h == Some(Heading(1, text)) {
        HeadingOnExact(lines, m, 1, text);
      }
      var before, title := TitleOf(lines, m), TitleOf(lines, n);
      if before != "" {
        var i :| 0 <= i < m && HeadingOn(lines, i, 1, before) &&
                 forall k, text | k < i && HeadingOn(lines, k, 1, text) :: text == "";
      } else if h.Some? && h.value.level == 1 && h.value.text != "" {
        assert h == Some(Heading(1, title)) && HeadingOn(lines, m, 1, title);
      }
    }
  }

  lemma PositionsArePositive(lines: seq<string>)
    ensures forall i, level, text | HeadingOn(lines, i, level, text) :: 0 <= i < |lines|
  {
  }

  lemma BodyExact(lines: seq<string>, from: nat, to: nat)
    requires from <= to <= |lines|
    ensures IsSectionBody(Join(lines[from..to]), BodyText(lines, from, to))
  {
    hide Join, Trim;
    var between, body := Join(lines[from..to]), BodyText(lines, from, to);
    TrimExact(between, body, IsNewline);
    var i, j :| 0 <= i <= j <= |between| && TrimmedAt(between, body, IsNewline, i, j);
    assert body == between[i..j];
  }

  lemma EndsExact(lines: seq<string>, i: nat, level: nat)
    requires i < |lines|
    ensures Ends(lines, i, level) <==> exists l: nat, text :: HeadingOn(lines, i, l, text) && l <= level
  {
    hide HeadingOn, HeadingAt;
    forall l: nat, text ensures HeadingOn(lines, i, l, text) <==> HeadingAt(lines, i) == Some(Heading(l, text)) {
      HeadingOnExact(lines, i, l, text);
    }
    if Ends(lines, i, level) {
      var h := HeadingAt(lines, i).value;
      assert HeadingOn(lines, i, h.level, h.text);
    }
  }

  lemma SectionExact(lines: seq<string>, base: int, i: nat)
    requires i < |lines| && IsHead(lines, i)
    ensures IsSection(lines, base, SectionAt(lines, base, i))
  {
    var h, s := HeadingAt(lines, i).value, SectionAt(lines, base, i);
    hide HeadingOn, HeadingAt, Ends, ExtentEnd, BodyText, IsSectionBody;
    HeadingOnExact(lines, i, h.level, h.text);
    var end := ExtentEnd(lines, i + 1, h.level);
    ExtentIsFirst(lines, i + 1, h.level);
    BodyExact(lines, i + 1, end);
    if end < |lines| { EndsExact(lines, end, h.level); }
    forall k, l: nat, text | i < k < end && HeadingOn(lines, k, l, text) ensures l > h.level {
      EndsExact(lines, k, h.level);
    }
    assert SectionSpans(lines, i, end, s);
  }

  lemma {:induction false} ItemsExact(lines: seq<string>, base: int, n: nat)
    requires n <= |lines|
    ensures var items := ChecklistItems(lines, base, n);
            && (forall k | 0 <= k < |items| :: ItemOn(lines, items[k].line - base, items[k].text, items[k].checked))
            && forall i, text, checked | 0 <= i < n && ItemOn(lines, i, text, checked) ::
                 ChecklistItem(text, checked, base + i) in items
  {
    hide ItemOn, ChecklistAt;
    if n > 0 {
      ItemsExact(lines, base, n - 1);
      OneItem(lines, base, n - 1);
      var last := ChecklistAt(lines, base, n - 1);
      assert ChecklistItems(lines, base, n) == ChecklistItems(lines, base, n - 1) + last;
      if last != [] {
        assert last == [last[0]] && last[0] in last;
        ItemOnExact(lines, base, n - 1, last[0].text, last[0].checked);
      }
      var m := n - 1;
      forall text, checked | ItemOn(lines, m, text, checked)
        ensures ChecklistItem(text, checked, base + m) in ChecklistItems(lines, base, n)
      {
        ItemOnExact(lines, base, m, text, checked);
        assert ChecklistItem(text, checked, base + m) in last;
      }
    }
  }

  lemma ItemPositions(lines: seq<string>)
    ensures forall i, text, checked | ItemOn(lines, i, text, checked) :: 0 <= i < |lines|
  {
  }

  lemma OutlineExact(lines: seq<string>, base: int)
    ensures IsOutline(lines, base, TitleOf(lines, |lines|), SectionsOf(lines, base), ChecklistItems(lines, base, |lines|))
  {
    hide ItemOn, IsTitle, SectionsListed, SectionsOf, TitleOf, ChecklistItems;
    TitleExact(lines, |lines|);
    AllSectionsListed(lines, base);
    ItemsExact(lines, base, |lines|);
    ItemPositions(lines);
    ChecklistInOrder(lines, base, |lines|);
  }

  lemma AllSectionsListed(lines: seq<string>, base: int)
    ensures SectionsListed(lines, base, SectionsOf(lines, base))
  {
    hide HeadingOn, IsSection, SectionAt, SectionsOf, Heads, IsHead;
    HeadsAreAll(lines, |lines|);
    SectionsAreHeads(lines, base);
    SectionLinesIncrease(lines, base);
    PositionsArePositive(lines);
    var hs, ss := Heads(lines, |lines|), SectionsOf(lines, base);
    forall k | 0 <= k < |ss| ensures IsSection(lines, base, ss[k]) { SectionExact(lines, base, hs[k]); }
    forall i, level: nat, text | HeadingOn(lines, i, level, text) ensures exists s | s in ss :: s.line == base + i {
      IsHeadHere(lines, i, level, text);
      SectionForEachHeading(lines, base, i);
      var k :| 0 <= k < |ss| && ss[k].line == base + i;
      assert ss[k] in ss;
    }
  }

  lemma IsHeadHere(lines: seq<string>, i: nat, level: nat, text: string)
    requires i < |lines| && HeadingOn(lines, i, level, text)
    ensures IsHead(lines, i)
  {
    HeadingOnExact(lines, i, level, text);
    hide HeadingOn, HeadingAt;
  }

  // ---------------------------------------------------------------- the stack pass

  datatype OpenSection = OpenSection(idx: nat, bodyStart: nat, level: nat)

  /** The stack after n lines holds sections that none of them ends, deepest last. */
  ghost predicate StackOk(lines: seq<string>, stack: seq<OpenSection>, n: nat)
    requires n <= |lines|
  {
    && (forall m | 0 <= m < |stack| :: OpenAt(lines, stack[m], n))
    && (forall l, m | 0 <= l < m < |stack| :: stack[l].idx < stack[m].idx && stack[l].level < stack[m].level)
  }

  ghost predicate OpenAt(lines: seq<string>, os: OpenSection, n: nat)
    requires n <= |lines|
  {
    var hs := Heads(lines, n);
    && os.idx < |hs| && os.bodyStart == hs[os.idx] + 1
    && IsHead(lines, hs[os.idx]) && os.level == HeadingAt(lines, hs[os.idx]).value.level
    && ExtentEnd(lines, os.bodyStart, os.level) >= n
  }

  predicate OnStack(stack: seq<OpenSection>, k: nat) {
    exists m | 0 <= m < |stack| :: stack[m].idx == k
  }

  /** The sections of the first n lines: complete, except that those on the stack lack a body. */
  ghost predicate SectionsOk(lines: seq<string>, base: int, stack: seq<OpenSection>, sections: seq<Section>, n: nat)
    requires n <= |lines|
  {
    var hs := Heads(lines, n);
    && |sections| == |hs|
    && forall k | 0 <= k < |hs| :: IsHead(lines, hs[k]) &&
         sections[k] == if OnStack(stack, k) then SectionAt(lines, base, hs[k]).(body := "") else SectionAt(lines, base, hs[k])
  }

  /** One round of `closeTo`. */
  lemma PopOk(lines: seq<string>, base: int, stack: seq<OpenSection>, sections: seq<Section>, upto: nat)
    requires upto <= |lines| && StackOk(lines, stack, upto) && SectionsOk(lines, base, stack, sections, upto)
    requires stack != []
    requires var top := stack[|stack| - 1]; ExtentEnd(lines, top.bodyStart, top.level) == upto
    ensures var top := stack[|stack| - 1]; var rest := stack[..|stack| - 1];
            && top.idx < |sections| && sections[top.idx].body == ""
            && StackOk(lines, rest, upto)
            && SectionsOk(lines, base, rest,
                 sections[top.idx := sections[top.idx].(body := BodyText(lines, top.bodyStart, upto))], upto)
  {
    hide Heads, HeadingAt, IsHead, BodyText, ExtentEnd, OnStack;
    var top := stack[|stack| - 1];
    Popped(stack, stack[..|stack| - 1]);
    assert OnStack(stack, top.idx) by { TopIsOnStack(stack); }
  }

  lemma TopIsOnStack(stack: seq<OpenSection>)
    requires stack != []
    ensures OnStack(stack, stack[|stack| - 1].idx)
  {
  }

  /** The closure `closeTo`: pops the sections that the line `upto` ends and fills in their bodies,
      each of them still empty. */
  method CloseTo(lines: seq<string>, base: int, stack0: seq<OpenSection>, sections0: seq<Section>, level: nat, upto: nat)
    returns (stack: seq<OpenSection>, sections: seq<Section>)
    requires upto <= |lines| && StackOk(lines, stack0, upto) && SectionsOk(lines, base, stack0, sections0, upto)
    requires forall m | 0 <= m < |stack0| && stack0[m].level >= level ::
               ExtentEnd(lines, stack0[m].bodyStart, stack0[m].level) == upto
    ensures StackOk(lines, stack, upto) && SectionsOk(lines, base, stack, sections, upto)
    ensures stack <= stack0 && forall m | 0 <= m < |stack0| :: m < |stack| <==> stack0[m].level < level
    ensures (forall m | 0 <= m < |stack0| :: stack0[m].level >= level) ==> stack == []
  {
    hide SectionsOk, Heads, HeadingAt, IsHead, BodyText, ExtentEnd;
    stack, sections := stack0, sections0;
    while |stack| > 0 && stack[|stack| - 1].level >= level
      invariant stack <= stack0
      invariant forall m | |stack| <= m < |stack0| :: stack0[m].level >= level
      invariant StackOk(lines, stack, upto) && SectionsOk(lines, base, stack, sections, upto)
    {
      PopOk(lines, base, stack, sections, upto);
      var os := stack[|stack| - 1];
      assert sections[os.idx].body == "";
      stack := stack[..|stack| - 1];
      sections := sections[os.idx := sections[os.idx].(body := BodyText(lines, os.bodyStart, upto))];
    }
  }

  lemma Popped(before: seq<OpenSection>, stack: seq<OpenSection>)
    requires before != [] && stack == before[..|before| - 1]
    requires forall l, m | 0 <= l < m < |before| :: before[l].idx < before[m].idx
    ensures forall k: nat :: OnStack(stack, k) <==> OnStack(before, k) && k != before[|before| - 1].idx
  {
    forall k: nat ensures OnStack(stack, k) <==> OnStack(before, k) && k != before[|before| - 1].idx {
      if OnStack(before, k) && k != before[|before| - 1].idx {
        var m :| 0 <= m < |before| && before[m].idx == k;
        assert stack[m].idx == k;
      }
    }
  }

  lemma NewHead(lines: seq<string>, n: nat)
    requires n < |lines|
    ensures Heads(lines, n + 1) == if IsHead(lines, n) then Heads(lines, n) + [n] else Heads(lines, n)
  {
  }

  /** A heading of the given level ends the open sections that are as deep, and no others. */
  lemma EndsHere(lines: seq<string>, stack: seq<OpenSection>, n: nat)
    requires n < |lines| && StackOk(lines, stack, n)
    ensures forall m | 0 <= m < |stack| ::
              (Ends(lines, n, stack[m].level) ==> ExtentEnd(lines, stack[m].bodyStart, stack[m].level) == n) &&
              (!Ends(lines, n, stack[m].level) ==> ExtentEnd(lines, stack[m].bodyStart, stack[m].level) >= n + 1)
  {
    hide Ends, ExtentEnd, Heads, HeadingAt, IsHead;
    forall m | 0 <= m < |stack|
      ensures Ends(lines, n, stack[m].level) ==> ExtentEnd(lines, stack[m].bodyStart, stack[m].level) == n
      ensures !Ends(lines, n, stack[m].level) ==> ExtentEnd(lines, stack[m].bodyStart, stack[m].level) >= n + 1
    {
      assert OpenAt(lines, stack[m], n);
      ExtentIsFirst(lines, stack[m].bodyStart, stack[m].level);
    }
  }

  lemma SkipOk(lines: seq<string>, base: int, stack: seq<OpenSection>, sections: seq<Section>, n: nat)
    requires n < |lines| && StackOk(lines, stack, n) && SectionsOk(lines, base, stack, sections, n) && !IsHead(lines, n)
    ensures StackOk(lines, stack, n + 1) && SectionsOk(lines, base, stack, sections, n + 1)
  {
    EndsHere(lines, stack, n);
    assert forall level: nat :: !Ends(lines, n, level);
    NewHead(lines, n);
    hide Heads, HeadingAt, IsHead, ExtentEnd, OnStack, BodyText;
  }

  /** The section of the heading on line n, still open. */
  function Pushed(lines: seq<string>, stack: seq<OpenSection>, n: nat): seq<OpenSection>
    requires n < |lines| && IsHead(lines, n)
  {
    stack + [OpenSection(|Heads(lines, n)|, n + 1, HeadingAt(lines, n).value.level)]
  }

  lemma StillOpen(lines: seq<string>, os: OpenSection, n: nat)
    requires n < |lines| && OpenAt(lines, os, n) && !Ends(lines, n, os.level)
    ensures OpenAt(lines, os, n + 1)
  {
    hide Heads, HeadingAt, IsHead, Ends, ExtentEnd;
    ExtentIsFirst(lines, os.bodyStart, os.level);
    NewHead(lines, n);
  }

  lemma NewlyOpen(lines: seq<string>, stack: seq<OpenSection>, n: nat)
    requires n < |lines| && IsHead(lines, n)
    ensures OpenAt(lines, Pushed(lines, stack, n)[|stack|], n + 1)
  {
    hide Heads, HeadingAt, IsHead, Ends;
    NewHead(lines, n);
  }

  lemma PushStackOk(lines: seq<string>, stack: seq<OpenSection>, n: nat)
    requires n < |lines| && StackOk(lines, stack, n) && IsHead(lines, n)
    requires forall m | 0 <= m < |stack| :: stack[m].level < HeadingAt(lines, n).value.level
    ensures StackOk(lines, Pushed(lines, stack, n), n + 1)
  {
    hide Heads, TogglesFence, InFence, HeadingOf, ExtentEnd;
    var pushed := Pushed(lines, stack, n);
    forall m | 0 <= m < |stack| ensures OpenAt(lines, pushed[m], n + 1) && pushed[m].idx < |Heads(lines, n)| {
      assert OpenAt(lines, stack[m], n);
      assert !Ends(lines, n, stack[m].level);
      StillOpen(lines, stack[m], n);
    }
    NewlyOpen(lines, stack, n);
  }

  /** Which sections are open once the heading on line n is pushed. */
  lemma PushedOnStack(lines: seq<string>, stack: seq<OpenSection>, n: nat)
    requires n < |lines| && IsHead(lines, n) && StackOk(lines, Pushed(lines, stack, n), n + 1)
    ensures forall k: nat :: OnStack(Pushed(lines, stack, n), k) <==> OnStack(stack, k) || k == |Heads(lines, n)|
    ensures !OnStack(stack, |Heads(lines, n)|)
  {
    hide Heads, HeadingAt, IsHead, OpenAt;
    var pushed := Pushed(lines, stack, n);
    assert stack == pushed[..|pushed| - 1];
    Popped(pushed, stack);
    TopIsOnStack(pushed);
  }

  lemma NewSection(lines: seq<string>, base: int, n: nat)
    requires n < |lines| && IsHead(lines, n)
    ensures var h := HeadingAt(lines, n).value;
            SectionAt(lines, base, n).(body := "") == Section(h.text, h.level, "", base + n)
  {
    hide HeadingAt, ExtentEnd, BodyText;
  }

  lemma PushSectionsOk(lines: seq<string>, base: int, stack: seq<OpenSection>, sections: seq<Section>, n: nat)
    requires n < |lines| && SectionsOk(lines, base, stack, sections, n) && IsHead(lines, n)
    requires StackOk(lines, Pushed(lines, stack, n), n + 1)
    ensures var h := HeadingAt(lines, n).value;
            SectionsOk(lines, base, Pushed(lines, stack, n), sections + [Section(h.text, h.level, "", base + n)], n + 1)
  {
    hide Heads, HeadingAt, IsHead, OnStack, StackOk, SectionAt, Pushed;
    NewHead(lines, n);
    NewSection(lines, base, n);
    PushedOnStack(lines, stack, n);
  }

  lemma EmptyBody(base: int)
    ensures TitleOf([""], 1) == "" && SectionsOf([""], base) == [] && ChecklistItems([""], base, 1) == []
  {
    assert !IsHead([""], 0);
    NewHead([""], 0);
    assert Heads([""], 0) == [];
  }

  /** The single pass of `analyze` computes the outline. */
  method Analyze(body: string, baseLine: int)
    returns (title: string, sections: seq<Section>, checklist: seq<ChecklistItem>)
    ensures var lines := Split(body);
            title == TitleOf(lines, |lines|) && sections == SectionsOf(lines, baseLine) &&
            checklist == ChecklistItems(lines, baseLine, |lines|)
    ensures IsOutline(Split(body), baseLine, title, sections, checklist)
  {
    hide IsOutline, StackOk, SectionsOk, SectionsOf, HeadingOf, ChecklistOf, TogglesFence, Heads, ExtentEnd, IsAtx, BodyText;
    title, sections, checklist := "", [], [];
    OutlineExact(Split(body), baseLine);
    if body == "" {
      EmptyBody(baseLine);
      return;
    }
    var lines := Split(body);
    var stack: seq<OpenSection> := [];
    var inFence := false;
    StartOk(lines, baseLine);
    var i := 0;
    while i < |lines|
      invariant 0 <= i <= |lines|
      invariant inFence == InFence(lines, i)
      invariant StackOk(lines, stack, i) && SectionsOk(lines, baseLine, stack, sections, i)
      invariant title == TitleOf(lines, i) && checklist == ChecklistItems(lines, baseLine, i)
    {
      var line := lines[i];
      var h := ParseHeading(line);
      if TogglesFence(line) {
        inFence := !inFence;
        SkipOk(lines, baseLine, stack, sections, i);
      } else if inFence {
        SkipOk(lines, baseLine, stack, sections, i);
      } else if h.Some? {
        ClosableAt(lines, stack, i);
        stack, sections := CloseTo(lines, baseLine, stack, sections, h.value.level, i);
        if h.value.level == 1 && title == "" { title := h.value.text; }
        PushStackOk(lines, stack, i);
        PushSectionsOk(lines, baseLine, stack, sections, i);
        assert |sections| == |Heads(lines, i)| by { SameLength(lines, baseLine, stack, sections, i); }
        stack := stack + [OpenSection(|sections|, i + 1, h.value.level)];
        sections := sections + [Section(h.value.text, h.value.level, "", baseLine + i)];
      } else {
        SkipOk(lines, baseLine, stack, sections, i);
        var item := ChecklistOf(line);
        if item.Some? {
          checklist := checklist + [ChecklistItem(item.value.0, item.value.1, baseLine + i)];
        }
      }
      i := i + 1;
    }
    ClosableAtEnd(lines, stack);
    stack, sections := CloseTo(lines, baseLine, stack, sections, 1, |lines|);
    FinishedOk(lines, baseLine, sections);
  }

  lemma SameLength(lines: seq<string>, base: int, stack: seq<OpenSection>, sections: seq<Section>, n: nat)
    requires n <= |lines| && SectionsOk(lines, base, stack, sections, n)
    ensures |sections| == |Heads(lines, n)|
  {
  }

  lemma StartOk(lines: seq<string>, base: int)
    ensures StackOk(lines, [], 0) && SectionsOk(lines, base, [], [], 0)
  {
  }

  lemma ClosableAt(lines: seq<string>, stack: seq<OpenSection>, n: nat)
    requires n < |lines| && StackOk(lines, stack, n) && IsHead(lines, n)
    ensures forall m | 0 <= m < |stack| && stack[m].level >= HeadingAt(lines, n).value.level ::
              ExtentEnd(lines, stack[m].bodyStart, stack[m].level) == n
  {
    EndsHere(lines, stack, n);
    assert forall m | 0 <= m < |stack| && stack[m].level >= HeadingAt(lines, n).value.level :: Ends(lines, n, stack[m].level);
  }

  lemma ClosableAtEnd(lines: seq<string>, stack: seq<OpenSection>)
    requires StackOk(lines, stack, |lines|)
    ensures forall m | 0 <= m < |stack| :: stack[m].level >= 1 &&
              ExtentEnd(lines, stack[m].bodyStart, stack[m].level) == |lines|
  {
  }

  lemma FinishedOk(lines: seq<string>, base: int, sections: seq<Section>)
    requires SectionsOk(lines, base, [], sections, |lines|)
    ensures sections == SectionsOf(lines, base)
  {
    hide SectionAt;
    assert forall k: nat :: !OnStack([], k);
  }

  // ---------------------------------------------------------------- properties of the outline

  /** A heading ends every section at least as deep. */
  lemma EndsDeeper(lines: seq<string>, k: nat, level: nat, deeper: nat)
    requires k < |lines| && Ends(lines, k, level) && level <= deeper
    ensures Ends(lines, k, deeper)
  {
    hide HeadingAt;
  }

  lemma EndsAt(lines: seq<string>, j: nat, level: nat)
    requires j < |lines| && IsHead(lines, j)
    ensures Ends(lines, j, level) <==> HeadingAt(lines, j).value.level <= level
  {
    hide HeadingAt;
  }

  lemma ShorterWithin(lines: seq<string>, i: nat, j: nat, level: nat, deeper: nat)
    requires i < j < |lines| && level < deeper && ExtentEnd(lines, i + 1, level) > j
    ensures ExtentEnd(lines, j + 1, deeper) <= ExtentEnd(lines, i + 1, level)
  {
    hide Ends, ExtentEnd;
    ExtentIsFirst(lines, i + 1, level);
    ExtentIsFirst(lines, j + 1, deeper);
    var end := ExtentEnd(lines, i + 1, level);
    if end < |lines| { EndsDeeper(lines, end, level, deeper); }
  }

  /** Two sections' extents are nested or disjoint. */
  lemma ExtentsNest(lines: seq<string>, i: nat, j: nat)
    requires i < j < |lines| && IsHead(lines, i) && IsHead(lines, j)
    ensures var endI := ExtentEnd(lines, i + 1, HeadingAt(lines, i).value.level);
            var endJ := ExtentEnd(lines, j + 1, HeadingAt(lines, j).value.level);
            endI <= j || endJ <= endI
  {
    var levelI, levelJ := HeadingAt(lines, i).value.level, HeadingAt(lines, j).value.level;
    EndsAt(lines, j, levelI);
    hide Ends, ExtentEnd, HeadingAt, IsHead;
    ExtentIsFirst(lines, i + 1, levelI);
    if ExtentEnd(lines, i + 1, levelI) > j { ShorterWithin(lines, i, j, levelI, levelJ); }
  }

  /** The sections are those of the headings. */
  lemma SectionsAreHeads(lines: seq<string>, base: int)
    ensures var hs, ss := Heads(lines, |lines|), SectionsOf(lines, base);
            |ss| == |hs| && forall k | 0 <= k < |hs| ::
              IsHead(lines, hs[k]) && ss[k] == SectionAt(lines, base, hs[k]) && ss[k].line == base + hs[k]
  {
    HeadsAreAll(lines, |lines|);
    hide IsHead, HeadingAt, ExtentEnd, BodyText, Heads;
  }

  /** Sections come in order of strictly increasing line numbers. */
  lemma SectionLinesIncrease(lines: seq<string>, base: int)
    ensures var ss := SectionsOf(lines, base);
            forall j, k | 0 <= j < k < |ss| :: ss[j].line < ss[k].line
  {
    hide SectionAt, SectionsOf, Heads;
    HeadsAreAll(lines, |lines|);
    SectionsAreHeads(lines, base);
  }

  /** Every unfenced heading has a section on its line, and every section stands for one. */
  lemma SectionForEachHeading(lines: seq<string>, base: int, i: nat)
    requires i < |lines|
    ensures var ss := SectionsOf(lines, base);
            IsHead(lines, i) <==> exists k | 0 <= k < |ss| :: ss[k].line == base + i
  {
    hide IsHead, SectionAt, SectionsOf, Heads;
    HeadsAreAll(lines, |lines|);
    SectionsAreHeads(lines, base);
    var hs, ss := Heads(lines, |lines|), SectionsOf(lines, base);
    if IsHead(lines, i) {
      var k :| 0 <= k < |hs| && hs[k] == i;
      assert ss[k].line == base + i;
    } else {
      forall k | 0 <= k < |ss| ensures ss[k].line != base + i { assert IsHead(lines, hs[k]) && ss[k].line == base + hs[k]; }
    }
  }

  lemma {:induction false} ChecklistInOrder(lines: seq<string>, base: int, n: nat)
    requires n <= |lines|
    ensures var items := ChecklistItems(lines, base, n);
            && (forall j, k | 0 <= j < k < |items| :: items[j].line < items[k].line)
            && (forall k | 0 <= k < |items| :: base <= items[k].line < base + n)
  {
    hide ChecklistAt;
    if n > 0 {
      ChecklistInOrder(lines, base, n - 1);
      OneItem(lines, base, n - 1);
      assert ChecklistItems(lines, base, n) == ChecklistItems(lines, base, n - 1) + ChecklistAt(lines, base, n - 1);
    }
  }

  lemma OneItem(lines: seq<string>, base: int, i: nat)
    requires i < |lines|
    ensures |ChecklistAt(lines, base, i)| <= 1 && forall item | item in ChecklistAt(lines, base, i) :: item.line == base + i
  {
    hide ChecklistOf, HeadingAt, Plain;
  }

  /** Lines of the body are counted from the first line of the file: line `bodyStart + i` of the
      file, counted from one, is line i of the body. */
  lemma LinesAreFileAbsolute(text: string)
    ensures var file, parts := Split(Normalize(text)), PartsOf(text);
            var lines := Split(parts.body);
            if parts.bodyStart > |file| then lines == [""] else lines == file[parts.bodyStart - 1..]
  {
    var file, parts := Split(Normalize(text)), PartsOf(text);
    SplitIsLines(Normalize(text));
    if parts.block.Some? && parts.bodyStart <= |file| {
      SplitJoin(file[parts.bodyStart - 1..]);
    }
  }
}
