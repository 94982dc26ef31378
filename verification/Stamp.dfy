/** Stamping a verification result into a spec's frontmatter (`Stamp` in internal/specs/verify.go),
    and its agreement with the reader of Specs. */
module Stamp {
  import opened Options
  import opened Specs
  import opened Text

  // ---------------------------------------------------------------- the lines that are written

  const VERIFIED := "last_verified"
  const ALIGNMENT := "alignment"

  function KeyValue(key: string, value: string): string { key + (": " + value) }

  /** A line that holds the given key, at any indentation. */
  predicate KeyLine(line: string, key: string) {
    TrimSpace(line) == key + ":" || HasPrefix(TrimSpace(line), key + ": ")
  }

  /** White space, the key and a colon, and then nothing but white space or a space first. */
  lemma KeyLineExact(line: string, key: string)
    requires Key(key)
    ensures KeyLine(line, key) <==> exists i | 0 <= i < |line| :: KeyFrom(line, key, i)
  {
    hide IsSpace, TrimLeft, TrimRight;
    if KeyLine(line, key) {
      var i := |line| - |TrimLeft(line, IsSpace)|;
      TrimLeftCuts(line, IsSpace);
      KeyFound(line, key, i);
    }
    if exists i | 0 <= i < |line| :: KeyFrom(line, key, i) {
      var i :| 0 <= i < |line| && KeyFrom(line, key, i);
      KeyHolds(line, key, i);
    }
  }

  ghost predicate KeyFrom(line: string, key: string, i: nat) {
    && i + |key| < |line| && line[i..i + |key|] == key && line[i + |key|] == ':'
    && (forall k | 0 <= k < i :: IsSpace(line[k]))
    && ((forall k | i + |key| < k < |line| :: IsSpace(line[k])) || line[i + |key| + 1] == ' ')
  }

  lemma KeyPrefix(t: string, key: string)
    requires t == key + ":" || key + ": " <= t
    ensures var n := |key|; |t| > n && t[..n] == key && t[n] == ':' && (|t| > n + 1 ==> t[n + 1] == ' ')
  {
    if t != key + ":" {
      assert t[..|key| + 2] == key + ": ";
      assert t[..|key|] == t[..|key| + 2][..|key|];
      assert forall k | 0 <= k < |key| + 2 :: t[k] == (key + ": ")[k];
    }
  }

  lemma KeyFound(line: string, key: string, i: nat)
    requires KeyLine(line, key)
    requires i <= |line| && TrimLeft(line, IsSpace) == line[i..] && forall k | 0 <= k < i :: IsSpace(line[k])
    ensures i < |line| && KeyFrom(line, key, i)
  {
    hide IsSpace, TrimLeft, TrimRight, KeyFrom;
    var t := TrimRight(line[i..], IsSpace);
    TrimRightCuts(line[i..], IsSpace);
    assert TrimSpace(line) == t;
    KeyPrefix(t, key);
    KeyInside(line, key, i, t);
  }

  lemma KeyInside(line: string, key: string, i: nat, t: string)
    requires i <= |line| && |key| < |t| && t <= line[i..] && t[..|key|] == key && t[|key|] == ':'
    requires |t| > |key| + 1 ==> t[|key| + 1] == ' '
    requires forall k | |t| <= k < |line[i..]| :: IsSpace(line[i..][k])
    requires forall k | 0 <= k < i :: IsSpace(line[k])
    ensures i < |line| && KeyFrom(line, key, i)
  {
    hide IsSpace;
    var left := line[i..];
    assert forall k | i <= k < |line| :: line[k] == left[k - i];
    assert line[i..i + |key|] == t[..|key|];
    assert line[i + |key|] == t[|key|];
  }

  lemma KeyHolds(line: string, key: string, i: nat)
    requires Key(key) && i < |line| && KeyFrom(line, key, i)
    ensures KeyLine(line, key)
  {
    hide IsSpace, TrimLeft, TrimRight;
    var n := |key|;
    assert line[i] == line[i..i + n][0] == key[0];
    TrimLeftIs(line, i, IsSpace);
    var left := line[i..];
    var t := TrimRight(left, IsSpace);
    TrimRightCuts(left, IsSpace);
    assert left[..n] == key && left[n] == ':' && !IsSpace(':') by { ColonIsNoSpace(); }
    assert forall k | n < k < |left| :: left[k] == line[i + k];
    assert |t| > n && t[..n] == key && t[n] == ':';
    if |t| == n + 1 {
      assert t == key + ":";
    } else {
      assert left[|t| - 1] == t[|t| - 1];
      assert t[n + 1] == left[n + 1] == ' ';
      assert t[..n + 2] == key + ": ";
    }
  }

  lemma ColonIsNoSpace()
    ensures !IsSpace(':')
  {
  }

  function KeyIndex(lines: seq<string>, key: string): (i: nat)
    ensures i <= |lines| && (i < |lines| ==> KeyLine(lines[i], key))
    ensures forall k | 0 <= k < i :: !KeyLine(lines[k], key)
  {
    hide KeyLine;
    if lines == [] || KeyLine(lines[0], key) then 0 else 1 + KeyIndex(lines[1..], key)
  }

  /** The first line with the key is replaced; without one a line is added at the end. */
  function Upsert(lines: seq<string>, key: string, value: string): seq<string> {
    var i := KeyIndex(lines, key);
    if i < |lines| then lines[i := KeyValue(key, value)] else lines + [KeyValue(key, value)]
  }

  function UpsertBoth(lines: seq<string>, verified: string, alignment: string): seq<string> {
    Upsert(Upsert(lines, VERIFIED, verified), ALIGNMENT, alignment)
  }

  function FreshBlock(verified: string, alignment: string): seq<string> {
    [FENCE, KeyValue(VERIFIED, verified), KeyValue(ALIGNMENT, alignment), FENCE]
  }

  lemma FreshBlockText(verified: string, alignment: string)
    ensures FreshBlock(verified, alignment) == ["---", "last_verified: " + verified, "alignment: " + alignment, "---"]
  {
    assert KeyValue(VERIFIED, verified) == "last_verified: " + verified;
    assert KeyValue(ALIGNMENT, alignment) == "alignment: " + alignment;
  }

  function StampedLines(lines: seq<string>, verified: string, alignment: string): seq<string>
    requires lines != []
  {
    if lines[0] != FENCE then FreshBlock(verified, alignment) + lines
    else
      var end := ClosingFence(lines, 1);
      if end == |lines| then FreshBlock(verified, alignment) + lines
      else [FENCE] + UpsertBoth(lines[1..end], verified, alignment) + lines[end..]
  }

  function Stamped(text: string, verified: string, alignment: string): string {
    Join(StampedLines(Split(Normalize(text)), verified, alignment))
  }

  // ---------------------------------------------------------------- slices

  /** A Go slice: elements lo to hi of a shared array, with room up to cap. */
  datatype Slice = Slice(arr: array<string>, lo: nat, hi: nat, cap: nat)
  {
    predicate Valid() { lo <= hi <= cap <= arr.Length }

    function Contents(): seq<string>
      requires Valid()
      reads arr
    {
      arr[lo..hi]
    }
  }

  /** `append` of one element: in place while there is room, else in a new array. */
  method Append(s: Slice, x: string, room: nat) returns (r: Slice)
    requires s.Valid()
    modifies s.arr
    ensures r.Valid() && r.Contents() == old(s.Contents()) + [x]
    ensures s.hi < s.cap ==> r == s.(hi := s.hi + 1)
    ensures s.hi == s.cap ==> fresh(r.arr)
    ensures forall k | 0 <= k < s.arr.Length && (k != s.hi || s.hi == s.cap) :: s.arr[k] == old(s.arr[k])
  {
    if s.hi < s.cap {
      s.arr[s.hi] := x;
      assert s.arr[s.lo..s.hi + 1] == s.arr[s.lo..s.hi] + [x];
      return s.(hi := s.hi + 1);
    }
    var n := s.hi - s.lo;
    var a := new string[n + 1 + room](_ => "");
    for i := 0 to n
      invariant a[..i] == s.arr[s.lo..s.lo + i] && s.arr[..] == old(s.arr[..])
    {
      a[i] := s.arr[s.lo + i];
    }
    a[n] := x;
    assert a[..n + 1] == a[..n] + [x] && a[..n] == s.arr[s.lo..s.hi];
    assert forall k | 0 <= k < s.arr.Length :: s.arr[..][k] == s.arr[k];
    r := Slice(a, 0, n + 1, n + 1 + room);
  }

  /** `upsertYAML`, which writes into the array it is given when it finds the key. A slice whose
      capacity ends with it leaves the rest of its array alone. */
  method UpsertYAML(s: Slice, key: string, value: string, room: nat) returns (r: Slice)
    requires s.Valid()
    modifies s.arr
    ensures r.Valid() && r.Contents() == Upsert(old(s.Contents()), key, value)
    ensures r == s || fresh(r.arr) || s.hi < s.cap
    ensures s.hi == s.cap ==>
              forall k | 0 <= k < s.arr.Length && !(s.lo <= k < s.hi) :: s.arr[k] == old(s.arr[k])
  {
    hide KeyLine;
    ghost var lines := s.Contents();
    var i := s.lo;
    while i < s.hi
      invariant s.lo <= i <= s.hi && s.Contents() == lines && s.arr[..] == old(s.arr[..])
      invariant forall k | 0 <= k < i - s.lo :: !KeyLine(lines[k], key)
    {
      if KeyLine(s.arr[i], key) {
        assert lines[i - s.lo] == s.arr[i] && KeyIndex(lines, key) == i - s.lo;
        s.arr[i] := KeyValue(key, value);
        assert s.Contents() == lines[i - s.lo := KeyValue(key, value)];
        return s;
      }
      i := i + 1;
    }
    assert KeyIndex(lines, key) == |lines|;
    r := Append(s, KeyValue(key, value), room);
  }

  /** The score in hundredths, clamped and rounded half up. */
  function Hundredths(score: real): (h: nat)
    ensures h <= 100
  {
    ((if score < 0.0 then 0.0 else if score > 1.0 then 1.0 else score) * 100.0 + 0.5).Floor
  }

  /** The score with two decimals. */
  function AlignmentText(score: real): string {
    var h := Hundredths(score);
    Decimal(h / 100) + "." + [DigitChar(h / 10 % 10), DigitChar(h % 10)]
  }

  /** Three digits, two of them behind the point, that give the clamped score to the nearest hundredth,
      halves rounded up. */
  lemma AlignmentExact(score: real)
    ensures var t := AlignmentText(score);
            && |t| == 4 && t[1] == '.' && IsDigit(t[0]) && IsDigit(t[2]) && IsDigit(t[3])
            && var value := 100 * DigitValue(t[0]) + 10 * DigitValue(t[2]) + DigitValue(t[3]);
               && (score <= 0.0 ==> value == 0) && (score >= 1.0 ==> value == 100)
               && (0.0 <= score <= 1.0 ==> -0.5 < value as real - score * 100.0 <= 0.5)
  {
    var h, t := Hundredths(score), AlignmentText(score);
    assert h / 100 < 10 && |Decimal(h / 100)| == 1;
    assert t == [DigitChar(h / 100), '.', DigitChar(h / 10 % 10), DigitChar(h % 10)];
    assert h == 100 * (h / 100) + 10 * (h / 10 % 10) + h % 10;
  }

  method StampFile(content: string, lastVerified: string, score: real, room: nat) returns (stamped: string)
    ensures stamped == Stamped(content, lastVerified, AlignmentText(score))
  {
    hide KeyLine, KeyIndex, Upsert, Closes, Normalize, AlignmentText, KeyValue;
    var align := AlignmentText(score);
    var text := Split(Normalize(content));
    var lines := new string[|text|](i requires 0 <= i < |text| => text[i]);
    assert lines[..] == text;
    if lines[0] != FENCE { return Join(FreshBlock(lastVerified, align) + lines[..]); }
    var end := 1;
    while end < lines.Length && !Closes(lines[end])
      invariant 1 <= end <= lines.Length && ClosingFence(text, 1) == ClosingFence(text, end)
    {
      end := end + 1;
    }
    if end == lines.Length { return Join(FreshBlock(lastVerified, align) + lines[..]); }
    var fmLines := Slice(lines, 1, end, end);
    assert fmLines.Contents() == text[1..end];
    var once := UpsertYAML(fmLines, VERIFIED, lastVerified, room);
    assert once == fmLines || fresh(once.arr);
    var twice := UpsertYAML(once, ALIGNMENT, align, room);
    assert lines[end..] == text[end..];
    stamped := Join([FENCE] + twice.arr[twice.lo..twice.hi] + lines[end..]);
  }

  // ---------------------------------------------------------------- upserting

  ghost predicate Key(key: string) { key != "" && !IsSpace(key[0]) }

  lemma {:induction false} TrimRightKeeps(s: string, cut: char -> bool, k: nat)
    requires k < |s| && !cut(s[k])
    ensures |TrimRight(s, cut)| > k
  {
    if cut(s[|s| - 1]) { TrimRightKeeps(s[..|s| - 1], cut, k); }
  }

  lemma KeyValueHasKey(key: string, value: string)
    requires Key(key)
    ensures KeyLine(KeyValue(key, value), key) && TrimSpace(KeyValue(key, value)) <= KeyValue(key, value)
  {
    var line := KeyValue(key, value);
    assert TrimLeft(line, IsSpace) == line;
    assert line[|key|] == ':' && !IsSpace(':');
    TrimRightKeeps(line, IsSpace, |key|);
    var t := TrimSpace(line);
    assert line == key + ":" + (" " + value);
    if |t| == |key| + 1 {
      assert t == key + ":";
    } else {
      assert line == key + ": " + value;
      assert key + ": " <= t;
    }
  }

  /** A line holds at most one of the two keys. */
  lemma OneKey(line: string)
    ensures !(KeyLine(line, VERIFIED) && KeyLine(line, ALIGNMENT))
  {
    var t := TrimSpace(line);
    if KeyLine(line, VERIFIED) { assert t[0] == 'l'; }
  }

  lemma UpsertSets(lines: seq<string>, key: string, value: string)
    requires Key(key)
    ensures var u := Upsert(lines, key, value);
            var i := KeyIndex(lines, key);
            KeyIndex(u, key) == i && i < |u| && u[i] == KeyValue(key, value)
  {
    hide KeyLine, KeyValue;
    KeyValueHasKey(key, value);
    var u, i := Upsert(lines, key, value), KeyIndex(lines, key);
    assert u[i] == KeyValue(key, value);
    assert forall k | 0 <= k < i :: u[k] == lines[k];
  }

  /** Setting the alignment leaves the verification date where it is. */
  lemma UpsertKeeps(lines: seq<string>, value: string)
    requires KeyIndex(lines, VERIFIED) < |lines|
    ensures var u, i := Upsert(lines, ALIGNMENT, value), KeyIndex(lines, VERIFIED);
            KeyIndex(u, VERIFIED) == i < |u| && u[i] == lines[i]
  {
    hide KeyLine, KeyValue;
    var u, i, j := Upsert(lines, ALIGNMENT, value), KeyIndex(lines, VERIFIED), KeyIndex(lines, ALIGNMENT);
    KeyValueHasKey(ALIGNMENT, value);
    OneKey(KeyValue(ALIGNMENT, value));
    OneKey(lines[i]);
    assert forall k | 0 <= k <= i && k != j :: u[k] == lines[k];
    assert j < |lines| ==> u[j] == KeyValue(ALIGNMENT, value);
  }

  lemma UpsertSame(lines: seq<string>, key: string, value: string)
    requires KeyIndex(lines, key) < |lines| && lines[KeyIndex(lines, key)] == KeyValue(key, value)
    ensures Upsert(lines, key, value) == lines
  {
    hide KeyIndex, KeyValue;
  }

  /** Doing it twice is doing it once. */
  lemma UpsertTwice(lines: seq<string>, verified: string, alignment: string)
    ensures var u := UpsertBoth(lines, verified, alignment); UpsertBoth(u, verified, alignment) == u
  {
    hide KeyIndex, KeyValue, Upsert, KeyLine;
    var v := Upsert(lines, VERIFIED, verified);
    var u := Upsert(v, ALIGNMENT, alignment);
    UpsertSets(lines, VERIFIED, verified);
    UpsertKeeps(v, alignment);
    UpsertSets(v, ALIGNMENT, alignment);
    UpsertSame(u, VERIFIED, verified);
    UpsertSame(u, ALIGNMENT, alignment);
  }

  /** Setting the date does not disturb the alignment either. */
  lemma KeepsAlignment(lines: seq<string>, value: string)
    ensures var w, a := Upsert(lines, VERIFIED, value), KeyIndex(lines, ALIGNMENT);
            KeyIndex(w, ALIGNMENT) == if a < |lines| then a else |w|
  {
    hide KeyLine, KeyValue;
    var w, v, a := Upsert(lines, VERIFIED, value), KeyIndex(lines, VERIFIED), KeyIndex(lines, ALIGNMENT);
    KeyValueHasKey(VERIFIED, value);
    OneKey(KeyValue(VERIFIED, value));
    if a < |lines| { OneKey(lines[a]); }
    assert forall k | 0 <= k < |lines| && k != v :: w[k] == lines[k];
    assert w[v] == KeyValue(VERIFIED, value);
  }

  /** Every frontmatter line survives in its place, except that the first line with each of the
      keys is the new one; absent keys are added at the end. */
  lemma OtherLinesSurvive(lines: seq<string>, verified: string, alignment: string)
    ensures var u := UpsertBoth(lines, verified, alignment);
            var v, a := KeyIndex(lines, VERIFIED), KeyIndex(lines, ALIGNMENT);
            && |u| == |lines| + (if v == |lines| then 1 else 0) + (if a == |lines| then 1 else 0)
            && (forall i | 0 <= i < |lines| && i != v && i != a :: u[i] == lines[i])
            && u[v] == KeyValue(VERIFIED, verified)
            && u[if a == |lines| then |u| - 1 else a] == KeyValue(ALIGNMENT, alignment)
  {
    hide KeyLine, KeyValue, KeyIndex;
    var w := Upsert(lines, VERIFIED, verified);
    UpsertSets(lines, VERIFIED, verified);
    UpsertKeeps(w, alignment);
    KeepsAlignment(lines, verified);
  }

  // ---------------------------------------------------------------- top-level keys

  predicate Indented(line: string) { line != "" && IsSpace(line[0]) }

  /** A line that holds one of the two keys at the top level. */
  predicate TopLevel(line: string) {
    !Indented(line) && (KeyLine(line, VERIFIED) || KeyLine(line, ALIGNMENT))
  }

  /** Stamping changes no line but top-level lines with the keys. */
  ghost predicate ChangesOnlyTopLevel(lines: seq<string>, verified: string, alignment: string) {
    var u := UpsertBoth(lines, verified, alignment);
    |u| >= |lines| && forall i | 0 <= i < |lines| && u[i] != lines[i] :: TopLevel(lines[i])
  }

  /** The first line with the key, the one that is replaced, is absent or not indented. */
  predicate FirstAtTop(lines: seq<string>, key: string) {
    var i := KeyIndex(lines, key);
    i < |lines| ==> !Indented(lines[i])
  }

  lemma KeyValueNotIndented(key: string, value: string)
    requires Key(key)
    ensures !Indented(KeyValue(key, value))
  {
    assert KeyValue(key, value)[0] == key[0];
  }

  /** Matching a key ignores indentation, so stamping leaves nested fields alone exactly when for
      each key the first line that holds it is absent or at the top level. */
  lemma TopLevelExact(lines: seq<string>, verified: string, alignment: string)
    ensures ChangesOnlyTopLevel(lines, verified, alignment) <==> FirstAtTop(lines, VERIFIED) && FirstAtTop(lines, ALIGNMENT)
  {
    OtherLinesSurvive(lines, verified, alignment);
    KeyValueNotIndented(VERIFIED, verified);
    KeyValueNotIndented(ALIGNMENT, alignment);
    hide UpsertBoth, KeyLine, KeyValue, Indented;
    var u := UpsertBoth(lines, verified, alignment);
    var v, a := KeyIndex(lines, VERIFIED), KeyIndex(lines, ALIGNMENT);
    if FirstAtTop(lines, VERIFIED) && FirstAtTop(lines, ALIGNMENT) {
      forall i | 0 <= i < |lines| && u[i] != lines[i] ensures TopLevel(lines[i]) { assert i == v || i == a; }
    } else if !FirstAtTop(lines, VERIFIED) {
      assert u[v] != lines[v] && !TopLevel(lines[v]);
    } else {
      assert u[a] != lines[a] && !TopLevel(lines[a]);
    }
  }

  /** A field of a nested block is replaced by a top-level line. */
  lemma NestedFieldExample()
    ensures Upsert(["code:", "  alignment: left"], ALIGNMENT, "0.90") == ["code:", "alignment: 0.90"]
    ensures !FirstAtTop(["code:", "  alignment: left"], ALIGNMENT)
  {
    var lines := ["code:", "  alignment: left"];
    NestedFieldIsKeyLine();
    OtherFieldIsNot();
    hide KeyLine;
    assert KeyIndex(lines, ALIGNMENT) == 1 by { assert lines[0] == "code:" && lines[1] == "  alignment: left"; }
    assert KeyValue(ALIGNMENT, "0.90") == "alignment: 0.90";
  }

  lemma LeadingBlank(s: string)
    ensures TrimSpace(" " + s) == TrimSpace(s)
  {
    assert (" " + s)[1..] == s;
    assert TrimLeft(" " + s, IsSpace) == TrimLeft(s, IsSpace);
  }

  lemma NothingToTrim(s: string)
    requires s != "" && !IsSpace(s[0]) && !IsSpace(s[|s| - 1])
    ensures TrimSpace(s) == s
  {
  }

  lemma LettersAreNoSpace()
    ensures !IsSpace('a') && !IsSpace('t')
  {
  }

  lemma NestedFieldIsKeyLine()
    ensures KeyLine("  alignment: left", ALIGNMENT)
  {
    hide TrimSpace, IsSpace;
    var key := ALIGNMENT + ": ";
    var t := key + "left";
    LettersAreNoSpace();
    assert t[0] == 'a' && t[|t| - 1] == 't';
    NestedField(t);
    NothingToTrim(t);
    assert " " + (" " + t) == "  alignment: left";
  }

  lemma NestedField(t: string)
    ensures TrimSpace(" " + (" " + t)) == TrimSpace(t)
  {
    hide TrimSpace;
    LeadingBlank(t);
    LeadingBlank(" " + t);
  }

  lemma OtherFieldIsNot()
    ensures !KeyLine("code:", ALIGNMENT)
  {
    var line := "code:";
    assert TrimLeft(line, IsSpace) == line;
    assert TrimSpace(line) <= line;
    assert ALIGNMENT[0] == 'a' && line[0] == 'c';
  }
}
