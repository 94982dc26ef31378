/** Issue search (`likeEscape`, `searchTerms` and the query filter in internal/storage/issues.go). */
module Search {
  import opened Text

  // ---------------------------------------------------------------- SQLite's LIKE

  /** Letters A to Z stand for their lower-case forms, and nothing else is folded. */
  function Fold(c: char): char {
    if 'A' <= c <= 'Z' then c - 'A' + 'a' else c
  }

  /** `text LIKE pattern ESCAPE '\'`: % stands for any text, _ for one character, and a character
      after the escape for itself. */
  predicate Like(pattern: string, text: string)
    decreases |pattern|, |text|
  {
    if pattern == "" then text == ""
    else if pattern[0] == '%' then Like(pattern[1..], text) || (text != "" && Like(pattern, text[1..]))
    else if pattern[0] == '_' then text != "" && Like(pattern[1..], text[1..])
    else if pattern[0] == '\\' then
      |pattern| >= 2 && text != "" && Fold(pattern[1]) == Fold(text[0]) && Like(pattern[2..], text[1..])
    else text != "" && Fold(pattern[0]) == Fold(text[0]) && Like(pattern[1..], text[1..])
  }

  function EscapedChar(c: char): string {
    if c == '\\' || c == '%' || c == '_' then ['\\', c] else [c]
  }

  function LikeEscape(s: string): string {
    if s == "" then "" else EscapedChar(s[0]) + LikeEscape(s[1..])
  }

  function Pattern(term: string): string { "%" + (LikeEscape(term) + "%") }

  // ---------------------------------------------------------------- literal occurrence

  /** The same character, or the two cases of one ASCII letter. */
  ghost predicate SameLetter(a: char, b: char) {
    || a == b
    || ('a' <= a <= 'z' && b as int == a as int - 'a' as int + 'A' as int)
    || ('A' <= a <= 'Z' && b as int == a as int - 'A' as int + 'a' as int)
  }

  /** What folding identifies. */
  lemma FoldExact(a: char, b: char)
    ensures Fold(a) == Fold(b) <==> SameLetter(a, b)
  {
  }

  /** The term stands in the text at position k, up to the case of ASCII letters. */
  ghost predicate OccursAt(term: string, text: string, k: nat) {
    k + |term| <= |text| && forall i | 0 <= i < |term| :: SameLetter(term[i], text[k + i])
  }

  ghost predicate Occurs(term: string, text: string) {
    exists k | 0 <= k <= |text| :: OccursAt(term, text, k)
  }

  lemma {:induction false} AnyTail(text: string)
    ensures Like("%", text)
  {
    assert "%"[1..] == "";
    if text != "" { AnyTail(text[1..]); }
  }

  /** After an escaped term, anything may follow. */
  lemma {:induction false} EscapedMatchesPrefix(term: string, text: string)
    ensures Like(LikeEscape(term) + "%", text) <==> OccursAt(term, text, 0)
  {
    if term == "" {
      assert LikeEscape(term) + "%" == "%";
      AnyTail(text);
    } else {
      var c, rest := term[0], term[1..];
      var p := LikeEscape(term) + "%";
      var n := |EscapedChar(c)|;
      assert p == EscapedChar(c) + (LikeEscape(rest) + "%");
      assert p[n..] == LikeEscape(rest) + "%" && p[0] == EscapedChar(c)[0] && p[n - 1] == c;
      if text != "" {
        EscapedMatchesPrefix(rest, text[1..]);
        FoldExact(c, text[0]);
        OccursCons(term, text);
      }
    }
  }

  lemma OccursCons(term: string, text: string)
    requires term != "" && text != ""
    ensures OccursAt(term, text, 0) <==> SameLetter(term[0], text[0]) && OccursAt(term[1..], text[1..], 0)
  {
    hide SameLetter;
    if SameLetter(term[0], text[0]) && OccursAt(term[1..], text[1..], 0) {
      forall i | 0 <= i < |term| ensures SameLetter(term[i], text[i]) {
        if i > 0 { assert term[1..][i - 1] == term[i] && text[1..][i - 1] == text[i]; }
      }
    }
  }

  lemma OccursTail(term: string, text: string, k: nat)
    requires text != ""
    ensures OccursAt(term, text, k + 1) <==> OccursAt(term, text[1..], k)
  {
    if OccursAt(term, text[1..], k) {
      forall i | 0 <= i < |term| ensures SameLetter(term[i], text[k + 1 + i]) {
        assert text[1..][k + i] == text[k + 1 + i];
      }
    }
    if OccursAt(term, text, k + 1) {
      forall i | 0 <= i < |term| ensures SameLetter(term[i], text[1..][k + i]) {
        assert text[1..][k + i] == text[k + 1 + i];
      }
    }
  }

  lemma OccursSplit(term: string, text: string)
    ensures Occurs(term, text) <==> OccursAt(term, text, 0) || (text != "" && Occurs(term, text[1..]))
  {
    hide OccursAt;
    if text != "" {
      if Occurs(term, text) && !OccursAt(term, text, 0) {
        var k :| 0 <= k <= |text| && OccursAt(term, text, k);
        OccursTail(term, text, k - 1);
      }
      if Occurs(term, text[1..]) {
        var k :| 0 <= k <= |text[1..]| && OccursAt(term, text[1..], k);
        OccursTail(term, text, k);
      }
    }
  }

  /** For every text and term the pattern matches exactly where the term occurs literally. */
  lemma {:induction false} PatternFindsTerm(term: string, text: string)
    ensures Like(Pattern(term), text) <==> Occurs(term, text)
    decreases |text|
  {
    hide Occurs, OccursAt;
    var rest := LikeEscape(term) + "%";
    assert Pattern(term)[1..] == rest && Pattern(term)[0] == '%';
    EscapedMatchesPrefix(term, text);
    OccursSplit(term, text);
    if text != "" { PatternFindsTerm(term, text[1..]); }
  }

  /** Without escaping this fails: the term "50%" would match a text that lacks the sign. */
  lemma EscapingMatters()
    ensures Like("%" + ("50%" + "%"), "501") && !Occurs("50%", "501") && !Like(Pattern("50%"), "501")
  {
    var p := "%" + ("50%" + "%");
    assert p == "%50%%" && p[1..] == "50%%" && "50%%"[1..] == "0%%" && "0%%"[1..] == "%%" && "%%"[1..] == "%";
    AnyTail("1");
    assert "501"[1..] == "01" && "01"[1..] == "1";
    PatternFindsTerm("50%", "501");
    forall k | 0 <= k <= 3 ensures !OccursAt("50%", "501", k) {
      if k == 0 { assert "50%"[2] == '%' && "501"[0 + 2] == '1'; }
    }
  }

  // ---------------------------------------------------------------- words

  function WordLength(s: string): (n: nat)
    ensures n <= |s| && (forall i | 0 <= i < n :: !IsSpace(s[i])) && (n < |s| ==> IsSpace(s[n]))
  {
    hide IsSpace;
    if s != "" && !IsSpace(s[0]) then 1 + WordLength(s[1..]) else 0
  }

  /** `strings.Fields`. */
  function Fields(s: string): seq<string>
    decreases |s|
  {
    if s == "" then []
    else if IsSpace(s[0]) then Fields(s[1..])
    else [s[..WordLength(s)]] + Fields(s[WordLength(s)..])
  }

  /** s[i..j] is a word: no space inside it, and none of it left out on either side. */
  predicate WordAt(s: string, i: nat, j: nat) {
    i < j <= |s| && (forall k | i <= k < j :: !IsSpace(s[k])) &&
    (i > 0 ==> IsSpace(s[i - 1])) && (j < |s| ==> IsSpace(s[j]))
  }

  /** Where the words of a text begin that are not its first. */
  function Skip(s: string): (n: nat)
    requires s != ""
    ensures 0 < n <= |s| && (IsSpace(s[n - 1]) || (n < |s| ==> IsSpace(s[n])))
  {
    if IsSpace(s[0]) then 1 else WordLength(s)
  }

  lemma FirstWord(s: string)
    requires s != "" && !IsSpace(s[0])
    ensures WordAt(s, 0, Skip(s)) && s[0..Skip(s)] == s[..Skip(s)]
  {
    hide IsSpace;
  }

  lemma WordInFront(s: string, i: nat, j: nat)
    requires s != "" && WordAt(s, i, j) && i < Skip(s)
    ensures i == 0 && j == Skip(s) && !IsSpace(s[0])
  {
    hide IsSpace;
    assert !IsSpace(s[i]);
  }

  /** The positions of the words, counted from `off`. */
  function Spans(s: string, off: nat): seq<(nat, nat)>
    decreases |s|
  {
    if s == "" then []
    else if IsSpace(s[0]) then Spans(s[1..], off + 1)
    else [(off, off + Skip(s))] + Spans(s[Skip(s)..], off + Skip(s))
  }

  ghost predicate InOrder(spans: seq<(nat, nat)>) {
    && (forall k | 0 <= k < |spans| :: spans[k].0 < spans[k].1)
    && forall k | 0 <= k < |spans| - 1 :: spans[k].1 <= spans[k + 1].0
  }

  /** The k-th field is the text at the k-th of the given positions, shifted by `off`. */
  ghost predicate FieldsAt(s: string, off: nat, fields: seq<string>, spans: seq<(nat, nat)>) {
    && |fields| == |spans|
    && forall k | 0 <= k < |fields| ::
         off <= spans[k].0 < spans[k].1 <= off + |s| && fields[k] == s[spans[k].0 - off..spans[k].1 - off]
  }

  lemma FieldsAtTail(s: string, off: nat, n: nat, fields: seq<string>, spans: seq<(nat, nat)>)
    requires n <= |s| && FieldsAt(s[n..], off + n, fields, spans)
    ensures FieldsAt(s, off, fields, spans)
  {
    forall k | 0 <= k < |fields|
      ensures off <= spans[k].0 < spans[k].1 <= off + |s| && fields[k] == s[spans[k].0 - off..spans[k].1 - off]
    {
      assert s[n..][spans[k].0 - off - n..spans[k].1 - off - n] == s[spans[k].0 - off..spans[k].1 - off];
    }
  }

  lemma {:induction false} SpansOfFields(s: string, off: nat)
    ensures FieldsAt(s, off, Fields(s), Spans(s, off)) && InOrder(Spans(s, off))
    decreases |s|
  {
    hide IsSpace;
    if s != "" {
      var n := Skip(s);
      SpansOfFields(s[n..], off + n);
      var fields, spans := Fields(s[n..]), Spans(s[n..], off + n);
      FieldsAtTail(s, off, n, fields, spans);
      if !IsSpace(s[0]) {
        hide Fields, Spans;
        FirstSpan(s, off, n, fields, spans);
        assert Fields(s) == [s[..n]] + fields && Spans(s, off) == [(off, off + n)] + spans by { Unfolded(s, off); }
      }
    }
  }

  lemma FirstSpan(s: string, off: nat, n: nat, fields: seq<string>, spans: seq<(nat, nat)>)
    requires 0 < n <= |s| && FieldsAt(s, off, fields, spans) && InOrder(spans)
    requires forall k | 0 <= k < |spans| :: spans[k].0 >= off + n
    ensures FieldsAt(s, off, [s[..n]] + fields, [(off, off + n)] + spans) && InOrder([(off, off + n)] + spans)
  {
    assert s[0..n] == s[..n];
  }

  lemma Unfolded(s: string, off: nat)
    requires s != "" && !IsSpace(s[0])
    ensures Fields(s) == [s[..Skip(s)]] + Fields(s[Skip(s)..])
    ensures Spans(s, off) == [(off, off + Skip(s))] + Spans(s[Skip(s)..], off + Skip(s))
  {
    hide IsSpace;
  }

  /** The positions are exactly those of the words. */
  lemma {:induction false} SpansAreWords(s: string, off: nat, i: nat, j: nat)
    ensures (off + i, off + j) in Spans(s, off) <==> WordAt(s, i, j)
    decreases |s|
  {
    hide IsSpace, WordAt, Skip;
    if s == "" {
      assert !WordAt(s, i, j) by { NoWordInNothing(i, j); }
    } else {
      var n := Skip(s);
      SkipCases(s, off);
      if i >= n && j >= n {
        SpansAreWords(s[n..], off + n, i - n, j - n);
        WordBehind(s, n, i, j);
        assert (off + n) + (i - n) == off + i && (off + n) + (j - n) == off + j;
        if !IsSpace(s[0]) { assert (off + i, off + j) != (off, off + n); }
      } else {
        NoSpanBefore(s[n..], off + n, off + i, off + j);
        if WordAt(s, i, j) && i < n { WordInFront(s, i, j); }
        if !IsSpace(s[0]) { FirstWord(s); }
        WordForwards(s, i, j);
      }
    }
  }

  lemma NoWordInNothing(i: nat, j: nat)
    ensures !WordAt("", i, j)
  {
  }

  lemma WordForwards(s: string, i: nat, j: nat)
    ensures WordAt(s, i, j) ==> i < j
  {
  }

  lemma SkipCases(s: string, off: nat)
    requires s != ""
    ensures Spans(s, off) == if IsSpace(s[0]) then Spans(s[Skip(s)..], off + Skip(s))
                             else [(off, off + Skip(s))] + Spans(s[Skip(s)..], off + Skip(s))
  {
    hide IsSpace;
  }

  lemma WordBehind(s: string, n: nat, i: nat, j: nat)
    requires s != "" && n == Skip(s) && n <= i && n <= j
    ensures WordAt(s, i, j) <==> WordAt(s[n..], i - n, j - n)
  {
    hide IsSpace;
    if j <= |s| && i <= j { WordInTail(s, n, i - n, j - n); }
  }

  lemma NoSpanBefore(s: string, off: nat, a: nat, b: nat)
    requires a < off || b < off
    ensures (a, b) !in Spans(s, off)
  {
    SpansOfFields(s, off);
    hide Spans, Fields;
  }

  lemma FieldsFromStart(s: string, fields: seq<string>, spans: seq<(nat, nat)>)
    requires FieldsAt(s, 0, fields, spans)
    ensures |fields| == |spans|
    ensures forall k | 0 <= k < |spans| :: spans[k].0 <= spans[k].1 <= |s| && fields[k] == s[spans[k].0..spans[k].1]
  {
  }

  /** The fields are the words of the text, each as often as it stands there and in its order. */
  lemma FieldsAreWords(s: string)
    ensures var spans := Spans(s, 0);
            && |Fields(s)| == |spans| && InOrder(spans)
            && (forall i: nat, j: nat :: (i, j) in spans <==> WordAt(s, i, j))
            && (forall k | 0 <= k < |spans| ::
                  spans[k].0 <= spans[k].1 <= |s| && Fields(s)[k] == s[spans[k].0..spans[k].1])
  {
    hide Spans, Fields, WordAt, FieldsAt, InOrder;
    SpansOfFields(s, 0);
    FieldsFromStart(s, Fields(s), Spans(s, 0));
    forall i: nat, j: nat ensures (i, j) in Spans(s, 0) <==> WordAt(s, i, j) {
      SpansAreWords(s, 0, i, j);
      assert (0 + i, 0 + j) == (i, j);
    }
  }

  /** Cutting the text at a space, or behind one, keeps the later words. */
  lemma WordInTail(s: string, n: nat, i: nat, j: nat)
    requires 0 < n <= |s| && (IsSpace(s[n - 1]) || (n < |s| ==> IsSpace(s[n]))) && i <= j <= |s| - n
    ensures WordAt(s[n..], i, j) <==> WordAt(s, n + i, n + j)
    ensures s[n..][i..j] == s[n + i..n + j]
  {
    hide IsSpace;
    var t := s[n..];
    assert forall k | 0 <= k < |t| :: t[k] == s[n + k];
    assert forall k | n <= k < |s| :: s[k] == t[k - n];
  }

  // ---------------------------------------------------------------- queries

  const MAX_SEARCH_TERMS := 8

  function SearchTerms(query: string): seq<string> {
    var terms := Fields(query);
    if |terms| > MAX_SEARCH_TERMS then terms[..MAX_SEARCH_TERMS] else terms
  }

  /** Each of the first eight words of the query occurs in the title or the body. */
  ghost predicate Matches(query: string, title: string, body: string) {
    forall k | 0 <= k < |Fields(query)| && k < 8 :: Occurs(Fields(query)[k], title) || Occurs(Fields(query)[k], body)
  }

  /** The clauses that the filter adds to the query, evaluated on one issue: one for each term. */
  method MatchesFilter(query: string, title: string, body: string) returns (matches: bool)
    ensures matches <==> Matches(query, title, body)
  {
    hide Occurs, Fields;
    var terms := SearchTerms(query);
    matches := true;
    var i := 0;
    while i < |terms|
      invariant 0 <= i <= |terms|
      invariant matches <==> forall k | 0 <= k < i :: Occurs(terms[k], title) || Occurs(terms[k], body)
    {
      PatternFindsTerm(terms[i], title);
      PatternFindsTerm(terms[i], body);
      matches := matches && (Like(Pattern(terms[i]), title) || Like(Pattern(terms[i]), body));
      i := i + 1;
    }
  }

  // ---------------------------------------------------------------- case plays no part

  /** The texts differ at most in the case of ASCII letters. */
  ghost predicate SameUpToCase(s: string, t: string) {
    |s| == |t| && forall i | 0 <= i < |s| :: SameLetter(s[i], t[i])
  }

  lemma SameLetterFacts(a: char, b: char, c: char)
    ensures SameLetter(a, b) ==> SameLetter(b, a) && (IsSpace(a) <==> IsSpace(b))
    ensures SameLetter(a, b) && SameLetter(b, c) ==> SameLetter(a, c)
  {
  }

  lemma SameBothWays(s: string, t: string)
    requires SameUpToCase(s, t)
    ensures SameUpToCase(t, s)
  {
    hide SameLetter;
    forall i | 0 <= i < |t| ensures SameLetter(t[i], s[i]) { SameLetterFacts(s[i], t[i], s[i]); }
  }

  lemma {:induction false} SameWordLength(s: string, t: string)
    requires SameUpToCase(s, t)
    ensures WordLength(s) == WordLength(t)
  {
    hide SameLetter, IsSpace;
    if s != "" {
      SameLetterFacts(s[0], t[0], s[0]);
      if !IsSpace(s[0]) { SameWordLength(s[1..], t[1..]); }
    }
  }

  lemma {:induction false} SameFields(s: string, t: string)
    requires SameUpToCase(s, t)
    ensures |Fields(s)| == |Fields(t)| && forall k | 0 <= k < |Fields(s)| :: SameUpToCase(Fields(s)[k], Fields(t)[k])
    decreases |s|
  {
    hide SameLetter, IsSpace;
    if s != "" {
      SameLetterFacts(s[0], t[0], s[0]);
      if IsSpace(s[0]) {
        SameFields(s[1..], t[1..]);
      } else {
        SameWordLength(s, t);
        var n := WordLength(s);
        assert n > 0;
        SameFields(s[n..], t[n..]);
        assert SameUpToCase(s[..n], t[..n]);
      }
    }
  }

  lemma OccursUpToCase(term: string, text: string, term': string, text': string)
    requires SameUpToCase(term, term') && SameUpToCase(text, text') && Occurs(term, text)
    ensures Occurs(term', text')
  {
    hide SameLetter;
    var k :| 0 <= k <= |text| && OccursAt(term, text, k);
    forall i | 0 <= i < |term'| ensures SameLetter(term'[i], text'[k + i]) {
      SameLetterFacts(term[i], term'[i], term[i]);
      SameLetterFacts(term'[i], term[i], text[k + i]);
      SameLetterFacts(term'[i], text[k + i], text'[k + i]);
    }
    assert OccursAt(term', text', k);
  }

  lemma MatchesInAnyCase(query: string, title: string, body: string, query': string, title': string, body': string)
    requires SameUpToCase(query, query') && SameUpToCase(title, title') && SameUpToCase(body, body')
    requires Matches(query, title, body)
    ensures Matches(query', title', body')
  {
    hide Fields, Occurs, SameUpToCase;
    SameFields(query, query');
    forall k | 0 <= k < |Fields(query')| && k < 8
      ensures Occurs(Fields(query')[k], title') || Occurs(Fields(query')[k], body')
    {
      var term, term' := Fields(query)[k], Fields(query')[k];
      if Occurs(term, title) { OccursUpToCase(term, title, term', title'); }
      if Occurs(term, body) { OccursUpToCase(term, body, term', body'); }
    }
  }

  /** Changing the case of any ASCII letters in the query, the title or the body never changes the
      answer. */
  lemma CaseIsIgnored(query: string, title: string, body: string, query': string, title': string, body': string)
    requires SameUpToCase(query, query') && SameUpToCase(title, title') && SameUpToCase(body, body')
    ensures Matches(query, title, body) <==> Matches(query', title', body')
  {
    hide Matches, SameUpToCase;
    SameBothWays(query, query');
    SameBothWays(title, title');
    SameBothWays(body, body');
    if Matches(query, title, body) { MatchesInAnyCase(query, title, body, query', title', body'); }
    if Matches(query', title', body') { MatchesInAnyCase(query', title', body', query, title, body); }
  }
}
