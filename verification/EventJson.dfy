/** An encoding of events that has all the properties the event theorems ask of JSON, so that these
    can be met together. */
module EventJson {
  import opened EventLog
  import opened EventStream
  import opened Options
  import opened Text

  /** Each character as its decimal code. */
  function Codes(s: string): string {
    if s == "" then "" else Decimal(s[0] as nat) + ("," + Codes(s[1..]))
  }

  function Body(e: Event): string {
    Decimal(e.id) + (";" + (Codes(e.kind) + (";" + (Decimal(e.repo) + (";" + Codes(e.rest))))))
  }

  function Encode(e: Event): string { "{" + (Body(e) + "}") }

  ghost function Decode(t: string): Option<Event> {
    if exists e :: Encode(e) == t then Some(var e :| Encode(e) == t; e) else None
  }

  predicate CodeChars(s: string, commas: bool, semicolons: bool) {
    forall i | 0 <= i < |s| :: IsDigit(s[i]) || (commas && s[i] == ',') || (semicolons && s[i] == ';')
  }

  lemma {:induction false} CodesAreCodes(s: string)
    ensures CodeChars(Codes(s), true, false)
  {
    if s != "" {
      CodesAreCodes(s[1..]);
      assert AllDigits(Decimal(s[0] as nat));
    }
  }

  lemma BodyIsCodes(e: Event)
    ensures CodeChars(Body(e), true, true)
  {
    CodesAreCodes(e.kind);
    CodesAreCodes(e.rest);
    assert AllDigits(Decimal(e.id)) && AllDigits(Decimal(e.repo));
    hide Codes, Decimal;
  }

  /** A separator that is in neither front part is found at the same place. */
  lemma CutUnique(sep: char, a: string, b: string, c: string, d: string)
    requires sep !in a && sep !in c && a + ([sep] + b) == c + ([sep] + d)
    ensures a == c && b == d
  {
    var s := a + ([sep] + b);
    assert forall i | 0 <= i < |a| :: s[i] == a[i] && a[i] in a;
    assert forall i | 0 <= i < |c| :: s[i] == c[i] && c[i] in c;
    assert s[|a|] == sep && s[|c|] == sep;
    assert |a| == |c|;
    assert a == s[..|a|] && c == s[..|c|] && b == s[|a| + 1..] && d == s[|c| + 1..];
  }

  lemma {:induction false} CodesInjective(s: string, t: string)
    requires Codes(s) == Codes(t)
    ensures s == t
  {
    if s != "" && t != "" {
      assert AllDigits(Decimal(s[0] as nat)) && AllDigits(Decimal(t[0] as nat));
      CutUnique(',', Decimal(s[0] as nat), Codes(s[1..]), Decimal(t[0] as nat), Codes(t[1..]));
      DecimalInjective(s[0] as nat, t[0] as nat);
      CodesInjective(s[1..], t[1..]);
      assert s == [s[0]] + s[1..] && t == [t[0]] + t[1..];
    }
  }

  lemma BodyInjective(e: Event, f: Event)
    requires Body(e) == Body(f)
    ensures e == f
  {
    CodesAreCodes(e.kind);
    CodesAreCodes(f.kind);
    assert AllDigits(Decimal(e.id)) && AllDigits(Decimal(f.id)) && AllDigits(Decimal(e.repo)) && AllDigits(Decimal(f.repo));
    assert ';' !in Decimal(e.id) && ';' !in Decimal(f.id) && ';' !in Decimal(e.repo) && ';' !in Decimal(f.repo);
    assert ';' !in Codes(e.kind) && ';' !in Codes(f.kind);
    hide Codes, Decimal;
    var e3, f3 := Decimal(e.repo) + (";" + Codes(e.rest)), Decimal(f.repo) + (";" + Codes(f.rest));
    var e2, f2 := Codes(e.kind) + (";" + e3), Codes(f.kind) + (";" + f3);
    CutUnique(';', Decimal(e.id), e2, Decimal(f.id), f2);
    CutUnique(';', Codes(e.kind), e3, Codes(f.kind), f3);
    CutUnique(';', Decimal(e.repo), Codes(e.rest), Decimal(f.repo), Codes(f.rest));
    DecimalInjective(e.id, f.id);
    DecimalInjective(e.repo, f.repo);
    CodesInjective(e.kind, f.kind);
    CodesInjective(e.rest, f.rest);
  }

  lemma Shape(e: Event)
    ensures var t := Encode(e);
            && |t| >= 2 && t[0] == '{' && t[|t| - 1] == '}' && OneLine(t)
            && (forall i | 0 < i < |t| :: t[i] != '{') && (forall i | 0 <= i < |t| - 1 :: t[i] != '}')
  {
    BodyIsCodes(e);
    hide Body;
  }

  lemma EncodeInjective(e: Event, f: Event)
    requires Encode(e) == Encode(f)
    ensures e == f
  {
    var t := Encode(e);
    assert t[1..|t| - 1] == Body(e) && t[1..|t| - 1] == Body(f) by { hide Body; }
    BodyInjective(e, f);
  }

  lemma DecodeEncode(e: Event)
    ensures Decode(Encode(e)) == Some(e)
  {
    hide Encode;
    forall f | Encode(f) == Encode(e) ensures f == e { EncodeInjective(f, e); }
  }

  lemma PartsDoNotDecode(e: Event, f: Event)
    ensures forall n | 0 < n < |Encode(e)| :: Decode(Encode(e)[..n]) == None
    ensures forall n | 0 < n <= |Encode(e)| :: Decode(Encode(e)[..n] + Encode(f)) == None
  {
    Shape(e);
    Shape(f);
    hide Encode;
    forall n | 0 < n < |Encode(e)| ensures Decode(Encode(e)[..n]) == None {
      forall g ensures Encode(g) != Encode(e)[..n] {
        Shape(g);
        assert Encode(e)[..n][n - 1] == Encode(e)[n - 1] != '}';
      }
    }
    forall n | 0 < n <= |Encode(e)| ensures Decode(Encode(e)[..n] + Encode(f)) == None {
      var line := Encode(e)[..n] + Encode(f);
      assert line[n] == '{';
      forall g ensures Encode(g) != line { Shape(g); }
    }
  }

  lemma LawfulJsonExists() returns (json: Json)
    ensures forall e: Event :: json.Ok(e)
    ensures forall e: Event, f: Event :: json.NeverGlued(e, f)
  {
    json := Json(e => Encode(e), t => Decode(t));
    forall e ensures json.Ok(e) {
      Shape(e);
      DecodeEncode(e);
      PartsDoNotDecode(e, e);
    }
    forall e, f ensures json.NeverGlued(e, f) { PartsDoNotDecode(e, f); }
  }

  /** A crash two bytes into the first entry makes the file unreadable from its start. */
  lemma CrashExample() returns (json: Json, lost: Event, e: Event)
    ensures json.Ok(lost) && json.Ok(e)
    ensures e.id == CountEvents(json.encode(lost)[..2]) + 1 == 1
    ensures ReadText(json, json.encode(lost)[..2] + Ended(json.encode(e))) == ([], 0, false)
  {
    json := LawfulJsonExists();
    lost, e := Event(1, "run.started", 0, ""), Event(1, "run.started", 0, "");
    assert json.Ok(lost);
    var partial := json.encode(lost)[..2];
    assert "" + partial == partial;
    LogReadsBack(json, [], partial);
    GluedIsBroken(json, lost, 2, e);
    JoinedLine(json, partial, e);
    BrokenLine(json, [], partial + json.encode(e));
    assert "" + Ended(partial + json.encode(e)) == partial + Ended(json.encode(e));
  }
}
