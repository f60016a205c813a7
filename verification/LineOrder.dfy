/** Which rearrangements of a document's lines cannot be noticed by reading it. */
module LineOrder {
  import opened ByteText
  import opened NarInfos

  /** What a line contributes to: nothing, a failure, or one field (all unknown keys together
      are the field `Other`). */
  datatype Group = Noise | Faulty | Of(field: Field)

  function GroupOf(raw: Text): Group {
    match Classify(raw)
    case Blank => Noise
    case Bad(_) => Faulty
    case Good(e) => Of(FieldOf(e.key))
  }

  /** The lines of one group, in order and without their trailing carriage returns. */
  function Project(ls: seq<Text>, g: Group): seq<Text> {
    if ls == [] then []
    else (if GroupOf(ls[0]) == g then [TrimCRs(ls[0])] else []) + Project(ls[1..], g)
  }

  /** The same verdict, and the same record when there is one. */
  predicate SameReading(a: Result<NarInfo, ParseError>, b: Result<NarInfo, ParseError>) {
    (a.Ok? <==> b.Ok?) && (a.Ok? ==> a == b)
  }

  lemma {:induction false} TrimTrimmed(s: Text)
    ensures TrimCRs(TrimCRs(s)) == TrimCRs(s)
  {
    if s != "" && s[|s| - 1] == '\r' { TrimTrimmed(s[..|s| - 1]); }
  }

  lemma ClassifyTrimmed(raw: Text)
    ensures Classify(TrimCRs(raw)) == Classify(raw)
  {
    TrimTrimmed(raw);
  }

  lemma {:induction false} ProjectConcat(a: seq<Text>, b: seq<Text>, g: Group)
    ensures Project(a + b, g) == Project(a, g) + Project(b, g)
  {
    hide GroupOf, TrimCRs;
    if a == [] {
      assert a + b == b;
    } else {
      var h := if GroupOf(a[0]) == g then [TrimCRs(a[0])] else [];
      assert (a + b)[0] == a[0] && (a + b)[1..] == a[1..] + b;
      assert Project(a + b, g) == h + Project(a[1..] + b, g);
      ProjectConcat(a[1..], b, g);
      assert Project(a, g) == h + Project(a[1..], g);
      Associative(h, Project(a[1..], g), Project(b, g));
    }
  }

  lemma {:induction false} ErrorsOfProject(ls: seq<Text>)
    ensures FirstError(ls).None? <==> Project(ls, Faulty) == []
  {
    hide Classify, TrimCRs, FieldOf;
    if ls != [] { ErrorsOfProject(ls[1..]); }
  }

  lemma ValuesSplit(e: Entry, es: seq<Entry>, f: Field)
    ensures Values([e] + es, f) == if FieldOf(e.key) == f then [e.value] + Values(es, f) else Values(es, f)
    ensures Extras([e] + es) == if FieldOf(e.key) == Other then [e] + Extras(es) else Extras(es)
  {
    hide FieldOf;
    assert ([e] + es)[1..] == es;
  }

  lemma {:induction false} ValuesOfProject(ls: seq<Text>, f: Field)
    ensures Values(Entries(ls), f) == Values(Entries(Project(ls, Of(f))), f)
    ensures f == Other ==> Extras(Entries(ls)) == Extras(Entries(Project(ls, Of(f))))
  {
    hide Classify, TrimCRs, FieldOf, Values, Extras;
    if ls != [] {
      var rest, p := ls[1..], Project(ls[1..], Of(f));
      ValuesOfProject(rest, f);
      var c := Classify(ls[0]);
      if c.Good? {
        assert Entries(ls) == [c.entry] + Entries(rest);
        ValuesSplit(c.entry, Entries(rest), f);
      } else {
        assert Entries(ls) == Entries(rest);
      }
      if c.Good? && FieldOf(c.entry.key) == f {
        var l := TrimCRs(ls[0]);
        ClassifyTrimmed(ls[0]);
        assert Project(ls, Of(f)) == [l] + p && ([l] + p)[0] == l && ([l] + p)[1..] == p;
        assert Entries([l] + p) == [c.entry] + Entries(p);
        ValuesSplit(c.entry, Entries(p), f);
      } else {
        assert Project(ls, Of(f)) == p;
      }
    }
  }

  /** Reading a document depends on nothing but, for each field, the sequence of its lines, and
      on whether there is a faulty line at all: any rearrangement that keeps these sequences,
      and any carriage returns or blank lines added, give the same verdict and the same
      record. */
  lemma ReadingByField(s: Text, t: Text)
    requires forall f :: Project(Lines(s), Of(f)) == Project(Lines(t), Of(f))
    requires Project(Lines(s), Faulty) == [] <==> Project(Lines(t), Faulty) == []
    ensures SameReading(Parsed(s), Parsed(t))
  {
    hide Project, Lines, FirstError, Entries, Values, Extras, FieldOf;
    ErrorsOfProject(Lines(s));
    ErrorsOfProject(Lines(t));
    forall f: Field
      ensures Values(Entries(Lines(s)), f) == Values(Entries(Lines(t)), f)
    {
      ValuesOfProject(Lines(s), f);
      ValuesOfProject(Lines(t), f);
    }
    ValuesOfProject(Lines(s), Other);
    ValuesOfProject(Lines(t), Other);
    assert Collect(Entries(Lines(s))) == Collect(Entries(Lines(t)));
  }

  // ----- on the text itself

  predicate WholeLines(s: Text) { s == "" || s[|s| - 1] == '\n' }

  lemma LinesCons(l: Text, rest: Text)
    requires '\n' !in l
    ensures Lines(l + "\n" + rest) == [StripCR(l)] + Lines(rest)
  {
    SplitOnceAt(l, '\n', rest);
    hide StripCR, SplitOnce;
  }

  lemma LinesNothing()
    ensures Lines("") == []
  {
  }

  /** How a text falls into lines: one ends at a newline, which goes together with one carriage
      return in front of it; the last one may end with the text and is then kept as it is. */
  lemma LinesExactly(l: Text, rest: Text)
    requires '\n' !in l
    ensures Lines("") == [] && (l != "" ==> Lines(l) == [l])
    ensures Lines(l + "\r\n" + rest) == [l] + Lines(rest)
    ensures l == "" || l[|l| - 1] != '\r' ==> Lines(l + "\n" + rest) == [l] + Lines(rest)
  {
    hide Lines, SplitOnce;
    LinesNothing();
    if l != "" { LastLine(l); }
    LinesCons(l, rest);
    LinesCons(l + "\r", rest);
    assert l + "\r\n" + rest == (l + "\r") + "\n" + rest;
    assert (l + "\r")[..|l|] == l;
  }

  lemma LastLine(l: Text)
    requires '\n' !in l && l != ""
    ensures Lines(l) == [l]
  {
  }

  lemma FirstLine(a: Text) returns (l: Text, rest: Text)
    requires WholeLines(a) && a != ""
    ensures a == l + "\n" + rest && '\n' !in l && WholeLines(rest)
  {
    assert a[|a| - 1] in a;
    var p := SplitOnce(a, '\n').value;
    l, rest := p.0, p.1;
    assert rest != "" ==> rest[|rest| - 1] == a[|a| - 1];
  }

  lemma {:induction false} LinesConcat(a: Text, b: Text)
    requires WholeLines(a)
    ensures Lines(a + b) == Lines(a) + Lines(b)
    decreases |a|
  {
    hide StripCR, Lines, WholeLines;
    LinesNothing();
    if a == "" {
      assert a + b == b;
    } else {
      var l, rest := FirstLine(a);
      LinesConcat(rest, b);
      LinesCons(l, rest);
      LinesCons(l, rest + b);
      assert a + b == l + "\n" + (rest + b);
      Associative([StripCR(l)], Lines(rest), Lines(b));
    }
  }

  lemma ProjectLine(l: Text, rest: Text, g: Group)
    requires '\n' !in l
    ensures Project(Lines(l + "\n" + rest), g)
         == if GroupOf(l) == g then [TrimCRs(l)] + Project(Lines(rest), g) else Project(Lines(rest), g)
  {
    LinesCons(l, rest);
    assert TrimCRs(StripCR(l)) == TrimCRs(l);
    ClassifyTrimmed(l);
    ClassifyTrimmed(StripCR(l));
    hide Classify, TrimCRs, FieldOf, Lines, StripCR;
    assert ([StripCR(l)] + Lines(rest))[1..] == Lines(rest);
  }

  /** Two neighbouring lines of different fields may change places. */
  lemma SwapLines(a: Text, l: Text, m: Text, b: Text)
    requires WholeLines(a) && '\n' !in l && '\n' !in m
    requires GroupOf(l) != GroupOf(m)
    ensures SameReading(Parsed(a + (l + "\n" + (m + "\n" + b))), Parsed(a + (m + "\n" + (l + "\n" + b))))
  {
    hide GroupOf, Project, Lines, Parsed, TrimCRs, SameReading;
    var s, t := l + "\n" + (m + "\n" + b), m + "\n" + (l + "\n" + b);
    LinesConcat(a, s);
    LinesConcat(a, t);
    forall g: Group
      ensures Project(Lines(a + s), g) == Project(Lines(a + t), g)
    {
      ProjectConcat(Lines(a), Lines(s), g);
      ProjectConcat(Lines(a), Lines(t), g);
      ProjectLine(l, m + "\n" + b, g);
      ProjectLine(m, b, g);
      ProjectLine(m, l + "\n" + b, g);
      ProjectLine(l, b, g);
    }
    ReadingByField(a + s, a + t);
  }

  lemma {:induction false} TrimOnlyCRs(l: Text, crs: Text)
    requires forall c :: c in crs ==> c == '\r'
    ensures TrimCRs(l + crs) == TrimCRs(l)
  {
    if crs == "" {
      assert l + crs == l;
    } else {
      var n := |crs| - 1;
      assert crs[n] in crs && forall c :: c in crs[..n] ==> c in crs;
      assert (l + crs)[..|l + crs| - 1] == l + crs[..n];
      TrimOnlyCRs(l, crs[..n]);
    }
  }

  lemma GroupWithCRs(l: Text, crs: Text)
    requires forall c :: c in crs ==> c == '\r'
    ensures TrimCRs(l + crs) == TrimCRs(l) && GroupOf(l + crs) == GroupOf(l)
  {
    TrimOnlyCRs(l, crs);
    ClassifyTrimmed(l);
    ClassifyTrimmed(l + crs);
    hide Classify, TrimCRs, FieldOf;
  }

  /** Carriage returns in front of a newline are not seen. */
  lemma AddCarriageReturns(a: Text, l: Text, crs: Text, b: Text)
    requires WholeLines(a) && '\n' !in l
    requires forall c :: c in crs ==> c == '\r'
    ensures SameReading(Parsed(a + (l + "\n" + b)), Parsed(a + ((l + crs) + "\n" + b)))
  {
    GroupWithCRs(l, crs);
    hide GroupOf, Project, Lines, Parsed, TrimCRs, SameReading;
    var m := l + crs;
    assert '\n' !in m;
    var s, t := l + "\n" + b, m + "\n" + b;
    LinesConcat(a, s);
    LinesConcat(a, t);
    forall g: Group
      ensures Project(Lines(a + s), g) == Project(Lines(a + t), g)
    {
      ProjectConcat(Lines(a), Lines(s), g);
      ProjectConcat(Lines(a), Lines(t), g);
      ProjectLine(l, b, g);
      ProjectLine(m, b, g);
    }
    ReadingByField(a + s, a + t);
  }

  /** A blank line, or one of carriage returns alone, is not seen. */
  lemma InsertBlankLine(a: Text, crs: Text, b: Text)
    requires WholeLines(a)
    requires forall c :: c in crs ==> c == '\r'
    ensures SameReading(Parsed(a + b), Parsed(a + (crs + "\n" + b)))
  {
    TrimOnlyCRs("", crs);
    assert "" + crs == crs && '\n' !in crs;
    assert GroupOf(crs) == Noise;
    hide Classify, FieldOf, Project, Lines, Parsed, TrimCRs, GroupOf, SameReading;
    var t := crs + "\n" + b;
    LinesConcat(a, b);
    LinesConcat(a, t);
    forall g: Group | g != Noise
      ensures Project(Lines(a + b), g) == Project(Lines(a + t), g)
    {
      ProjectConcat(Lines(a), Lines(b), g);
      ProjectConcat(Lines(a), Lines(t), g);
      ProjectLine(crs, b, g);
    }
    ReadingByField(a + b, a + t);
  }
}
