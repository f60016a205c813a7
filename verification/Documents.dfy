/** A document letter by letter: what each kind of line does to what has been read before it, and
    how each field is written. */
module Documents {
  import opened ByteText
  import opened Decimal
  import opened NarInfos
  import opened RoundTrip
  import opened LineOrder

  // ----- one line

  lemma NoSepExactly(s: Text)
    ensures NoSep(s) <==> !Occurs(": ", s)
  {
    forall a, x | s == a + ": " + x
      ensures SepAt(s, |a|)
    {
    }
    forall i | SepAt(s, i)
      ensures s == s[..i] + ": " + s[i + 2..]
    {
    }
  }

  /** How a line is divided: at its first colon and space; without one, a colon at its end closes
      a key without a value; everything else is refused. */
  lemma SplitLineExactly(line: Text, key: Text, value: Text)
    ensures SplitLine(line) == Some(Entry(key, value)) <==>
      || (line == key + ": " + value && !Occurs(": ", key))
      || (line == key + ":" && value == "" && !Occurs(": ", line))
    ensures SplitLine(line).None? <==> !Occurs(": ", line) && (line == "" || line[|line| - 1] != ':')
  {
    NoSepExactly(line);
    NoSepExactly(key);
    if line == key + ": " + value && NoSep(key) { SplitLineText(Entry(key, value)); }
    if FindSep(line).Some? {
      var i := FindSep(line).value;
      assert line == line[..i] + ": " + line[i + 2..];
    }
    if line == key + ":" { assert line[..|line| - 1] == key && line[|line| - 1..] == ":"; }
    if line != "" && line[|line| - 1] == ':' { assert line[|line| - 1..] == ":"; }
  }

  // ----- one more line

  lemma LineAdded(s: Text, l: Text, rest: Text)
    requires WholeLines(s) && '\n' !in l && FirstError(Lines(s)).None?
    ensures Classify(l).Bad? ==> Parsed(s + (l + "\n" + rest)) == Err(Classify(l).error)
    ensures Classify(l).Good? && rest == "" ==>
      Parsed(s + (l + "\n" + rest)) == Complete(Collect(Entries(Lines(s)) + [Classify(l).entry]))
  {
    hide Classify, Lines, Collect, Complete, StripCR;
    var ls, one := Lines(s), [StripCR(l)];
    LinesConcat(s, l + "\n" + rest);
    LinesCons(l, rest);
    LinesNothing();
    StripTrimmed(l);
    EntriesConcat(ls, one + Lines(rest));
    assert (one + Lines(rest))[0] == StripCR(l);
    if rest == "" {
      assert one + Lines(rest) == one && one[1..] == [];
      assert Entries(one) == if Classify(l).Good? then [Classify(l).entry] else [];
    }
  }

  lemma StripTrimmed(l: Text)
    ensures Classify(StripCR(l)) == Classify(l)
  {
    assert TrimCRs(StripCR(l)) == TrimCRs(l);
  }

  lemma EntryLine(key: Text, v: Text)
    requires '\n' !in key && !Occurs(": ", key) && LineEnd(v)
    ensures '\n' !in key + ": " + v
    ensures Classify(key + ": " + v) == if Numeric(FieldOf(key)) && ParseU64(v).None? then Bad(BadNumber(FieldOf(key))) else Good(Entry(key, v))
  {
    hide FieldOf, ParseU64, SplitLine;
    SplitLineExactly(key + ": " + v, key, v);
    var line := key + ": " + v;
    assert line[|line| - 1] == if v == "" then ' ' else v[|v| - 1];
  }

  /** How the lines of the twelve fields begin. */
  function Label(f: Field): Text
    requires f != Other
  {
    match f
    case StorePath => "StorePath: "
    case URL => "URL: "
    case Compression => "Compression: "
    case FileHash => "FileHash: "
    case FileSize => "FileSize: "
    case NarHash => "NarHash: "
    case NarSize => "NarSize: "
    case References => "References: "
    case Deriver => "Deriver: "
    case System => "System: "
    case Sig => "Sig: "
    case SigPqc => "Sig-PQC: "
  }

  lemma LabelIsName(f: Field)
    requires f != Other
    ensures Label(f) == Name(f) + ": "
  {
  }

  /** What each of the twelve lines does to the record read so far: a later line replaces the
      value of an earlier one, the two kinds of signatures add up, a size that is no number and
      an empty path or hash make the document unreadable, and nothing else is touched. */
  lemma LineMeans(s: Text, f: Field, v: Text)
    requires WholeLines(s) && Parsed(s).Ok? && f != Other && LineEnd(v)
    ensures var info, more := Parsed(s).value, Parsed(s + (Label(f) + v + "\n"));
      match f
      case StorePath => more == if v == "" then Err(MissingStorePath) else Ok(info.(storePath := v))
      case URL => more == Ok(info.(url := v))
      case Compression => more == Ok(info.(compression := v))
      case FileHash => more == Ok(info.(fileHash := Some(v)))
      case FileSize => more == if ParseU64(v).None? then Err(BadNumber(FileSize)) else Ok(info.(fileSize := ParseU64(v)))
      case NarHash => more == if v == "" then Err(MissingNarHash) else Ok(info.(narHash := v))
      case NarSize => more == if ParseU64(v).None? then Err(BadNumber(NarSize)) else Ok(info.(narSize := ParseU64(v).value))
      case References => more == Ok(info.(references := SplitRefs(v)))
      case Deriver => more == Ok(info.(deriver := Some(v)))
      case System => more == Ok(info.(system := Some(v)))
      case Sig => more == Ok(info.(sigs := info.sigs + [v]))
      case SigPqc => more == Ok(info.(sigPqc := info.sigPqc + [v]))
  {
    hide FieldOf, ParseU64, SplitRefs, Collect, Lines, Classify, FirstError, Label;
    LabelIsName(f);
    FieldOfName(f);
    NamePlain(f);
    NoSepExactly(Name(f));
    EntryLine(Name(f), v);
    hide Name;
    var l := Name(f) + ": " + v;
    LineAdded(s, l, "");
    assert Label(f) + v + "\n" == l + "\n" + "";
    CollectMore(Entries(Lines(s)), Entry(Name(f), v));
  }

  /** A line with any other key is kept as it is, behind those already kept. */
  lemma OtherLineMeans(s: Text, key: Text, v: Text)
    requires WholeLines(s) && Parsed(s).Ok? && '\n' !in key && !Occurs(": ", key) && LineEnd(v)
    requires key !in {"StorePath", "URL", "Compression", "FileHash", "FileSize", "NarHash", "NarSize", "References",
                      "Deriver", "System", "Sig", "Sig-PQC"}
    ensures Parsed(s + (key + ": " + v + "\n")) == Ok(Parsed(s).value.(extra := Parsed(s).value.extra + [Entry(key, v)]))
  {
    hide ParseU64, SplitRefs, Collect, Lines, Classify, FirstError;
    assert FieldOf(key) == Other;
    hide FieldOf;
    EntryLine(key, v);
    var l := key + ": " + v;
    LineAdded(s, l, "");
    assert key + ": " + v + "\n" == l + "\n" + "";
    CollectMore(Entries(Lines(s)), Entry(key, v));
  }

  lemma OccursLonger(part: Text, s: Text, t: Text)
    requires Occurs(part, s)
    ensures Occurs(part, s + t)
  {
    var a, x :| s == a + part + x;
    assert s + t == a + part + (x + t);
  }

  lemma BareLine(key: Text)
    requires '\n' !in key && !Occurs(": ", key + ":")
    ensures !Occurs(": ", key) && Classify(key + ":") == Classify(key + ": ")
  {
    hide FieldOf, ParseU64, SplitLine, Occurs;
    if Occurs(": ", key) { OccursLonger(": ", key, ":"); }
    SplitLineExactly(key + ":", key, "");
    SplitLineExactly(key + ": ", key, "");
    assert key + ": " + "" == key + ": ";
  }

  lemma Readable(s: Text)
    requires Parsed(s).Ok?
    ensures FirstError(Lines(s)).None?
  {
    hide FirstError, Lines, Entries, Collect;
  }

  /** A bare key with its colon is read like one with an empty value. */
  lemma BareLineMeans(s: Text, key: Text)
    requires WholeLines(s) && Parsed(s).Ok? && '\n' !in key && !Occurs(": ", key + ":")
    ensures Parsed(s + (key + ":\n")) == Parsed(s + (key + ": \n"))
  {
    hide Classify, Lines, Collect, FirstError, Complete, Parsed, FieldOf, ParseU64, WholeLines, Occurs;
    BareLine(key);
    Readable(s);
    LineAdded(s, key + ":", "");
    LineAdded(s, key + ": ", "");
    assert key + ":" + "\n" + "" == key + ":\n" && key + ": " + "\n" + "" == key + ": \n";
    EntryLine(key, "");
    assert key + ": " + "" == key + ": ";
  }

  /** The first line that is neither blank nor divided by a colon ends the reading, whatever
      follows. */
  lemma MalformedLineMeans(s: Text, l: Text, rest: Text)
    requires WholeLines(s) && Parsed(s).Ok? && l != "" && LineEnd(l)
    requires !Occurs(": ", l) && l[|l| - 1] != ':'
    ensures Parsed(s + (l + "\n" + rest)) == Err(MalformedLine(l))
  {
    SplitLineExactly(l, "", "");
    assert Classify(l) == Bad(MalformedLine(l));
    hide Classify, Lines, Collect, FirstError;
    LineAdded(s, l, rest);
  }

  /** The shortest documents: everything but path and hash has its default. */
  lemma ShortestDocument(path: Text, hash: Text)
    requires path != "" && hash != "" && LineEnd(path) && LineEnd(hash)
    ensures Parsed(Label(StorePath) + path + "\n" + (Label(NarHash) + hash + "\n"))
         == Ok(NarInfo(path, "", "", None, None, hash, 0, [], None, None, [], [], []))
  {
    hide Name, Collect, Printable, Parsed, Label, Render, LineEnd;
    var a, b := Entry(Name(StorePath), path), Entry(Name(NarHash), hash);
    ShortestEntries(path, hash);
    ParsedRender([a, b]);
    RenderOne(a);
    RenderOne(b);
    RenderConcat([a], [b]);
    assert [a] + [b] == [a, b];
    LabelIsName(StorePath);
    LabelIsName(NarHash);
  }

  /** Nothing is no document. */
  lemma NoDocument()
    ensures Parsed("") == Err(MissingStorePath)
  {
    LinesNothing();
    NothingRead();
    hide Lines, Collect, Entries, FirstError;
  }

  lemma ShortestEntries(path: Text, hash: Text)
    requires LineEnd(path) && LineEnd(hash)
    ensures var a, b := Entry(Name(StorePath), path), Entry(Name(NarHash), hash);
      && Printable(a) && Printable(b)
      && Collect([a, b]) == NarInfo(path, "", "", None, None, hash, 0, [], None, None, [], [], [])
  {
    hide ParseU64, SplitRefs, FieldOf, Name, Collect, LineEnd, NoSep;
    var a, b := Entry(Name(StorePath), path), Entry(Name(NarHash), hash);
    NamePlain(StorePath);
    NamePlain(NarHash);
    NothingRead();
    CollectMore([], a);
    CollectMore([a], b);
    assert [] + [a] == [a] && [a] + [b] == [a, b];
  }

  // ----- writing

  /** Lines of one label. */
  function Repeated(start: Text, vs: seq<Text>): Text {
    if vs == [] then "" else start + vs[0] + "\n" + Repeated(start, vs[1..])
  }

  function RepeatedExtra(es: seq<Entry>): Text {
    if es == [] then "" else es[0].key + ": " + es[0].value + "\n" + RepeatedExtra(es[1..])
  }

  function Present(start: Text, v: Option<Text>): Text {
    if v.Some? then start + v.value + "\n" else ""
  }

  lemma {:induction false} RenderTagged(f: Field, vs: seq<Text>)
    requires f != Other
    ensures Render(Tagged(f, vs)) == Repeated(Label(f), vs)
  {
    hide Name, Label, Render;
    LabelIsName(f);
    if vs == [] {
      assert Tagged(f, vs) == [];
      RenderNothing();
    } else {
      RenderTagged(f, vs[1..]);
      assert Tagged(f, vs) == One(f, vs[0]) + Tagged(f, vs[1..]);
      RenderConcat(One(f, vs[0]), Tagged(f, vs[1..]));
      RenderOne(Entry(Name(f), vs[0]));
    }
  }

  lemma {:induction false} RenderExtra(es: seq<Entry>)
    ensures Render(es) == RepeatedExtra(es)
  {
    hide Render;
    if es == [] {
      RenderNothing();
    } else {
      RenderExtra(es[1..]);
      RenderConcat([es[0]], es[1..]);
      RenderOne(es[0]);
      assert es == [es[0]] + es[1..];
    }
  }

  lemma RenderMaybe(f: Field, v: Option<Text>)
    requires f != Other
    ensures Render(Optional(f, v)) == Present(Label(f), v)
    ensures v.Some? ==> Render(One(f, v.value)) == Label(f) + v.value + "\n"
  {
    hide Name, Label, Render;
    LabelIsName(f);
    RenderNothing();
    if v.Some? { RenderOne(Entry(Name(f), v.value)); }
  }

  /** The text that is printed: every field at its place, absent ones left out, numbers in
      decimal, references with spaces between them, the unknown fields and the two kinds of
      signatures in their order at the end. */
  lemma PrintedExactly(info: NarInfo)
    ensures Printed(info) ==
      Label(StorePath) + info.storePath + "\n"
      + (Label(URL) + info.url + "\n")
      + (Label(Compression) + info.compression + "\n")
      + Present(Label(FileHash), info.fileHash)
      + Present(Label(FileSize), if info.fileSize.Some? then Some(Show(info.fileSize.value)) else None)
      + (Label(NarHash) + info.narHash + "\n")
      + (Label(NarSize) + Show(info.narSize) + "\n")
      + (Label(References) + Join(info.references, ' ') + "\n")
      + Present(Label(Deriver), info.deriver)
      + Present(Label(System), info.system)
      + RepeatedExtra(info.extra)
      + Repeated(Label(Sig), info.sigs)
      + Repeated(Label(SigPqc), info.sigPqc)
  {
    hide Name, Label, Render, Join, Show, Tagged, Repeated, RepeatedExtra, Present, One, Optional;
    RenderMaybe(StorePath, Some(info.storePath));
    RenderMaybe(URL, Some(info.url));
    RenderMaybe(Compression, Some(info.compression));
    RenderMaybe(FileHash, info.fileHash);
    RenderMaybe(FileSize, ShowOption(info.fileSize));
    RenderMaybe(NarHash, Some(info.narHash));
    RenderMaybe(NarSize, Some(Show(info.narSize)));
    RenderMaybe(References, Some(Join(info.references, ' ')));
    RenderMaybe(Deriver, info.deriver);
    RenderMaybe(System, info.system);
    var a := One(StorePath, info.storePath);
    var b := a + One(URL, info.url);
    var c := b + One(Compression, info.compression);
    var d := c + Optional(FileHash, info.fileHash);
    RenderConcat(a, One(URL, info.url));
    RenderConcat(b, One(Compression, info.compression));
    RenderConcat(c, Optional(FileHash, info.fileHash));
    RenderConcat(d, Optional(FileSize, ShowOption(info.fileSize)));
    var f := Front(info);
    var g := f + One(NarHash, info.narHash);
    var h := g + One(NarSize, Show(info.narSize));
    var i := h + One(References, Join(info.references, ' '));
    var j := i + Optional(Deriver, info.deriver);
    RenderConcat(f, One(NarHash, info.narHash));
    RenderConcat(g, One(NarSize, Show(info.narSize)));
    RenderConcat(h, One(References, Join(info.references, ' ')));
    RenderConcat(i, Optional(Deriver, info.deriver));
    RenderConcat(j, Optional(System, info.system));
    var k := Known(info);
    RenderConcat(k, info.extra);
    RenderExtra(info.extra);
    RenderConcat(k + info.extra, Tagged(Sig, info.sigs));
    RenderTagged(Sig, info.sigs);
    RenderConcat(k + info.extra + Tagged(Sig, info.sigs), Tagged(SigPqc, info.sigPqc));
    RenderTagged(SigPqc, info.sigPqc);
  }
}
