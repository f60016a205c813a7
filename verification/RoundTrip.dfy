/** Reading back what was printed. `WellFormed` is exactly the set of records that reading a
    document can produce, and printing loses nothing of them. */
module RoundTrip {
  import opened ByteText
  import opened Decimal
  import opened NarInfos

  /** A list of references that a `References:` value can carry. */
  predicate RefsOk(refs: seq<Text>) {
    && refs != [""]
    && (forall r :: r in refs ==> ' ' !in r && '\n' !in r)
    && (refs != [] ==> LineEnd(refs[|refs| - 1]))
  }

  predicate OptionalLineEnd(v: Option<Text>) { v.Some? ==> LineEnd(v.value) }

  ghost predicate ExtraOk(e: Entry) {
    FieldOf(e.key) == Other && '\n' !in e.key && NoSep(e.key) && LineEnd(e.value)
  }

  ghost predicate WellFormed(info: NarInfo) {
    && info.storePath != "" && LineEnd(info.storePath)
    && LineEnd(info.url)
    && LineEnd(info.compression)
    && OptionalLineEnd(info.fileHash)
    && (info.fileSize.Some? ==> info.fileSize.value < U64_LIMIT)
    && info.narHash != "" && LineEnd(info.narHash)
    && info.narSize < U64_LIMIT
    && RefsOk(info.references)
    && OptionalLineEnd(info.deriver)
    && OptionalLineEnd(info.system)
    && (forall s :: s in info.sigs ==> LineEnd(s))
    && (forall s :: s in info.sigPqc ==> LineEnd(s))
    && (forall e :: e in info.extra ==> ExtraOk(e))
  }

  // ----- one line

  /** An entry whose line is read back as itself. */
  ghost predicate Printable(e: Entry) {
    && '\n' !in e.key && NoSep(e.key) && LineEnd(e.value)
    && (Numeric(FieldOf(e.key)) ==> ParseU64(e.value).Some?)
  }

  lemma SplitLineText(e: Entry)
    requires NoSep(e.key)
    ensures SplitLine(LineText(e)) == Some(e)
  {
    var line := LineText(e);
    assert SepAt(line, |e.key|);
    assert line[|e.key|] == ':';
    assert forall j :: SepAt(line, j) && j + 1 < |e.key| ==> SepAt(e.key, j);
    var i := FindSep(line).value;
    assert i == |e.key|;
    assert line[..i] == e.key && line[i + 2..] == e.value;
  }

  lemma ReadBack(e: Entry)
    requires Printable(e)
    ensures LineEnd(LineText(e)) && Classify(LineText(e)) == Good(e)
  {
    hide FieldOf, SplitLine, ParseU64;
    var line := LineText(e);
    assert line[|line| - 1] == if e.value == "" then ' ' else e.value[|e.value| - 1];
    SplitLineText(e);
  }

  lemma ClassifyPrintable(raw: Text)
    requires '\n' !in raw && Classify(raw).Good?
    ensures Printable(Classify(raw).entry)
  {
    hide FieldOf, ParseU64;
    var line := TrimCRs(raw);
    assert forall c :: c in line ==> c in raw;
    var e := SplitLine(line).value;
    assert e.value != "" ==> e.value[|e.value| - 1] == line[|line| - 1];
  }

  // ----- a list of lines

  lemma {:induction false} ReadAll(es: seq<Entry>)
    requires forall e :: e in es ==> Printable(e)
    ensures Entries(LineTexts(es)) == es && FirstError(LineTexts(es)).None?
  {
    hide Classify, FieldOf, LineText;
    if es != [] {
      assert LineTexts(es)[0] == LineText(es[0]) && LineTexts(es)[1..] == LineTexts(es[1..]);
      ReadBack(es[0]);
      ReadAll(es[1..]);
      assert es == [es[0]] + es[1..];
    }
  }

  lemma ParsedRender(es: seq<Entry>)
    requires forall e :: e in es ==> Printable(e)
    ensures Parsed(Render(es)) == Complete(Collect(es))
  {
    hide Collect, Complete, Lines, Unlines, FieldOf, Printable;
    forall l | l in LineTexts(es)
      ensures LineEnd(l)
    {
      var i :| 0 <= i < |es| && l == LineText(es[i]);
      ReadBack(es[i]);
    }
    LinesUnlines(LineTexts(es));
    ReadAll(es);
  }

  lemma {:induction false} EntriesPrintable(ls: seq<Text>)
    requires forall l :: l in ls ==> '\n' !in l
    ensures forall e :: e in Entries(ls) ==> Printable(e)
  {
    hide Classify, Printable;
    if ls != [] {
      if Classify(ls[0]).Good? { ClassifyPrintable(ls[0]); }
      EntriesPrintable(ls[1..]);
    }
  }

  // ----- references

  lemma {:induction false} JoinLineEnd(parts: seq<Text>)
    requires |parts| >= 1
    ensures LineEnd(Join(parts, ' ')) <==>
      (forall p :: p in parts ==> '\n' !in p) && LineEnd(parts[|parts| - 1])
  {
    if |parts| > 1 {
      var rest := parts[1..];
      JoinLineEnd(rest);
      assert rest[|rest| - 1] == parts[|parts| - 1];
      var s := parts[0] + [' '] + Join(rest, ' ');
      assert s == Join(parts, ' ');
      assert s[|s| - 1] == if Join(rest, ' ') == "" then ' ' else Join(rest, ' ')[|Join(rest, ' ')| - 1];
      assert '\n' in s <==> '\n' in parts[0] || '\n' in Join(rest, ' ');
      assert parts == [parts[0]] + rest;
    }
  }

  lemma RefsReadBack(refs: seq<Text>)
    requires RefsOk(refs)
    ensures LineEnd(Join(refs, ' ')) && SplitRefs(Join(refs, ' ')) == refs
  {
    if refs != [] {
      JoinLineEnd(refs);
      SplitJoin(refs, ' ');
      assert Join(refs, ' ') == "" ==> Split("", ' ') == [""];
    }
  }

  lemma SoleRef()
    ensures Join([""], ' ') == ""
  {
  }

  lemma SplitRefsOk(value: Text)
    requires LineEnd(value)
    ensures RefsOk(SplitRefs(value))
  {
    hide Join, Split, LineEnd;
    if value != "" {
      assert Join([""], ' ') == "" by { SoleRef(); }
      JoinSplit(value, ' ');
      JoinLineEnd(Split(value, ' '));
    }
  }

  // ----- what the printed entries say

  lemma ValuesOne(g: Field, v: Text, f: Field)
    requires g != Other
    ensures Values(One(g, v), f) == if f == g then [v] else []
    ensures Extras(One(g, v)) == []
  {
    FieldOfName(g);
    hide FieldOf, Name;
    assert One(g, v)[1..] == [];
  }

  lemma ValuesOptional(g: Field, v: Option<Text>, f: Field)
    requires g != Other
    ensures Values(Optional(g, v), f) == if f == g && v.Some? then [v.value] else []
    ensures Extras(Optional(g, v)) == []
  {
    if v.Some? { ValuesOne(g, v.value, f); }
  }

  lemma {:induction false} ValuesTagged(g: Field, vs: seq<Text>, f: Field)
    requires g != Other
    ensures Values(Tagged(g, vs), f) == if f == g then vs else []
    ensures Extras(Tagged(g, vs)) == []
  {
    hide FieldOf, Name;
    FieldOfName(g);
    if vs != [] {
      var es := Tagged(g, vs);
      ValuesTagged(g, vs[1..], f);
      assert es[0] == Entry(Name(g), vs[0]) && es[1..] == Tagged(g, vs[1..]);
      hide Tagged;
      assert Values(es, f) == (if f == g then [vs[0]] else []) + Values(es[1..], f);
      assert vs == [vs[0]] + vs[1..];
    }
  }

  lemma {:induction false} ValuesExtra(es: seq<Entry>, f: Field)
    requires forall e :: e in es ==> FieldOf(e.key) == Other
    ensures f != Other ==> Values(es, f) == []
    ensures Extras(es) == es
  {
    hide FieldOf;
    if es != [] {
      ValuesExtra(es[1..], f);
      assert es == [es[0]] + es[1..];
    }
  }

  /** The values printed for each field. */
  function Content(info: NarInfo, f: Field): seq<Text> {
    match f
    case StorePath => [info.storePath]
    case URL => [info.url]
    case Compression => [info.compression]
    case FileHash => if info.fileHash.Some? then [info.fileHash.value] else []
    case FileSize => if info.fileSize.Some? then [Show(info.fileSize.value)] else []
    case NarHash => [info.narHash]
    case NarSize => [Show(info.narSize)]
    case References => [Join(info.references, ' ')]
    case Deriver => if info.deriver.Some? then [info.deriver.value] else []
    case System => if info.system.Some? then [info.system.value] else []
    case Sig => info.sigs
    case SigPqc => info.sigPqc
    case Other => []
  }

  lemma ConcatOne(es: seq<Entry>, g: Field, v: Text, f: Field)
    requires g != Other
    ensures Values(es + One(g, v), f) == if f == g then Values(es, f) + [v] else Values(es, f)
    ensures Extras(es + One(g, v)) == Extras(es)
  {
    hide One;
    ValuesConcat(es, One(g, v), f);
    ExtrasConcat(es, One(g, v));
    ValuesOne(g, v, f);
  }

  lemma ConcatOptional(es: seq<Entry>, g: Field, v: Option<Text>, f: Field)
    requires g != Other
    ensures Values(es + Optional(g, v), f) == if f == g && v.Some? then Values(es, f) + [v.value] else Values(es, f)
    ensures Extras(es + Optional(g, v)) == Extras(es)
  {
    hide Optional;
    ValuesConcat(es, Optional(g, v), f);
    ExtrasConcat(es, Optional(g, v));
    ValuesOptional(g, v, f);
  }

  predicate InFront(f: Field) {
    f == StorePath || f == URL || f == Compression || f == FileHash || f == FileSize
  }

  lemma ValuesFront(info: NarInfo, f: Field)
    ensures Values(Front(info), f) == if InFront(f) then Content(info, f) else []
    ensures Extras(Front(info)) == []
  {
    hide Values, Extras, One, Optional, Show;
    var e1 := One(StorePath, info.storePath);
    ValuesOne(StorePath, info.storePath, f);
    ConcatOne(e1, URL, info.url, f);
    var e2 := e1 + One(URL, info.url);
    ConcatOne(e2, Compression, info.compression, f);
    var e3 := e2 + One(Compression, info.compression);
    ConcatOptional(e3, FileHash, info.fileHash, f);
    var e4 := e3 + Optional(FileHash, info.fileHash);
    ConcatOptional(e4, FileSize, ShowOption(info.fileSize), f);
  }

  lemma ValuesKnown(info: NarInfo, f: Field)
    ensures Values(Known(info), f) == if f == Sig || f == SigPqc then [] else Content(info, f)
    ensures Extras(Known(info)) == []
  {
    hide Values, Extras, One, Optional, Front, Show, Join;
    ValuesFront(info, f);
    var e5 := Front(info);
    ConcatOne(e5, NarHash, info.narHash, f);
    var e6 := e5 + One(NarHash, info.narHash);
    ConcatOne(e6, NarSize, Show(info.narSize), f);
    var e7 := e6 + One(NarSize, Show(info.narSize));
    ConcatOne(e7, References, Join(info.references, ' '), f);
    var e8 := e7 + One(References, Join(info.references, ' '));
    ConcatOptional(e8, Deriver, info.deriver, f);
    var e9 := e8 + Optional(Deriver, info.deriver);
    ConcatOptional(e9, System, info.system, f);
  }

  lemma ValuesFields(info: NarInfo, f: Field)
    requires forall e :: e in info.extra ==> FieldOf(e.key) == Other
    ensures f != Other ==> Values(Fields(info), f) == Content(info, f)
    ensures Extras(Fields(info)) == info.extra
  {
    hide Values, Extras, Known, Tagged, FieldOf;
    var a := Known(info);
    var b := a + info.extra;
    var c := b + Tagged(Sig, info.sigs);
    ValuesKnown(info, f);
    ValuesConcat(a, info.extra, f);
    ExtrasConcat(a, info.extra);
    ValuesExtra(info.extra, f);
    ValuesConcat(b, Tagged(Sig, info.sigs), f);
    ExtrasConcat(b, Tagged(Sig, info.sigs));
    ValuesTagged(Sig, info.sigs, f);
    ValuesConcat(c, Tagged(SigPqc, info.sigPqc), f);
    ExtrasConcat(c, Tagged(SigPqc, info.sigPqc));
    ValuesTagged(SigPqc, info.sigPqc, f);
  }

  lemma CollectContent(es: seq<Entry>, info: NarInfo)
    requires forall f :: f != Other ==> Values(es, f) == Content(info, f)
    requires Extras(es) == info.extra
    requires ParseU64(Show(info.narSize)) == Some(info.narSize)
    requires info.fileSize.Some? ==> ParseU64(Show(info.fileSize.value)) == info.fileSize
    requires SplitRefs(Join(info.references, ' ')) == info.references
    ensures Collect(es) == info
  {
    hide Values, Extras, Show, ParseU64, Join, SplitRefs;
  }

  lemma CollectFields(info: NarInfo)
    requires WellFormed(info)
    ensures Collect(Fields(info)) == info
  {
    hide Values, Extras, Fields, Show, ParseU64, Join, Split, LineEnd, RefsOk, Collect, Content;
    forall f: Field | f != Other
      ensures Values(Fields(info), f) == Content(info, f)
    {
      ValuesFields(info, f);
    }
    ValuesFields(info, Other);
    ParseShow(info.narSize);
    if info.fileSize.Some? { ParseShow(info.fileSize.value); }
    RefsReadBack(info.references);
    CollectContent(Fields(info), info);
  }

  // ----- every printed line can be read

  lemma NamePlain(f: Field)
    requires f != Other
    ensures '\n' !in Name(f) && NoSep(Name(f)) && FieldOf(Name(f)) == f
  {
    hide FieldOf;
    FieldOfName(f);
    assert ':' !in Name(f);
    forall i
      ensures !SepAt(Name(f), i)
    {
      assert 0 <= i < |Name(f)| ==> Name(f)[i] in Name(f);
    }
  }

  lemma OnePrintable(f: Field, v: Text)
    requires f != Other && LineEnd(v)
    requires Numeric(f) ==> ParseU64(v).Some?
    ensures Printable(Entry(Name(f), v))
  {
    NamePlain(f);
  }

  lemma ShowLineEnd(n: nat)
    requires n < U64_LIMIT
    ensures LineEnd(Show(n)) && ParseU64(Show(n)).Some?
  {
    ParseShow(n);
    assert forall i :: 0 <= i < |Show(n)| ==> IsDigit(Show(n)[i]);
  }

  ghost predicate AllPrintable(es: seq<Entry>) { forall e :: e in es ==> Printable(e) }

  lemma OneMorePrintable(es: seq<Entry>, f: Field, v: Text)
    requires f != Other && LineEnd(v) && (Numeric(f) ==> ParseU64(v).Some?)
    requires AllPrintable(es)
    ensures AllPrintable(es + One(f, v))
  {
    hide Printable, Name, LineEnd, ParseU64;
    OnePrintable(f, v);
  }

  lemma OptionalPrintable(es: seq<Entry>, f: Field, v: Option<Text>)
    requires f != Other && OptionalLineEnd(v) && (Numeric(f) && v.Some? ==> ParseU64(v.value).Some?)
    requires AllPrintable(es)
    ensures AllPrintable(es + Optional(f, v))
  {
    hide Printable, Name, LineEnd, ParseU64, One;
    if v.Some? { OneMorePrintable(es, f, v.value); } else { assert es + [] == es; }
  }

  lemma FrontPrintable(info: NarInfo)
    requires WellFormed(info)
    ensures AllPrintable(Front(info))
  {
    hide AllPrintable, One, Optional, Show, LineEnd, RefsOk, ParseU64, ExtraOk;
    AllPrintableNone();
    if info.fileSize.Some? { ShowLineEnd(info.fileSize.value); }
    var e1 := One(StorePath, info.storePath);
    OneMorePrintable([], StorePath, info.storePath);
    assert [] + e1 == e1;
    OneMorePrintable(e1, URL, info.url);
    var e2 := e1 + One(URL, info.url);
    OneMorePrintable(e2, Compression, info.compression);
    var e3 := e2 + One(Compression, info.compression);
    OptionalPrintable(e3, FileHash, info.fileHash);
    var e4 := e3 + Optional(FileHash, info.fileHash);
    OptionalPrintable(e4, FileSize, ShowOption(info.fileSize));
  }

  lemma AllPrintableNone()
    ensures AllPrintable([])
  {
  }

  lemma KnownPrintable(info: NarInfo)
    requires WellFormed(info)
    ensures AllPrintable(Known(info))
  {
    hide AllPrintable, One, Optional, Show, Join, Split, LineEnd, RefsOk, ParseU64, ExtraOk, Front;
    FrontPrintable(info);
    ShowLineEnd(info.narSize);
    RefsReadBack(info.references);
    var e5 := Front(info);
    OneMorePrintable(e5, NarHash, info.narHash);
    var e6 := e5 + One(NarHash, info.narHash);
    OneMorePrintable(e6, NarSize, Show(info.narSize));
    var e7 := e6 + One(NarSize, Show(info.narSize));
    OneMorePrintable(e7, References, Join(info.references, ' '));
    var e8 := e7 + One(References, Join(info.references, ' '));
    OptionalPrintable(e8, Deriver, info.deriver);
    var e9 := e8 + Optional(Deriver, info.deriver);
    OptionalPrintable(e9, System, info.system);
  }

  lemma TaggedPrintable(f: Field, vs: seq<Text>)
    requires f != Other && !Numeric(f)
    requires forall v :: v in vs ==> LineEnd(v)
    ensures forall e :: e in Tagged(f, vs) ==> Printable(e)
  {
    hide Printable, Name, LineEnd;
    forall e | e in Tagged(f, vs)
      ensures Printable(e)
    {
      var i :| 0 <= i < |vs| && e == Entry(Name(f), vs[i]);
      OnePrintable(f, vs[i]);
    }
  }

  lemma FieldsPrintable(info: NarInfo)
    requires WellFormed(info)
    ensures forall e :: e in Fields(info) ==> Printable(e)
  {
    KnownPrintable(info);
    TaggedPrintable(Sig, info.sigs);
    TaggedPrintable(SigPqc, info.sigPqc);
    hide Known, Tagged, FieldOf, ParseU64;
  }

  // ----- the theorems

  /** Printing a well-formed record and reading the text back gives exactly that record. */
  lemma PrintThenParse(info: NarInfo)
    requires WellFormed(info)
    ensures Parsed(Printed(info)) == Ok(info)
  {
    hide Parsed, Collect, Render, Fields;
    FieldsPrintable(info);
    ParsedRender(Fields(info));
    CollectFields(info);
  }

  lemma {:induction false} ValuesPrintable(es: seq<Entry>, f: Field)
    requires forall e :: e in es ==> Printable(e)
    ensures forall v :: v in Values(es, f) ==> LineEnd(v) && (Numeric(f) ==> ParseU64(v).Some?)
  {
    hide FieldOf, ParseU64;
    if es != [] {
      assert Printable(es[0]);
      ValuesPrintable(es[1..], f);
    }
  }

  lemma {:induction false} ExtrasPrintable(es: seq<Entry>)
    requires forall e :: e in es ==> Printable(e)
    ensures forall e :: e in Extras(es) ==> ExtraOk(e)
  {
    hide FieldOf, ParseU64;
    if es != [] {
      assert Printable(es[0]);
      ExtrasPrintable(es[1..]);
    }
  }

  lemma CollectWellFormed(es: seq<Entry>)
    requires forall e :: e in es ==> Printable(e)
    requires Collect(es).storePath != "" && Collect(es).narHash != ""
    ensures WellFormed(Collect(es))
  {
    hide Values, Extras, FieldOf, ParseU64, Printable, RefsOk, ExtraOk, Split;
    forall f: Field
      ensures forall v :: v in Values(es, f) ==> LineEnd(v) && (Numeric(f) ==> ParseU64(v).Some?)
    {
      ValuesPrintable(es, f);
    }
    ExtrasPrintable(es);
    SplitRefsOk(LastText(Values(es, References)));
  }

  /** Whatever a document says, the record read from it is well-formed. */
  lemma ParsedWellFormed(text: Text)
    requires Parsed(text).Ok?
    ensures WellFormed(Parsed(text).value)
  {
    hide Collect, Entries, FirstError, Lines, WellFormed, Printable;
    LinesHaveNoNewline(text);
    EntriesPrintable(Lines(text));
    CollectWellFormed(Entries(Lines(text)));
  }

  /** The well-formed records are exactly those some document is read as. */
  lemma WellFormedIsImage(info: NarInfo)
    ensures WellFormed(info) <==> exists text :: Parsed(text) == Ok(info)
  {
    hide Parsed, WellFormed, Printed;
    if WellFormed(info) { PrintThenParse(info); }
    forall text | Parsed(text) == Ok(info)
      ensures WellFormed(info)
    {
      ParsedWellFormed(text);
    }
  }

  /** Normalising a document: it may change the bytes, never what they mean, and doing it
      again changes nothing. */
  lemma ParseThenPrint(text: Text)
    requires Parsed(text).Ok?
    ensures var info := Parsed(text).value;
      && Parsed(Printed(info)) == Ok(info)
      && Printed(Parsed(Printed(info)).value) == Printed(info)
  {
    ParsedWellFormed(text);
    PrintThenParse(Parsed(text).value);
  }
}
