/** The `.narinfo` document: its record, reading it from text and printing it again. */
module NarInfos {
  import opened ByteText
  import opened Decimal

  datatype Entry = Entry(key: Text, value: Text)

  datatype NarInfo = NarInfo(
    storePath: Text,
    url: Text,
    compression: Text,
    fileHash: Option<Text>,
    fileSize: Option<nat>,
    narHash: Text,
    narSize: nat,
    references: seq<Text>,
    deriver: Option<Text>,
    system: Option<Text>,
    sigs: seq<Text>,
    sigPqc: seq<Text>,
    extra: seq<Entry>)

  const EMPTY := NarInfo("", "", "", None, None, "", 0, [], None, None, [], [], [])

  datatype Field =
    | StorePath | URL | Compression | FileHash | FileSize | NarHash | NarSize
    | References | Deriver | System | Sig | SigPqc
    | Other

  datatype ParseError =
    | MalformedLine(line: Text)
    | BadNumber(field: Field)
    | MissingStorePath
    | MissingNarHash

  function Name(f: Field): Text
    requires f != Other
  {
    match f
    case StorePath => "StorePath"
    case URL => "URL"
    case Compression => "Compression"
    case FileHash => "FileHash"
    case FileSize => "FileSize"
    case NarHash => "NarHash"
    case NarSize => "NarSize"
    case References => "References"
    case Deriver => "Deriver"
    case System => "System"
    case Sig => "Sig"
    case SigPqc => "Sig-PQC"
  }

  function FieldOf(key: Text): Field {
    if key == "StorePath" then StorePath
    else if key == "URL" then URL
    else if key == "Compression" then Compression
    else if key == "FileHash" then FileHash
    else if key == "FileSize" then FileSize
    else if key == "NarHash" then NarHash
    else if key == "NarSize" then NarSize
    else if key == "References" then References
    else if key == "Deriver" then Deriver
    else if key == "System" then System
    else if key == "Sig" then Sig
    else if key == "Sig-PQC" then SigPqc
    else Other
  }

  lemma FieldOfName(f: Field)
    requires f != Other
    ensures FieldOf(Name(f)) == f
  {
    var k := Name(f);
    match f
    case StorePath => assert k[0] == 'S' && k[1] == 't';
    case URL =>
    case Compression =>
    case FileHash => assert k[0] == 'F' && k[4] == 'H';
    case FileSize => assert k[0] == 'F' && k[4] == 'S';
    case NarHash => assert k[0] == 'N' && k[3] == 'H';
    case NarSize => assert k[0] == 'N' && k[3] == 'S';
    case References =>
    case Deriver => assert k[0] == 'D';
    case System =>
    case Sig => assert k[0] == 'S';
    case SigPqc => assert k[0] == 'S';
  }

  // ----- one line

  predicate SepAt(s: Text, i: int) {
    0 <= i && i + 1 < |s| && s[i] == ':' && s[i + 1] == ' '
  }

  ghost predicate NoSep(s: Text) { forall i :: !SepAt(s, i) }

  function FindSep(s: Text, from: nat := 0): (r: Option<nat>)
    requires from <= |s|
    requires forall j :: j < from ==> !SepAt(s, j)
    ensures r.Some? ==> SepAt(s, r.value) && forall j :: j < r.value ==> !SepAt(s, j)
    ensures r.None? ==> NoSep(s)
    decreases |s| - from
  {
    if from == |s| then None
    else if SepAt(s, from) then Some(from)
    else FindSep(s, from + 1)
  }

  /** `Key: value` at the first `": "`; failing that, a bare `Key:` with an empty value. */
  function SplitLine(line: Text): (r: Option<Entry>)
    ensures r.Some? ==> NoSep(r.value.key)
    ensures r.Some? ==> (line == r.value.key + ": " + r.value.value) || (line == r.value.key + ":" && r.value.value == "")
  {
    match FindSep(line)
    case Some(i) =>
      var key := line[..i];
      assert forall j :: SepAt(key, j) ==> SepAt(line, j);
      Some(Entry(key, line[i + 2..]))
    case None =>
      if EndsWith(line, ":") then
        var key := line[..|line| - 1];
        assert line == key + ":";
        assert forall j :: SepAt(key, j) ==> SepAt(line, j);
        Some(Entry(key, ""))
      else None
  }

  datatype Line = Blank | Bad(error: ParseError) | Good(entry: Entry)

  predicate Numeric(f: Field) { f == FileSize || f == NarSize }

  function Classify(raw: Text): Line {
    var line := TrimCRs(raw);
    if line == "" then Blank
    else match SplitLine(line)
      case None => Bad(MalformedLine(line))
      case Some(e) =>
        if Numeric(FieldOf(e.key)) && ParseU64(e.value).None? then Bad(BadNumber(FieldOf(e.key)))
        else Good(e)
  }

  // ----- a whole document, field by field

  function FirstError(ls: seq<Text>): Option<ParseError> {
    if ls == [] then None
    else if Classify(ls[0]).Bad? then Some(Classify(ls[0]).error)
    else FirstError(ls[1..])
  }

  function Entries(ls: seq<Text>): seq<Entry> {
    if ls == [] then []
    else (if Classify(ls[0]).Good? then [Classify(ls[0]).entry] else []) + Entries(ls[1..])
  }

  /** The values given to field `f`, in document order. */
  function Values(es: seq<Entry>, f: Field): seq<Text> {
    if es == [] then []
    else (if FieldOf(es[0].key) == f then [es[0].value] else []) + Values(es[1..], f)
  }

  function Extras(es: seq<Entry>): seq<Entry> {
    if es == [] then []
    else (if FieldOf(es[0].key) == Other then [es[0]] else []) + Extras(es[1..])
  }

  function Last<T>(vs: seq<T>): Option<T> {
    if vs == [] then None else Some(vs[|vs| - 1])
  }

  function LastText(vs: seq<Text>): Text {
    if vs == [] then "" else vs[|vs| - 1]
  }

  function SplitRefs(value: Text): seq<Text> {
    if value == "" then [] else Split(value, ' ')
  }

  function NumberOr(value: Option<Text>, default: Option<nat>): Option<nat> {
    if value.None? then default else ParseU64(value.value)
  }

  /** The record a list of entries describes: a single-valued field takes its last value, the
      signature lists take all of theirs, everything unknown is kept in order. */
  function Collect(es: seq<Entry>): NarInfo {
    NarInfo(
      LastText(Values(es, StorePath)),
      LastText(Values(es, URL)),
      LastText(Values(es, Compression)),
      Last(Values(es, FileHash)),
      NumberOr(Last(Values(es, FileSize)), None),
      LastText(Values(es, NarHash)),
      var n := NumberOr(Last(Values(es, NarSize)), Some(0)); if n.Some? then n.value else 0,
      SplitRefs(LastText(Values(es, References))),
      Last(Values(es, Deriver)),
      Last(Values(es, System)),
      Values(es, Sig),
      Values(es, SigPqc),
      Extras(es))
  }

  function Complete(info: NarInfo): Result<NarInfo, ParseError> {
    if info.storePath == "" then Err(MissingStorePath)
    else if info.narHash == "" then Err(MissingNarHash)
    else Ok(info)
  }

  function Parsed(text: Text): Result<NarInfo, ParseError> {
    match FirstError(Lines(text))
    case Some(e) => Err(e)
    case None => Complete(Collect(Entries(Lines(text))))
  }

  lemma {:induction false} EntriesConcat(a: seq<Text>, b: seq<Text>)
    ensures Entries(a + b) == Entries(a) + Entries(b)
    ensures FirstError(a + b) == if FirstError(a).Some? then FirstError(a) else FirstError(b)
  {
    hide Classify;
    if a == [] {
      assert a + b == b;
    } else {
      var h := if Classify(a[0]).Good? then [Classify(a[0]).entry] else [];
      assert (a + b)[0] == a[0] && (a + b)[1..] == a[1..] + b;
      assert Entries(a + b) == h + Entries(a[1..] + b);
      EntriesConcat(a[1..], b);
      assert Entries(a) == h + Entries(a[1..]);
      Associative(h, Entries(a[1..]), Entries(b));
    }
  }

  lemma {:induction false} ValuesConcat(a: seq<Entry>, b: seq<Entry>, f: Field)
    ensures Values(a + b, f) == Values(a, f) + Values(b, f)
  {
    hide FieldOf;
    if a == [] {
      assert a + b == b;
    } else {
      var h := if FieldOf(a[0].key) == f then [a[0].value] else [];
      assert (a + b)[0] == a[0] && (a + b)[1..] == a[1..] + b;
      assert Values(a + b, f) == h + Values(a[1..] + b, f);
      ValuesConcat(a[1..], b, f);
      assert Values(a, f) == h + Values(a[1..], f);
      Associative(h, Values(a[1..], f), Values(b, f));
    }
  }

  lemma {:induction false} ExtrasConcat(a: seq<Entry>, b: seq<Entry>)
    ensures Extras(a + b) == Extras(a) + Extras(b)
  {
    hide FieldOf;
    if a == [] {
      assert a + b == b;
    } else {
      var h := if FieldOf(a[0].key) == Other then [a[0]] else [];
      assert (a + b)[0] == a[0] && (a + b)[1..] == a[1..] + b;
      assert Extras(a + b) == h + Extras(a[1..] + b);
      ExtrasConcat(a[1..], b);
      assert Extras(a) == h + Extras(a[1..]);
      Associative(h, Extras(a[1..]), Extras(b));
    }
  }

  /** Reading one more entry touches its own field only. */
  lemma OneMore(es: seq<Entry>, e: Entry)
    ensures forall f :: Values(es + [e], f) == if FieldOf(e.key) == f then Values(es, f) + [e.value] else Values(es, f)
    ensures Extras(es + [e]) == if FieldOf(e.key) == Other then Extras(es) + [e] else Extras(es)
  {
    hide FieldOf;
    forall f
      ensures Values(es + [e], f) == if FieldOf(e.key) == f then Values(es, f) + [e.value] else Values(es, f)
    {
      ValuesConcat(es, [e], f);
    }
    ExtrasConcat(es, [e]);
  }

  lemma NothingRead()
    ensures Entries([]) == [] && FirstError([]).None? && Collect([]) == EMPTY
  {
  }

  lemma StepEntries(ls: seq<Text>, i: nat)
    requires i < |ls|
    ensures Entries(ls[..i + 1]) == if Classify(ls[i]).Good? then Entries(ls[..i]) + [Classify(ls[i]).entry] else Entries(ls[..i])
  {
    hide Classify;
    var l := [ls[i]];
    assert l[1..] == [];
    assert ls[..i + 1] == ls[..i] + l;
    EntriesConcat(ls[..i], l);
  }

  lemma StepErrors(ls: seq<Text>, i: nat)
    requires i < |ls| && FirstError(ls[..i]).None?
    ensures Classify(ls[i]).Bad? ==> FirstError(ls) == Some(Classify(ls[i]).error)
    ensures !Classify(ls[i]).Bad? ==> FirstError(ls[..i + 1]).None?
  {
    hide Classify;
    var l := [ls[i]];
    assert l[1..] == [];
    assert ls[..i + 1] == ls[..i] + l;
    EntriesConcat(ls[..i], l);
    assert ls == ls[..i] + ls[i..];
    EntriesConcat(ls[..i], ls[i..]);
  }

  /** How one more entry shows in the record: in the component of its field and nowhere else. */
  lemma CollectMore(es: seq<Entry>, e: Entry)
    ensures var a, b, f, v := Collect(es), Collect(es + [e]), FieldOf(e.key), e.value;
      && b.storePath == (if f == StorePath then v else a.storePath)
      && b.url == (if f == URL then v else a.url)
      && b.compression == (if f == Compression then v else a.compression)
      && b.fileHash == (if f == FileHash then Some(v) else a.fileHash)
      && b.fileSize == (if f == FileSize then ParseU64(v) else a.fileSize)
      && b.narHash == (if f == NarHash then v else a.narHash)
      && (f == NarSize && ParseU64(v).Some? ==> b.narSize == ParseU64(v).value)
      && (f != NarSize ==> b.narSize == a.narSize)
      && b.references == (if f == References then SplitRefs(v) else a.references)
      && b.deriver == (if f == Deriver then Some(v) else a.deriver)
      && b.system == (if f == System then Some(v) else a.system)
      && b.sigs == (if f == Sig then a.sigs + [v] else a.sigs)
      && b.sigPqc == (if f == SigPqc then a.sigPqc + [v] else a.sigPqc)
      && b.extra == (if f == Other then a.extra + [e] else a.extra)
  {
    hide FieldOf, Values, Extras, ParseU64, SplitRefs;
    OneMore(es, e);
  }

  /** Stores one entry into the record collected so far. */
  method StoreEntry(info: NarInfo, e: Entry, ghost es: seq<Entry>) returns (r: Result<NarInfo, ParseError>)
    requires info == Collect(es)
    ensures r == if Numeric(FieldOf(e.key)) && ParseU64(e.value).None? then Err(BadNumber(FieldOf(e.key)))
                 else Ok(Collect(es + [e]))
  {
    hide FieldOf, ParseU64, Split, Collect;
    CollectMore(es, e);
    var value := e.value;
    match FieldOf(e.key) {
      case StorePath => return Ok(info.(storePath := value));
      case URL => return Ok(info.(url := value));
      case Compression => return Ok(info.(compression := value));
      case FileHash => return Ok(info.(fileHash := Some(value)));
      case FileSize =>
        var n := ParseU64(value);
        if n.None? { return Err(BadNumber(FileSize)); }
        return Ok(info.(fileSize := n));
      case NarHash => return Ok(info.(narHash := value));
      case NarSize =>
        var n := ParseU64(value);
        if n.None? { return Err(BadNumber(NarSize)); }
        return Ok(info.(narSize := n.value));
      case References => return Ok(info.(references := if value == "" then [] else Split(value, ' ')));
      case Deriver => return Ok(info.(deriver := Some(value)));
      case System => return Ok(info.(system := Some(value)));
      case Sig => return Ok(info.(sigs := info.sigs + [value]));
      case SigPqc => return Ok(info.(sigPqc := info.sigPqc + [value]));
      case Other => return Ok(info.(extra := info.extra + [e]));
    }
  }

  method Parse(text: Text) returns (r: Result<NarInfo, ParseError>)
    ensures r == Parsed(text)
  {
    hide FieldOf, Lines, Entries, FirstError, Collect, ParseU64, SplitLine, TrimCRs;
    var info := EMPTY;
    var lines := Lines(text);
    NothingRead();
    assert lines[..0] == [];
    for i := 0 to |lines|
      invariant FirstError(lines[..i]).None?
      invariant info == Collect(Entries(lines[..i]))
    {
      StepErrors(lines, i);
      StepEntries(lines, i);
      var line := TrimCRs(lines[i]);
      if line == "" {
        continue;
      }
      var split := SplitLine(line);
      if split.None? {
        return Err(MalformedLine(line));
      }
      var stored := StoreEntry(info, split.value, Entries(lines[..i]));
      if stored.Err? {
        return stored;
      }
      info := stored.value;
    }
    assert lines[..|lines|] == lines;
    if info.storePath == "" {
      return Err(MissingStorePath);
    }
    if info.narHash == "" {
      return Err(MissingNarHash);
    }
    return Ok(info);
  }

  // ----- printing

  function One(f: Field, v: Text): seq<Entry>
    requires f != Other
  {
    [Entry(Name(f), v)]
  }

  function Optional(f: Field, v: Option<Text>): seq<Entry>
    requires f != Other
  {
    if v.Some? then One(f, v.value) else []
  }

  function Tagged(f: Field, vs: seq<Text>): seq<Entry>
    requires f != Other
  {
    seq(|vs|, i requires 0 <= i < |vs| => Entry(Name(f), vs[i]))
  }

  function ShowOption(n: Option<nat>): Option<Text> {
    if n.Some? then Some(Show(n.value)) else None
  }

  function Front(info: NarInfo): seq<Entry> {
    One(StorePath, info.storePath)
    + One(URL, info.url)
    + One(Compression, info.compression)
    + Optional(FileHash, info.fileHash)
    + Optional(FileSize, ShowOption(info.fileSize))
  }

  /** The lines in front of the unknown fields and the signature lists. */
  function Known(info: NarInfo): seq<Entry> {
    Front(info)
    + One(NarHash, info.narHash)
    + One(NarSize, Show(info.narSize))
    + One(References, Join(info.references, ' '))
    + Optional(Deriver, info.deriver)
    + Optional(System, info.system)
  }

  function Fields(info: NarInfo): seq<Entry> {
    Known(info) + info.extra + Tagged(Sig, info.sigs) + Tagged(SigPqc, info.sigPqc)
  }

  function LineText(e: Entry): Text { e.key + ": " + e.value }

  function LineTexts(es: seq<Entry>): seq<Text> {
    seq(|es|, i requires 0 <= i < |es| => LineText(es[i]))
  }

  function Render(es: seq<Entry>): Text { Unlines(LineTexts(es)) }

  function Printed(info: NarInfo): Text { Render(Fields(info)) }

  lemma RenderConcat(a: seq<Entry>, b: seq<Entry>)
    ensures Render(a + b) == Render(a) + Render(b)
  {
    assert LineTexts(a + b) == LineTexts(a) + LineTexts(b);
    UnlinesConcat(LineTexts(a), LineTexts(b));
  }

  lemma RenderNothing()
    ensures Render([]) == ""
  {
    assert LineTexts([]) == [];
  }

  lemma RenderOne(e: Entry)
    ensures Render([e]) == LineText(e) + "\n"
  {
    assert LineTexts([e]) == [LineText(e)];
    assert Unlines([LineText(e)]) == LineText(e) + "\n" + Unlines([]);
  }

  lemma RenderPush(es: seq<Entry>, e: Entry)
    ensures Render(es + [e]) == Render(es) + e.key + ": " + e.value + "\n"
  {
    RenderConcat(es, [e]);
    RenderOne(e);
    assert Render(es) + (LineText(e) + "\n") == Render(es) + e.key + ": " + e.value + "\n";
  }

  /** One `push_str` of a whole line; `es` is what has been printed so far. */
  method PushLine(out: Text, f: Field, value: Text, ghost es: seq<Entry>) returns (out': Text)
    requires f != Other
    requires out == Render(es)
    ensures out' == Render(es + One(f, value))
  {
    RenderPush(es, Entry(Name(f), value));
    out' := out + Name(f) + ": " + value + "\n";
  }

  method PushOptional(out: Text, f: Field, value: Option<Text>, ghost es: seq<Entry>) returns (out': Text)
    requires f != Other
    requires out == Render(es)
    ensures out' == Render(es + Optional(f, value))
  {
    out' := out;
    if value.Some? {
      out' := PushLine(out, f, value.value, es);
    } else {
      assert es + Optional(f, value) == es;
    }
  }

  method PrintKnown(info: NarInfo) returns (out: Text)
    ensures out == Render(Known(info))
  {
    hide Render, Name, Show, Join, One, Optional;
    RenderNothing();
    ghost var es := One(StorePath, info.storePath);
    assert [] + es == es;
    out := PushLine("", StorePath, info.storePath, []);
    out := PushLine(out, URL, info.url, es);
    es := es + One(URL, info.url);
    out := PushLine(out, Compression, info.compression, es);
    es := es + One(Compression, info.compression);
    out := PushOptional(out, FileHash, info.fileHash, es);
    es := es + Optional(FileHash, info.fileHash);
    out := PushOptional(out, FileSize, ShowOption(info.fileSize), es);
    es := Front(info);
    out := PushLine(out, NarHash, info.narHash, es);
    es := es + One(NarHash, info.narHash);
    out := PushLine(out, NarSize, Show(info.narSize), es);
    es := es + One(NarSize, Show(info.narSize));
    out := PushLine(out, References, Join(info.references, ' '), es);
    es := es + One(References, Join(info.references, ' '));
    out := PushOptional(out, Deriver, info.deriver, es);
    es := es + Optional(Deriver, info.deriver);
    out := PushOptional(out, System, info.system, es);
  }

  method ToText(info: NarInfo) returns (out: Text)
    ensures out == Printed(info)
  {
    hide Render, Known, Tagged;
    out := PrintKnown(info);
    var known := Known(info);
    assert known + info.extra[..0] == known;
    for i := 0 to |info.extra|
      invariant out == Render(known + info.extra[..i])
    {
      RenderPush(known + info.extra[..i], info.extra[i]);
      assert known + info.extra[..i + 1] == known + info.extra[..i] + [info.extra[i]];
      out := out + info.extra[i].key + ": " + info.extra[i].value + "\n";
    }
    assert info.extra[..|info.extra|] == info.extra;
    out := PushAll(out, Sig, info.sigs, known + info.extra);
    out := PushAll(out, SigPqc, info.sigPqc, known + info.extra + Tagged(Sig, info.sigs));
  }

  method PushAll(out: Text, f: Field, values: seq<Text>, ghost es: seq<Entry>) returns (out': Text)
    requires f != Other
    requires out == Render(es)
    ensures out' == Render(es + Tagged(f, values))
  {
    hide Render, Name;
    out' := out;
    assert es + Tagged(f, []) == es;
    for i := 0 to |values|
      invariant out' == Render(es + Tagged(f, values[..i]))
    {
      out' := PushLine(out', f, values[i], es + Tagged(f, values[..i]));
      assert es + Tagged(f, values[..i]) + One(f, values[i]) == es + Tagged(f, values[..i + 1]);
    }
    assert values[..|values|] == values;
  }
}
