/** Well-formed UTF-8 (section 4 of RFC 3629), which a body or a file must be before it is
    read as text, and which normalising a document keeps. */
module Utf8 {
  import opened ByteText
  import opened Decimal
  import opened NarInfos
  import opened RoundTrip

  predicate Tail(c: char) { 0x80 <= c as int <= 0xBF }

  predicate ThreeBytes(b: int, c: int) {
    || (b == 0xE0 && 0xA0 <= c <= 0xBF)
    || ((0xE1 <= b <= 0xEC || 0xEE <= b <= 0xEF) && 0x80 <= c <= 0xBF)
    || (b == 0xED && 0x80 <= c <= 0x9F)
  }

  predicate FourBytes(b: int, c: int) {
    || (b == 0xF0 && 0x90 <= c <= 0xBF)
    || (0xF1 <= b <= 0xF3 && 0x80 <= c <= 0xBF)
    || (b == 0xF4 && 0x80 <= c <= 0x8F)
  }

  /** The length of the well-formed sequence in front, 0 if there is none. */
  function Leading(t: Text): (n: nat)
    requires t != ""
    ensures n <= |t|
    ensures forall k :: 1 <= k < n ==> 0x80 <= t[k] as int
  {
    var b := t[0] as int;
    if b < 0x80 then 1
    else if 0xC2 <= b <= 0xDF && |t| >= 2 && Tail(t[1]) then 2
    else if |t| >= 3 && ThreeBytes(b, t[1] as int) && Tail(t[2]) then 3
    else if |t| >= 4 && FourBytes(b, t[1] as int) && Tail(t[2]) && Tail(t[3]) then 4
    else 0
  }

  predicate ValidUtf8(t: Text) {
    t == "" || (Leading(t) > 0 && ValidUtf8(t[Leading(t)..]))
  }

  // ----- the encoding it recognises

  predicate Scalar(cp: int) { 0 <= cp < 0xD800 || 0xE000 <= cp < 0x11_0000 }

  function Unit(b: int): char
    requires 0 <= b < 0x100
  {
    b as char
  }

  function EncodePoint(cp: int): (t: Text)
    requires Scalar(cp)
    ensures t != ""
  {
    if cp < 0x80 then [Unit(cp)]
    else if cp < 0x800 then [Unit(0xC0 + cp / 64), Unit(0x80 + cp % 64)]
    else if cp < 0x1_0000 then [Unit(0xE0 + cp / 4096), Unit(0x80 + cp / 64 % 64), Unit(0x80 + cp % 64)]
    else [Unit(0xF0 + cp / 0x4_0000), Unit(0x80 + cp / 4096 % 64), Unit(0x80 + cp / 64 % 64), Unit(0x80 + cp % 64)]
  }

  function EncodePoints(cps: seq<int>): Text
    requires forall cp :: cp in cps ==> Scalar(cp)
  {
    if cps == [] then "" else EncodePoint(cps[0]) + EncodePoints(cps[1..])
  }

  lemma LeadingOfPoint(cp: int, rest: Text)
    requires Scalar(cp)
    ensures Leading(EncodePoint(cp) + rest) == |EncodePoint(cp)|
  {
    var e := EncodePoint(cp);
    assert forall i :: 0 <= i < |e| ==> (e + rest)[i] == e[i];
  }

  lemma SixBits(q: nat, z: nat)
    requires z < 64
    ensures (q * 64 + z) / 64 == q && (q * 64 + z) % 64 == z
  {
  }

  lemma TwoPoint(t: Text)
    requires t != "" && Leading(t) == 2
    ensures var cp := (t[0] as int - 0xC0) * 64 + (t[1] as int - 0x80);
      Scalar(cp) && EncodePoint(cp) == t[..2]
  {
    SixBits(t[0] as int - 0xC0, t[1] as int - 0x80);
  }

  lemma ThreePoint(t: Text)
    requires t != "" && Leading(t) == 3
    ensures var cp := ((t[0] as int - 0xE0) * 64 + (t[1] as int - 0x80)) * 64 + (t[2] as int - 0x80);
      Scalar(cp) && EncodePoint(cp) == t[..3]
  {
    var x, y, z := t[0] as int - 0xE0, t[1] as int - 0x80, t[2] as int - 0x80;
    var cp := (x * 64 + y) * 64 + z;
    SixBits(x, y);
    SixBits(x * 64 + y, z);
    assert cp / 4096 == x;
    assert 0x800 <= cp < 0x1_0000 && Scalar(cp);
    hide Leading;
    assert [Unit(0xE0 + x), Unit(0x80 + y), Unit(0x80 + z)] == t[..3];
  }

  lemma FourPoint(t: Text)
    requires t != "" && Leading(t) == 4
    ensures var cp := (((t[0] as int - 0xF0) * 64 + (t[1] as int - 0x80)) * 64 + (t[2] as int - 0x80)) * 64 + (t[3] as int - 0x80);
      Scalar(cp) && EncodePoint(cp) == t[..4]
  {
    var w, x, y, z := t[0] as int - 0xF0, t[1] as int - 0x80, t[2] as int - 0x80, t[3] as int - 0x80;
    var cp := ((w * 64 + x) * 64 + y) * 64 + z;
    SixBits(w, x);
    SixBits(w * 64 + x, y);
    SixBits((w * 64 + x) * 64 + y, z);
    assert cp / 0x4_0000 == w && cp / 4096 == w * 64 + x;
    assert 0x1_0000 <= cp < 0x11_0000;
    hide Leading;
    assert [Unit(0xF0 + w), Unit(0x80 + x), Unit(0x80 + y), Unit(0x80 + z)] == t[..4];
  }

  lemma PointOfLeading(t: Text) returns (cp: int)
    requires t != "" && Leading(t) > 0
    ensures Scalar(cp) && EncodePoint(cp) == t[..Leading(t)]
  {
    var n := Leading(t);
    assert n <= 4 by { AtMostFour(t); }
    hide Leading, EncodePoint;
    if n == 1 {
      cp := t[0] as int;
      OnePoint(t);
    } else if n == 2 {
      cp := (t[0] as int - 0xC0) * 64 + (t[1] as int - 0x80);
      TwoPoint(t);
    } else if n == 3 {
      cp := ((t[0] as int - 0xE0) * 64 + (t[1] as int - 0x80)) * 64 + (t[2] as int - 0x80);
      ThreePoint(t);
    } else {
      cp := (((t[0] as int - 0xF0) * 64 + (t[1] as int - 0x80)) * 64 + (t[2] as int - 0x80)) * 64 + (t[3] as int - 0x80);
      FourPoint(t);
    }
  }

  lemma AtMostFour(t: Text)
    requires t != ""
    ensures Leading(t) <= 4
  {
  }

  lemma OnePoint(t: Text)
    requires t != "" && Leading(t) == 1
    ensures Scalar(t[0] as int) && EncodePoint(t[0] as int) == t[..1]
  {
  }

  /** A text is well-formed exactly when it spells some sequence of Unicode scalar values. */
  lemma {:induction false} EncodedIsValid(cps: seq<int>)
    requires forall cp :: cp in cps ==> Scalar(cp)
    ensures ValidUtf8(EncodePoints(cps))
  {
    if cps != [] {
      var t := EncodePoints(cps);
      EncodedIsValid(cps[1..]);
      LeadingOfPoint(cps[0], EncodePoints(cps[1..]));
      hide EncodePoint, Leading;
      assert t[Leading(t)..] == EncodePoints(cps[1..]);
    }
  }

  lemma {:induction false} ValidIsEncoded(t: Text) returns (cps: seq<int>)
    requires ValidUtf8(t)
    ensures forall cp :: cp in cps ==> Scalar(cp)
    ensures EncodePoints(cps) == t
    decreases |t|
  {
    hide EncodePoint, Leading;
    cps := [];
    if t != "" {
      var n := Leading(t);
      var cp := PointOfLeading(t);
      var rest := ValidIsEncoded(t[n..]);
      cps := [cp] + rest;
      assert cps[1..] == rest;
      assert t == t[..n] + t[n..];
    }
  }

  // ----- cutting and joining

  lemma LeadingOfPrefix(a: Text, b: Text)
    requires a != "" && Leading(a) > 0
    ensures Leading(a + b) == Leading(a)
  {
  }

  /** A sequence in front of an ASCII byte ends before it. */
  lemma LeadingBeforeAscii(a: Text, c: char, b: Text)
    requires a != "" && c as int < 0x80 && Leading(a + [c] + b) > 0
    ensures Leading(a + [c] + b) == Leading(a)
  {
    assert (a + [c] + b)[|a|] == c;
  }

  lemma {:induction false} ValidConcat(a: Text, b: Text)
    requires ValidUtf8(a)
    ensures ValidUtf8(a + b) <==> ValidUtf8(b)
    decreases |a|
  {
    hide Leading;
    if a == "" {
      assert a + b == b;
    } else {
      var n := Leading(a);
      LeadingOfPrefix(a, b);
      ValidConcat(a[n..], b);
      assert (a + b)[n..] == a[n..] + b;
    }
  }

  lemma LeadingAscii(t: Text)
    requires t != "" && t[0] as int < 0x80
    ensures Leading(t) == 1
  {
  }

  /** Cutting at an ASCII byte never cuts a character. */
  lemma {:induction false} ValidCut(a: Text, c: char, b: Text)
    requires c as int < 0x80 && ValidUtf8(a + [c] + b)
    ensures ValidUtf8(a) && ValidUtf8(b)
    decreases |a|
  {
    hide Leading;
    var t := a + [c] + b;
    if a == "" {
      assert t[0] == c && Leading(t) == 1 by { LeadingAscii(t); }
      assert t[1..] == b;
    } else {
      var n := Leading(t);
      LeadingBeforeAscii(a, c, b);
      assert t[n..] == a[n..] + [c] + b;
      ValidCut(a[n..], c, b);
    }
  }

  lemma {:induction false} AsciiValid(s: Text)
    requires forall c :: c in s ==> c as int < 0x80
    ensures ValidUtf8(s)
  {
    if s != "" {
      assert s[0] in s && forall c :: c in s[1..] ==> c in s;
      AsciiValid(s[1..]);
    }
  }

  // ----- reading keeps it

  lemma StripValid(s: Text)
    requires ValidUtf8(s)
    ensures ValidUtf8(StripCR(s))
  {
    hide ValidUtf8;
    if s != "" && s[|s| - 1] == '\r' {
      assert s == s[..|s| - 1] + ['\r'] + "";
      ValidCut(s[..|s| - 1], '\r', "");
    }
  }

  lemma {:induction false} TrimValid(s: Text)
    requires ValidUtf8(s)
    ensures ValidUtf8(TrimCRs(s))
  {
    hide ValidUtf8;
    if s != "" && s[|s| - 1] == '\r' {
      assert s == s[..|s| - 1] + ['\r'] + "";
      ValidCut(s[..|s| - 1], '\r', "");
      TrimValid(s[..|s| - 1]);
    }
  }

  lemma {:induction false} LinesValid(t: Text)
    requires ValidUtf8(t)
    ensures forall l :: l in Lines(t) ==> ValidUtf8(l)
    decreases |t|
  {
    hide ValidUtf8, StripCR;
    if t != "" {
      match SplitOnce(t, '\n')
      case None =>
      case Some((l, rest)) =>
        ValidCut(l, '\n', rest);
        StripValid(l);
        LinesValid(rest);
    }
  }

  predicate ValidEntry(e: Entry) { ValidUtf8(e.key) && ValidUtf8(e.value) }

  lemma KeyValueValid(key: Text, value: Text)
    requires ValidUtf8(key + ": " + value)
    ensures ValidUtf8(key) && ValidUtf8(value)
  {
    hide ValidUtf8;
    assert key + ": " + value == key + [':'] + (" " + value);
    ValidCut(key, ':', " " + value);
    assert " " + value == "" + [' '] + value;
    ValidCut("", ' ', value);
  }

  lemma KeyValid(key: Text)
    requires ValidUtf8(key + ":")
    ensures ValidUtf8(key) && ValidUtf8("")
  {
    hide ValidUtf8;
    assert key + ":" == key + [':'] + "";
    ValidCut(key, ':', "");
  }

  lemma SplitLineValid(line: Text)
    requires ValidUtf8(line) && SplitLine(line).Some?
    ensures ValidEntry(SplitLine(line).value)
  {
    hide ValidUtf8, SplitLine, NoSep;
    var e := SplitLine(line).value;
    if line == e.key + ": " + e.value {
      KeyValueValid(e.key, e.value);
    } else {
      KeyValid(e.key);
    }
  }

  lemma {:induction false} EntriesValid(ls: seq<Text>)
    requires forall l :: l in ls ==> ValidUtf8(l)
    ensures forall e :: e in Entries(ls) ==> ValidEntry(e)
  {
    hide ValidUtf8, SplitLine, TrimCRs, FieldOf, ParseU64, ValidEntry;
    if ls != [] {
      EntriesValid(ls[1..]);
      if Classify(ls[0]).Good? {
        TrimValid(ls[0]);
        SplitLineValid(TrimCRs(ls[0]));
      }
    }
  }

  lemma {:induction false} ValuesValid(es: seq<Entry>, f: Field)
    requires forall e :: e in es ==> ValidEntry(e)
    ensures forall v :: v in Values(es, f) ==> ValidUtf8(v)
  {
    hide ValidUtf8, FieldOf;
    if es != [] {
      assert ValidEntry(es[0]);
      ValuesValid(es[1..], f);
    }
  }

  lemma {:induction false} ExtrasValid(es: seq<Entry>)
    requires forall e :: e in es ==> ValidEntry(e)
    ensures forall e :: e in Extras(es) ==> ValidEntry(e)
  {
    hide ValidEntry, FieldOf;
    if es != [] { ExtrasValid(es[1..]); }
  }

  predicate OptionalValid(v: Option<Text>) { v.Some? ==> ValidUtf8(v.value) }

  /** Every text in the record is well-formed. */
  predicate ValidInfo(info: NarInfo) {
    && ValidUtf8(info.storePath) && ValidUtf8(info.url) && ValidUtf8(info.compression)
    && OptionalValid(info.fileHash) && ValidUtf8(info.narHash)
    && ValidUtf8(Join(info.references, ' '))
    && OptionalValid(info.deriver) && OptionalValid(info.system)
    && (forall s :: s in info.sigs ==> ValidUtf8(s))
    && (forall s :: s in info.sigPqc ==> ValidUtf8(s))
    && (forall e :: e in info.extra ==> ValidEntry(e))
  }

  lemma JoinSplitRefs(value: Text)
    ensures Join(SplitRefs(value), ' ') == value
  {
    JoinSplit(value, ' ');
  }

  lemma CollectValid(es: seq<Entry>)
    requires forall e :: e in es ==> ValidEntry(e)
    ensures ValidInfo(Collect(es))
  {
    hide ValidUtf8, ValidEntry, Values, Extras, ParseU64, SplitRefs, Join;
    AsciiValid("");
    forall f: Field
      ensures forall v :: v in Values(es, f) ==> ValidUtf8(v)
    {
      ValuesValid(es, f);
    }
    ExtrasValid(es);
    JoinSplitRefs(LastText(Values(es, References)));
  }

  lemma ParsedValid(text: Text)
    requires ValidUtf8(text) && Parsed(text).Ok?
    ensures ValidInfo(Parsed(text).value)
  {
    hide ValidUtf8, ValidEntry, Lines, Entries, FirstError, Collect, ValidInfo;
    LinesValid(text);
    EntriesValid(Lines(text));
    CollectValid(Entries(Lines(text)));
  }

  // ----- printing keeps it

  lemma {:induction false} UnlinesValid(ls: seq<Text>)
    requires forall l :: l in ls ==> ValidUtf8(l)
    ensures ValidUtf8(Unlines(ls))
  {
    AsciiValid("");
    AsciiValid("\n");
    hide ValidUtf8;
    if ls != [] {
      assert ls[0] in ls;
      UnlinesValid(ls[1..]);
      ValidConcat(ls[0], "\n");
      ValidConcat(ls[0] + "\n", Unlines(ls[1..]));
    }
  }

  lemma LineTextValid(e: Entry)
    requires ValidEntry(e)
    ensures ValidUtf8(LineText(e))
  {
    AsciiValid(": ");
    hide ValidUtf8;
    ValidConcat(e.key, ": ");
    ValidConcat(e.key + ": ", e.value);
  }

  lemma NameValid(f: Field)
    requires f != Other
    ensures ValidUtf8(Name(f))
  {
    AsciiValid(Name(f));
  }

  lemma ShowValid(n: nat)
    ensures ValidUtf8(Show(n))
  {
    assert AllDigits(Show(n));
    AsciiValid(Show(n));
  }

  lemma KnownValid(info: NarInfo)
    requires ValidInfo(info)
    ensures forall e :: e in Known(info) ==> ValidEntry(e)
  {
    hide ValidUtf8, Name, Show, Join;
    forall f: Field | f != Other
      ensures ValidUtf8(Name(f))
    {
      NameValid(f);
    }
    ShowValid(info.narSize);
    if info.fileSize.Some? { ShowValid(info.fileSize.value); }
  }

  lemma PrintedValid(info: NarInfo)
    requires ValidInfo(info)
    ensures ValidUtf8(Printed(info))
  {
    hide ValidUtf8, Name, Known, LineText, Unlines;
    KnownValid(info);
    NameValid(Sig);
    NameValid(SigPqc);
    forall l | l in LineTexts(Fields(info))
      ensures ValidUtf8(l)
    {
      var i :| 0 <= i < |Fields(info)| && l == LineText(Fields(info)[i]);
      assert ValidEntry(Fields(info)[i]);
      LineTextValid(Fields(info)[i]);
    }
    UnlinesValid(LineTexts(Fields(info)));
  }

  /** A record that some document is read as. */
  ghost predicate Document(info: NarInfo) { WellFormed(info) && ValidInfo(info) }

  /** The documents' records, exactly: the well-formed ones all of whose texts are UTF-8. */
  lemma DocumentExactly(info: NarInfo)
    ensures Document(info) <==> exists text :: ValidUtf8(text) && Parsed(text) == Ok(info)
  {
    hide ValidUtf8, Parsed, WellFormed, ValidInfo, Printed;
    if Document(info) {
      PrintThenParse(info);
      PrintedValid(info);
    }
    forall text | ValidUtf8(text) && Parsed(text) == Ok(info)
      ensures Document(info)
    {
      ParsedWellFormed(text);
      ParsedValid(text);
    }
  }
}
