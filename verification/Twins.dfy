/** What the fingerprint cannot tell apart: records, and documents, that are signed by the same
    text although their references differ. */
module Twins {
  import opened ByteText
  import opened Decimal
  import opened NarInfos
  import opened RoundTrip
  import opened Utf8
  import opened Fingerprints

  lemma SortedOne(x: Text)
    ensures Sorted([x]) == [x]
  {
    assert [x][..0] == [];
  }

  lemma SortedTwo(x: Text, y: Text)
    requires Le(x, y)
    ensures Sorted([x, y]) == [x, y]
  {
    hide Le;
    SortedOne(x);
    assert [x, y][..1] == [x];
  }

  lemma StoreDirOfPath(info: NarInfo, refs: seq<Text>)
    ensures StoreDir(info.(references := refs)) == StoreDir(info)
  {
  }

  lemma {:induction false} LeExtend(a: Text, b: Text, z: Text)
    requires Le(a, b)
    ensures Le(a, b + z)
  {
    if a != "" && a[0] == b[0] {
      assert (b + z)[1..] == b[1..] + z;
      LeExtend(a[1..], b[1..], z);
    }
  }

  /** The other references stand for the same signed text. */
  predicate Confused(info: NarInfo, refs: seq<Text>) {
    FingerprintOf(info.(references := refs)) == FingerprintOf(info) && multiset(refs) != multiset(info.references)
  }

  lemma SameRefsText(info: NarInfo, refs: seq<Text>)
    requires StoreDir(info).Some?
    ensures var dir := StoreDir(info).value;
      FingerprintOf(info.(references := refs)) == FingerprintOf(info) <==>
        Join(Qualified(dir, Sorted(refs)), ',') == Join(Qualified(dir, Sorted(info.references)), ',')
  {
    StoreDirOfPath(info, refs);
    hide Join, Qualified, Sorted, Show, StoreDir;
    var dir := StoreDir(info).value;
    SamePrefix("1;" + info.storePath + ";" + info.narHash + ";" + Show(info.narSize) + ";",
               Join(Qualified(dir, Sorted(refs)), ','), Join(Qualified(dir, Sorted(info.references)), ','));
  }

  /** One reference that can be cut in two signs like the two, if they come out in order. */
  lemma CommaIsAmbiguous(info: NarInfo, x: Text, y: Text)
    requires StoreDir(info).Some? && Le(x, y)
    ensures var joined := x + Cut(StoreDir(info).value) + y;
      Confused(info.(references := [joined]), [x, y])
  {
    var dir := StoreDir(info).value;
    var joined := x + Cut(dir) + y;
    StoreDirOfPath(info, [joined]);
    SortedOne(joined);
    SortedTwo(x, y);
    assert [x, y][1..] == [y] && Packed(dir, [x, y]) == joined == Packed(dir, [joined]);
    hide Le, StoreDir, Packed, Sorted, Qualified, Join, FingerprintOf;
    JoinsArePacks(dir, [joined], [x, y]);
    SameRefsText(info.(references := [joined]), [x, y]);
    assert |multiset([joined])| == 1 && |multiset([x, y])| == 2;
  }

  /** Two or more references sign like a single one that spells all of them. */
  lemma SeveralAreOne(info: NarInfo)
    requires StoreDir(info).Some? && |info.references| >= 2
    ensures Confused(info, [Packed(StoreDir(info).value, Sorted(info.references))])
  {
    var dir, s := StoreDir(info).value, Sorted(info.references);
    SortedLength(info.references);
    var one := [Packed(dir, s)];
    assert Packed(dir, one) == Packed(dir, s);
    SortedOne(one[0]);
    hide StoreDir, Packed, Sorted, Qualified, Join, FingerprintOf;
    JoinsArePacks(dir, one, s);
    SameRefsText(info, one);
    assert |multiset(one)| == 1 && |multiset(info.references)| == |info.references|;
  }

  /** An ordered list of several is, as text, its first element in front of something not
      smaller. */
  lemma OrderedCut(dir: Text, s: seq<Text>) returns (y: Text)
    requires Ordered(s) && |s| >= 2
    ensures Packed(dir, s) == s[0] + Cut(dir) + y && Le(s[0], y)
  {
    hide Le;
    y := Packed(dir, s[1..]);
    var z := if |s| > 2 then Cut(dir) + Packed(dir, s[1..][1..]) else "";
    assert y == s[1] + z;
    assert Le(s[0], s[1]);
    LeExtend(s[0], s[1], z);
  }

  /** Whatever else signs like a single reference cuts it in two. */
  lemma OneIsCut(info: NarInfo, refs: seq<Text>) returns (x: Text, y: Text)
    requires StoreDir(info).Some? && |info.references| == 1 && Confused(info, refs)
    ensures info.references[0] == x + Cut(StoreDir(info).value) + y && Le(x, y)
  {
    var dir, s, one := StoreDir(info).value, Sorted(refs), info.references;
    assert one == [one[0]];
    SortedOne(one[0]);
    assert Packed(dir, one) == one[0];
    hide StoreDir, Sorted, Qualified, Join, FingerprintOf, Le, Packed, Ordered, Cut;
    SameRefsText(info, refs);
    SortedCanonical(refs, one);
    SortedSorts(refs);
    JoinNothingElse(dir, s);
    JoinNothingElse(dir, one);
    JoinsArePacks(dir, s, one);
    PackedOne(dir, s);
    x := s[0];
    y := OrderedCut(dir, s);
  }

  lemma PackedOne(dir: Text, s: seq<Text>)
    requires s != []
    ensures |s| == 1 ==> s == [Packed(dir, s)]
  {
  }

  /** When a record has a twin in memory, read from a document or not: other references with which it is signed by the same text.
      Several references always do, no reference never does, and a single one exactly if it can
      be cut, at a comma followed by the store directory and a slash, into two in order. */
  lemma TwinExactly(info: NarInfo)
    requires StoreDir(info).Some?
    ensures (exists refs :: Confused(info, refs)) <==>
      || |info.references| >= 2
      || (|info.references| == 1
          && exists x, y :: info.references[0] == x + Cut(StoreDir(info).value) + y && Le(x, y))
  {
    hide StoreDir, Le, Confused, FingerprintOf, Packed, Sorted;
    if |info.references| >= 2 {
      SeveralAreOne(info);
    } else if |info.references| == 1 {
      if refs :| Confused(info, refs) {
        var x, y := OneIsCut(info, refs);
      }
      forall x, y | info.references[0] == x + Cut(StoreDir(info).value) + y && Le(x, y)
        ensures Confused(info, [x, y])
      {
        assert info.references == [info.references[0]];
        assert info.(references := [info.references[0]]) == info;
        CommaIsAmbiguous(info, x, y);
      }
    } else {
      forall refs
        ensures !Confused(info, refs)
      {
        NoneIsAlone(info, refs);
      }
    }
  }

  lemma NoneIsAlone(info: NarInfo, refs: seq<Text>)
    requires StoreDir(info).Some? && info.references == []
    ensures !Confused(info, refs)
  {
    var dir := StoreDir(info).value;
    hide StoreDir, FingerprintOf, Qualified, Join;
    SameRefsText(info, refs);
    SortedLength(refs);
    JoinNothingElse(dir, Sorted(refs));
    JoinNothingElse(dir, Sorted([]));
  }

  // ----- twins that can be read from a document

  lemma SpacedHead(cut: Text, a: Text, x: Text, b: Text, y: Text)
    requires a + cut + x == b + cut + y && ' ' in cut && ' ' !in a && ' ' !in b
    ensures a == b && x == y
  {
    var s, t, o := a + cut + x, b + cut + y, FindChar(cut, ' ').value;
    assert s[|a| + o] == ' ' && t[|b| + o] == ' ';
    assert forall q :: 0 <= q < |a| + o ==> s[q] == if q < |a| then a[q] else cut[q - |a|];
    assert forall q :: 0 <= q < |b| + o ==> t[q] == if q < |b| then b[q] else cut[q - |b|];
    assert |a| == |b|;
    assert a == s[..|a|] && b == t[..|b|] && x == s[|a| + |cut|..] && y == t[|b| + |cut|..];
  }

  predicate SpaceFree(refs: seq<Text>) { forall r :: r in refs ==> ' ' !in r }

  /** A space in the store directory marks every place where a path begins. */
  lemma {:induction false} SpacedPacked(dir: Text, s: seq<Text>, t: seq<Text>)
    requires ' ' in dir && s != [] && t != [] && SpaceFree(s) && SpaceFree(t)
    requires Packed(dir, s) == Packed(dir, t)
    ensures s == t
  {
    assert s[0] in s && t[0] in t && ' ' in Cut(dir);
    assert |s| > 1 ==> ' ' in Packed(dir, s);
    assert |t| > 1 ==> ' ' in Packed(dir, t);
    if |s| > 1 && |t| > 1 {
      SpacedHead(Cut(dir), s[0], Packed(dir, s[1..]), t[0], Packed(dir, t[1..]));
      SpacedPacked(dir, s[1..], t[1..]);
      assert s == [s[0]] + s[1..] && t == [t[0]] + t[1..];
    } else if |s| == 1 && |t| == 1 {
      assert s == [s[0]] && t == [t[0]];
    }
  }

  lemma SpaceFreeSorted(refs: seq<Text>)
    requires SpaceFree(refs)
    ensures SpaceFree(Sorted(refs))
  {
    hide Sorted;
    SortedMembers(refs);
  }

  /** References read from a document hold no space, so in a store directory that has one they
      cannot be confused, whatever else they hold. */
  lemma SpacedIsFaithful(info: NarInfo, refs: seq<Text>)
    requires StoreDir(info).Some? && ' ' in StoreDir(info).value
    requires SpaceFree(info.references) && SpaceFree(refs)
    ensures !Confused(info, refs)
  {
    hide StoreDir, FingerprintOf, Sorted, Packed, Qualified, Join, SpaceFree;
    var dir, s, t := StoreDir(info).value, Sorted(refs), Sorted(info.references);
    SameRefsText(info, refs);
    SortedCanonical(refs, info.references);
    SpaceFreeSorted(refs);
    SpaceFreeSorted(info.references);
    JoinNothingElse(dir, s);
    JoinNothingElse(dir, t);
    if s != [] && t != [] {
      JoinsArePacks(dir, s, t);
      if Packed(dir, s) == Packed(dir, t) { SpacedPacked(dir, s, t); }
    }
  }

  lemma {:induction false} PackedPlain(dir: Text, s: seq<Text>)
    requires s != [] && ' ' !in dir && '\n' !in dir && ValidUtf8(dir)
    requires forall r :: r in s ==> ' ' !in r && '\n' !in r && ValidUtf8(r)
    ensures ' ' !in Packed(dir, s) && '\n' !in Packed(dir, s) && ValidUtf8(Packed(dir, s))
    ensures |s| >= 2 ==> Packed(dir, s) != ""
    ensures LineEnd(s[|s| - 1]) ==> LineEnd(Packed(dir, s))
  {
    hide ValidUtf8;
    assert s[0] in s;
    if |s| > 1 {
      var rest := Packed(dir, s[1..]);
      PackedPlain(dir, s[1..]);
      CutValid(dir);
      ValidConcat(s[0], Cut(dir));
      ValidConcat(s[0] + Cut(dir), rest);
      assert s[1..][|s[1..]| - 1] == s[|s| - 1];
      var p := s[0] + Cut(dir) + rest;
      assert p[|p| - 1] == if rest == "" then '/' else rest[|rest| - 1];
    }
  }

  lemma CutValid(dir: Text)
    requires ValidUtf8(dir)
    ensures ValidUtf8(Cut(dir))
  {
    hide ValidUtf8;
    AsciiValid(",");
    AsciiValid("/");
    ValidConcat(",", dir);
    ValidConcat("," + dir, "/");
  }

  lemma {:induction false} JoinedValid(refs: seq<Text>)
    requires ValidUtf8(Join(refs, ' '))
    ensures forall r :: r in refs ==> ValidUtf8(r)
  {
    hide ValidUtf8;
    if |refs| == 1 {
      assert refs == [refs[0]];
    } else if |refs| > 1 {
      ValidCut(refs[0], ' ', Join(refs[1..], ' '));
      JoinedValid(refs[1..]);
      assert refs == [refs[0]] + refs[1..];
    }
  }

  lemma DirPlain(info: NarInfo)
    requires StoreDir(info).Some? && ValidUtf8(info.storePath) && '\n' !in info.storePath
    ensures ValidUtf8(StoreDir(info).value) && '\n' !in StoreDir(info).value
  {
    hide ValidUtf8;
    var path, i := info.storePath, FindLast(info.storePath, '/').value;
    assert path == path[..i] + ['/'] + path[i + 1..];
    ValidCut(path[..i], '/', path[i + 1..]);
  }

  lemma OtherRefs(info: NarInfo, refs: seq<Text>)
    requires Document(info) && RefsOk(refs) && ValidUtf8(Join(refs, ' '))
    ensures Document(info.(references := refs))
  {
    hide ValidUtf8, RefsOk, Join, LineEnd, ExtraOk, OptionalLineEnd, OptionalValid, ValidEntry;
  }

  lemma DocumentRefs(info: NarInfo)
    requires Document(info)
    ensures RefsOk(info.references) && SpaceFree(info.references) && ValidUtf8(Join(info.references, ' '))
    ensures ValidUtf8(info.storePath) && '\n' !in info.storePath
  {
    hide ValidUtf8, Join, ExtraOk, OptionalLineEnd, OptionalValid, ValidEntry;
  }

  /** The greatest reference in byte order can stand at the end of a line. */
  predicate GreatestEndsLine(refs: seq<Text>) {
    var s := Sorted(refs);
    s != [] ==> LineEnd(s[|s| - 1])
  }

  /** The single reference that spells several can be read from a document. */
  lemma SeveralTwin(info: NarInfo)
    requires Document(info) && StoreDir(info).Some? && ' ' !in StoreDir(info).value
    requires |info.references| >= 2 && GreatestEndsLine(info.references)
    ensures Document(info.(references := [Packed(StoreDir(info).value, Sorted(info.references))]))
  {
    hide ValidUtf8, Join, StoreDir, Sorted, Packed, Document, LineEnd;
    var dir, s := StoreDir(info).value, Sorted(info.references);
    DocumentRefs(info);
    DirPlain(info);
    JoinedValid(info.references);
    SortedMembers(info.references);
    SortedLength(info.references);
    PackedPlain(dir, s);
    var z := Packed(dir, s);
    assert Join([z], ' ') == z by { JoinOne(z); }
    OtherRefs(info, [z]);
  }

  lemma JoinOne(z: Text)
    ensures Join([z], ' ') == z
  {
  }

  /** The two references a single one can be cut into can be read from a document. */
  lemma CutTwin(info: NarInfo, x: Text, y: Text)
    requires Document(info) && StoreDir(info).Some?
    requires |info.references| == 1 && info.references[0] == x + Cut(StoreDir(info).value) + y
    ensures Document(info.(references := [x, y]))
  {
    hide ValidUtf8, StoreDir, Document;
    var dir, r := StoreDir(info).value, info.references[0];
    DocumentRefs(info);
    JoinedValid(info.references);
    assert r in info.references && r == x + [','] + (dir + ['/'] + y);
    ValidCut(x, ',', dir + ['/'] + y);
    ValidCut(dir, '/', y);
    assert forall c :: c in x || c in y ==> c in r;
    assert y != "" ==> y[|y| - 1] == r[|r| - 1];
    AsciiValid(" ");
    ValidConcat(x, " ");
    ValidConcat(x + " ", y);
    assert [x, y][1..] == [y] && Join([x, y], ' ') == x + " " + y;
    OtherRefs(info, [x, y]);
  }

  /** When a document has a twin, another document that differs in the references and has the
      same fingerprint: if the store directory holds no space, under the same conditions as
      above; if it does, never. The case left open is that the reference greatest in byte order,
      of several, ends in a carriage return, which cannot end a line. */
  lemma DocumentTwinExactly(info: NarInfo)
    requires Document(info) && StoreDir(info).Some?
    requires GreatestEndsLine(info.references)
    ensures (exists refs :: Document(info.(references := refs)) && Confused(info, refs)) <==>
      && ' ' !in StoreDir(info).value
      && (|| |info.references| >= 2
          || (|info.references| == 1
              && exists x, y :: info.references[0] == x + Cut(StoreDir(info).value) + y && Le(x, y)))
  {
    hide StoreDir, Le, Confused, Packed, Sorted, Document, LineEnd;
    DocumentRefs(info);
    TwinExactly(info);
    if ' ' in StoreDir(info).value {
      forall refs | Document(info.(references := refs))
        ensures !Confused(info, refs)
      {
        DocumentRefs(info.(references := refs));
        SpacedIsFaithful(info, refs);
      }
    } else if |info.references| >= 2 {
      SeveralTwin(info);
      SeveralAreOne(info);
    } else if |info.references| == 1 {
      forall x, y | info.references[0] == x + Cut(StoreDir(info).value) + y && Le(x, y)
        ensures Document(info.(references := [x, y])) && Confused(info, [x, y])
      {
        CutTwin(info, x, y);
        assert info.references == [info.references[0]];
        assert info.(references := [info.references[0]]) == info;
        CommaIsAmbiguous(info, x, y);
      }
    }
  }
}
