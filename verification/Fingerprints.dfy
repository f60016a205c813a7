/** The text that is signed: `1;<store path>;<nar hash>;<nar size>;<sorted references>`. */
module Fingerprints {
  import opened ByteText
  import opened Decimal
  import opened NarInfos

  // ----- byte order on texts

  predicate Le(a: Text, b: Text) {
    a == "" || (b != "" && (a[0] < b[0] || (a[0] == b[0] && Le(a[1..], b[1..]))))
  }

  lemma {:induction false} LeTotal(a: Text, b: Text)
    ensures Le(a, b) || Le(b, a)
  {
    if a != "" && b != "" { LeTotal(a[1..], b[1..]); }
  }

  lemma {:induction false} LeAntisymmetric(a: Text, b: Text)
    requires Le(a, b) && Le(b, a)
    ensures a == b
  {
    if a != "" {
      LeAntisymmetric(a[1..], b[1..]);
      assert a == [a[0]] + a[1..] && b == [b[0]] + b[1..];
    }
  }

  lemma {:induction false} LeTransitive(a: Text, b: Text, c: Text)
    requires Le(a, b) && Le(b, c)
    ensures Le(a, c)
  {
    if a != "" && a[0] == b[0] == c[0] { LeTransitive(a[1..], b[1..], c[1..]); }
  }

  /** A common prefix does not change the order. */
  lemma {:induction false} LePrefix(p: Text, a: Text, b: Text)
    ensures Le(p + a, p + b) <==> Le(a, b)
  {
    if p == "" {
      assert p + a == a && p + b == b;
    } else {
      LePrefix(p[1..], a, b);
      assert (p + a)[1..] == p[1..] + a && (p + b)[1..] == p[1..] + b;
    }
  }

  /** The order is the ascending order of the bytes at the first difference, a prefix coming
      first. */
  lemma {:induction false} LeExactly(a: Text, b: Text)
    ensures Le(a, b) <==> a <= b || exists k :: 0 <= k < |a| && k < |b| && a[..k] == b[..k] && a[k] < b[k]
  {
    if a != "" && b != "" {
      if a[0] == b[0] {
        LeExactly(a[1..], b[1..]);
        assert a <= b <==> a[1..] <= b[1..];
      } else {
        assert a[..0] == b[..0];
      }
      forall k | 0 <= k < |a| && k < |b| && a[..k] == b[..k] && a[k] < b[k]
        ensures if k == 0 then a[0] < b[0] else a[0] == b[0] && a[1..][..k - 1] == b[1..][..k - 1] && a[1..][k - 1] < b[1..][k - 1]
      {
        if k > 0 { assert a[0] == a[..k][0] && a[1..][..k - 1] == a[..k][1..] && b[1..][..k - 1] == b[..k][1..]; }
      }
      forall k | 0 <= k < |a| - 1 && k < |b| - 1 && a[0] == b[0] && a[1..][..k] == b[1..][..k] && a[1..][k] < b[1..][k]
        ensures a[..k + 1] == b[..k + 1] && a[k + 1] < b[k + 1]
      {
        assert a[..k + 1] == [a[0]] + a[1..][..k] && b[..k + 1] == [b[0]] + b[1..][..k];
      }
    }
  }

  ghost predicate Ordered(s: seq<Text>) { forall i, j :: 0 <= i < j < |s| ==> Le(s[i], s[j]) }

  // ----- sorting

  function Insert(s: seq<Text>, x: Text): seq<Text> {
    if s == [] || Le(s[|s| - 1], x) then s + [x]
    else Insert(s[..|s| - 1], x) + [s[|s| - 1]]
  }

  function Sorted(s: seq<Text>): seq<Text> {
    if s == [] then [] else Insert(Sorted(s[..|s| - 1]), s[|s| - 1])
  }

  lemma {:induction false} InsertKeeps(s: seq<Text>, x: Text)
    requires Ordered(s)
    ensures multiset(Insert(s, x)) == multiset(s) + multiset{x}
    ensures Ordered(Insert(s, x))
  {
    hide Le;
    if s != [] {
      var n := |s| - 1;
      var init, last := s[..n], s[n];
      assert s == init + [last];
      if Le(last, x) {
        forall i | 0 <= i < n
          ensures Le(s[i], x)
        {
          LeTransitive(s[i], last, x);
        }
      } else {
        LeTotal(last, x);
        InsertKeeps(init, x);
        var t := Insert(init, x);
        forall i | 0 <= i < |t|
          ensures Le(t[i], last)
        {
          assert t[i] in multiset(t);
          assert t[i] == x || t[i] in init;
        }
      }
    }
  }

  lemma {:induction false} SortedSorts(s: seq<Text>)
    ensures Ordered(Sorted(s)) && multiset(Sorted(s)) == multiset(s)
  {
    if s != [] {
      SortedSorts(s[..|s| - 1]);
      InsertKeeps(Sorted(s[..|s| - 1]), s[|s| - 1]);
      assert s == s[..|s| - 1] + [s[|s| - 1]];
    }
  }

  lemma LastIsGreatest(s: seq<Text>, x: Text)
    requires Ordered(s) && x in s
    ensures Le(x, s[|s| - 1])
  {
    hide Le;
    var i :| 0 <= i < |s| && s[i] == x;
    LeTotal(x, x);
  }

  lemma OrderedInit(s: seq<Text>)
    requires Ordered(s) && s != []
    ensures Ordered(s[..|s| - 1])
  {
    hide Le;
  }

  lemma MultisetInit(s: seq<Text>)
    requires s != []
    ensures multiset(s[..|s| - 1]) == multiset(s) - multiset{s[|s| - 1]}
    ensures s[|s| - 1] in multiset(s)
  {
    assert s == s[..|s| - 1] + [s[|s| - 1]];
  }

  lemma SameLast(s: seq<Text>, t: seq<Text>)
    requires Ordered(s) && Ordered(t) && multiset(s) == multiset(t) && s != [] && t != []
    ensures s[|s| - 1] == t[|t| - 1]
  {
    hide Le, Ordered;
    MultisetInit(s);
    MultisetInit(t);
    assert s[|s| - 1] in t && t[|t| - 1] in s;
    LastIsGreatest(t, s[|s| - 1]);
    LastIsGreatest(s, t[|t| - 1]);
    LeAntisymmetric(s[|s| - 1], t[|t| - 1]);
  }

  /** There is one ordered arrangement of a multiset: whatever sorting algorithm the library
      uses, it returns this one. */
  lemma {:induction false} OrderedUnique(s: seq<Text>, t: seq<Text>)
    requires Ordered(s) && Ordered(t) && multiset(s) == multiset(t)
    ensures s == t
  {
    hide Le, Ordered;
    assert |s| == |multiset(s)| == |multiset(t)| == |t|;
    if s != [] {
      var n := |s| - 1;
      SameLast(s, t);
      MultisetInit(s);
      MultisetInit(t);
      OrderedInit(s);
      OrderedInit(t);
      OrderedUnique(s[..n], t[..n]);
      assert s == s[..n] + [s[n]] && t == t[..n] + [t[n]];
    }
  }

  lemma SortedCanonical(s: seq<Text>, t: seq<Text>)
    ensures Sorted(s) == Sorted(t) <==> multiset(s) == multiset(t)
  {
    SortedSorts(s);
    SortedSorts(t);
    if multiset(s) == multiset(t) { OrderedUnique(Sorted(s), Sorted(t)); }
  }

  lemma InsertStep(s: seq<Text>, n: nat, j: nat, x: Text)
    requires 0 < j <= n <= |s| && !Le(s[j - 1], x)
    requires Insert(s[..n], x) == Insert(s[..j], x) + s[j..n]
    ensures Insert(s[..n], x) == Insert(s[..j - 1], x) + s[j - 1..n]
  {
    hide Le;
    assert s[..j][..j - 1] == s[..j - 1];
    assert Insert(s[..j], x) == Insert(s[..j - 1], x) + [s[j - 1]];
    assert s[j - 1..n] == [s[j - 1]] + s[j..n];
  }

  lemma Shifted(s: seq<Text>, t: seq<Text>, j: nat, n: nat)
    requires j <= n < |s| == |t|
    requires forall k :: 0 <= k < j ==> t[k] == s[k]
    requires forall k :: j < k <= n ==> t[k] == s[k - 1]
    requires forall k :: n < k < |s| ==> t[k] == s[k]
    ensures t == s[..j] + [t[j]] + s[j..n] + s[n + 1..]
  {
  }

  /** Sinks element `n` into the sorted part in front of it. */
  method Sink(a: array<Text>, n: nat)
    requires n < a.Length
    modifies a
    ensures a[..] == Insert(old(a[..])[..n], old(a[n])) + old(a[..])[n + 1..]
  {
    hide Le, Insert;
    ghost var s := a[..];
    var x, j := a[n], n;
    assert s[n..n] == [] && Insert(s[..n], x) + [] == Insert(s[..n], x);
    while j > 0 && !Le(a[j - 1], x)
      invariant 0 <= j <= n
      invariant forall k :: 0 <= k < j ==> a[k] == s[k]
      invariant forall k :: j < k <= n ==> a[k] == s[k - 1]
      invariant forall k :: n < k < a.Length ==> a[k] == s[k]
      invariant Insert(s[..n], x) == Insert(s[..j], x) + s[j..n]
    {
      InsertStep(s, n, j, x);
      a[j] := a[j - 1];
      j := j - 1;
    }
    a[j] := x;
    assert Insert(s[..j], x) == s[..j] + [x] by { InsertHere(s[..j], x); }
    Shifted(s, a[..], j, n);
  }

  lemma InsertHere(s: seq<Text>, x: Text)
    requires s != [] ==> Le(s[|s| - 1], x)
    ensures Insert(s, x) == s + [x]
  {
  }

  lemma SortedLength(s: seq<Text>)
    ensures |Sorted(s)| == |s|
  {
    SortedSorts(s);
    assert |Sorted(s)| == |multiset(Sorted(s))| == |multiset(s)|;
  }

  lemma CutAt(d: seq<Text>, r: seq<Text>)
    ensures (d + r)[..|d|] == d
    ensures r != [] ==> (d + r)[|d|] == r[0] && (d + r)[|d| + 1..] == r[1..]
  {
  }

  /** Sinking the next element extends the sorted part by it. */
  lemma SortStep(s: seq<Text>, t: seq<Text>, n: nat)
    requires n < |s| && t == Sorted(s[..n]) + s[n..]
    ensures n < |t| && Insert(t[..n], t[n]) + t[n + 1..] == Sorted(s[..n + 1]) + s[n + 1..]
  {
    hide Le, Insert;
    SortedLength(s[..n]);
    CutAt(Sorted(s[..n]), s[n..]);
    assert s[n..][0] == s[n] && s[n..][1..] == s[n + 1..];
    assert s[..n + 1][..n] == s[..n] && s[..n + 1][n] == s[n];
    assert Sorted(s[..n + 1]) == Insert(Sorted(s[..n]), s[n]);
  }

  method SortInPlace(a: array<Text>)
    modifies a
    ensures a[..] == Sorted(old(a[..]))
  {
    hide Le, Insert, Sorted;
    ghost var s := a[..];
    assert s[..0] == [] && s[0..] == s && Sorted([]) + s == s by { SortedNothing(); }
    for n := 0 to a.Length
      invariant a[..] == Sorted(s[..n]) + s[n..]
    {
      SortStep(s, a[..], n);
      Sink(a, n);
    }
    assert s[..a.Length] == s && s[a.Length..] == [] && Sorted(s) + [] == Sorted(s);
  }

  lemma SortedNothing()
    ensures Sorted([]) == []
  {
  }

  // ----- the fingerprint

  function FindLast(s: Text, c: char): (r: Option<nat>)
    ensures r.Some? ==> r.value < |s| && s[r.value] == c && c !in s[r.value + 1..]
    ensures r.None? <==> c !in s
  {
    if s == "" then None
    else if s[|s| - 1] == c then Some(|s| - 1)
    else FindLast(s[..|s| - 1], c)
  }

  function StoreDir(info: NarInfo): Option<Text> {
    match FindLast(info.storePath, '/')
    case None => None
    case Some(i) => Some(info.storePath[..i])
  }

  lemma {:induction false} FindLastAt(a: Text, c: char, x: Text)
    requires c !in x
    ensures FindLast(a + [c] + x, c) == Some(|a|)
    decreases |x|
  {
    var s := a + [c] + x;
    if x == "" {
      assert s[|s| - 1] == c;
    } else {
      var n := |x| - 1;
      assert s[|s| - 1] == x[n] && x[n] in x;
      assert s[..|s| - 1] == a + [c] + x[..n];
      FindLastAt(a, c, x[..n]);
    }
  }

  /** The store directory is what stands in front of the last `/`. */
  lemma StoreDirExact(info: NarInfo, dir: Text)
    ensures StoreDir(info) == Some(dir) <==>
      exists base :: info.storePath == dir + "/" + base && '/' !in base
  {
    hide FindLast;
    var path := info.storePath;
    if StoreDir(info) == Some(dir) {
      var i := FindLast(path, '/').value;
      assert path == path[..i] + "/" + path[i + 1..];
    }
    forall base | path == dir + "/" + base && '/' !in base
      ensures StoreDir(info) == Some(dir)
    {
      FindLastAt(dir, '/', base);
      assert path == dir + ['/'] + base && path[..|dir|] == dir;
    }
  }

  function Qualified(dir: Text, refs: seq<Text>): seq<Text> {
    seq(|refs|, i requires 0 <= i < |refs| => dir + "/" + refs[i])
  }

  /** `None` when the store path has no `/`. */
  function FingerprintOf(info: NarInfo): Option<Text> {
    match StoreDir(info)
    case None => None
    case Some(dir) =>
      Some("1;" + info.storePath + ";" + info.narHash + ";" + Show(info.narSize) + ";"
           + Join(Qualified(dir, Sorted(info.references)), ','))
  }

  method Fingerprint(info: NarInfo) returns (r: Option<Text>)
    ensures r == FingerprintOf(info)
  {
    var dir := StoreDir(info);
    if dir.None? {
      return None;
    }
    var sortedRefs := new Text[|info.references|](i requires 0 <= i < |info.references| => info.references[i]);
    assert sortedRefs[..] == info.references;
    SortInPlace(sortedRefs);
    var refs := Join(Qualified(dir.value, sortedRefs[..]), ',');
    return Some("1;" + info.storePath + ";" + info.narHash + ";" + Show(info.narSize) + ";" + refs);
  }

  /** Full reference paths with commas between them. */
  function Listed(dir: Text, refs: seq<Text>): Text {
    if refs == [] then ""
    else dir + "/" + refs[0] + if |refs| == 1 then "" else "," + Listed(dir, refs[1..])
  }

  lemma {:induction false} JoinListed(dir: Text, refs: seq<Text>)
    ensures Join(Qualified(dir, refs), ',') == Listed(dir, refs)
  {
    if refs != [] {
      var q := Qualified(dir, refs);
      JoinListed(dir, refs[1..]);
      assert q[0] == dir + "/" + refs[0] && q[1..] == Qualified(dir, refs[1..]);
    }
  }

  /** The signed text, from any ascending arrangement of the references: of the store path, what
      stands in front of its last slash goes in front of each reference. Without a slash there is
      none. */
  lemma FingerprintExactly(info: NarInfo, dir: Text, base: Text, refs: seq<Text>)
    requires Ordered(refs) && multiset(refs) == multiset(info.references)
    ensures FingerprintOf(info).None? <==> '/' !in info.storePath
    ensures info.storePath == dir + "/" + base && '/' !in base ==>
      FingerprintOf(info) == Some("1;" + info.storePath + ";" + info.narHash + ";" + Show(info.narSize) + ";" + Listed(dir, refs))
  {
    hide Le, Show, Sorted, Qualified, Join, Listed;
    SortedSorts(info.references);
    OrderedUnique(Sorted(info.references), refs);
    if info.storePath == dir + "/" + base && '/' !in base {
      StoreDirExact(info, dir);
      JoinListed(dir, refs);
    }
  }

  // ----- what it identifies

  lemma QualifiedInjective(dir: Text, s: seq<Text>, t: seq<Text>)
    requires Qualified(dir, s) == Qualified(dir, t)
    ensures s == t
  {
    assert |s| == |Qualified(dir, s)| == |t|;
    forall i | 0 <= i < |s|
      ensures s[i] == t[i]
    {
      var p := dir + "/";
      assert p + s[i] == Qualified(dir, s)[i] == Qualified(dir, t)[i] == p + t[i];
      assert s[i] == (p + s[i])[|p|..] && t[i] == (p + t[i])[|p|..];
    }
  }

  lemma SortedMembers(s: seq<Text>)
    ensures forall x :: x in Sorted(s) <==> x in s
  {
    SortedSorts(s);
    forall x
      ensures x in Sorted(s) <==> x in s
    {
      assert x in multiset(Sorted(s)) <==> x in multiset(s);
    }
  }

  lemma ShowNoSemicolon(n: nat)
    ensures ';' !in Show(n)
  {
    assert AllDigits(Show(n));
  }

  function RefsText(info: NarInfo): Text
    requires StoreDir(info).Some?
  {
    Join(Qualified(StoreDir(info).value, Sorted(info.references)), ',')
  }

  lemma FingerprintNested(info: NarInfo)
    requires FingerprintOf(info).Some?
    ensures FingerprintOf(info).value == "1;" +
      (info.storePath + [';'] + (info.narHash + [';'] + (Show(info.narSize) + [';'] + RefsText(info))))
  {
    hide Join, Sorted, Qualified, Show;
  }

  lemma FingerprintParts(a: NarInfo, b: NarInfo)
    requires FingerprintOf(a).Some? && FingerprintOf(a) == FingerprintOf(b)
    requires ';' !in a.storePath && ';' !in a.narHash
    requires ';' !in b.storePath && ';' !in b.narHash
    ensures a.storePath == b.storePath && a.narHash == b.narHash && a.narSize == b.narSize
    ensures RefsText(a) == RefsText(b)
  {
    FingerprintNested(a);
    FingerprintNested(b);
    hide Join, Sorted, Qualified, Show, FingerprintOf, RefsText, StoreDir;
    var a3, b3 := Show(a.narSize) + [';'] + RefsText(a), Show(b.narSize) + [';'] + RefsText(b);
    var a2, b2 := a.narHash + [';'] + a3, b.narHash + [';'] + b3;
    var a1, b1 := a.storePath + [';'] + a2, b.storePath + [';'] + b2;
    assert a1 == ("1;" + a1)[2..] && b1 == ("1;" + b1)[2..];
    SplitUnique(a.storePath, a2, b.storePath, b2, ';');
    SplitUnique(a.narHash, a3, b.narHash, b3, ';');
    ShowNoSemicolon(a.narSize);
    ShowNoSemicolon(b.narSize);
    SplitUnique(Show(a.narSize), RefsText(a), Show(b.narSize), RefsText(b), ';');
    ShowInjective(a.narSize, b.narSize);
  }

  // The text of the references can only be cut where a new full path begins.

  function Cut(dir: Text): Text { "," + dir + "/" }

  /** The references without the first directory and slash. */
  function Packed(dir: Text, refs: seq<Text>): Text
    requires refs != []
  {
    if |refs| == 1 then refs[0] else refs[0] + Cut(dir) + Packed(dir, refs[1..])
  }

  lemma {:induction false} JoinPacked(dir: Text, refs: seq<Text>)
    requires refs != []
    ensures Join(Qualified(dir, refs), ',') == dir + "/" + Packed(dir, refs)
  {
    var q := Qualified(dir, refs);
    if |refs| > 1 {
      var rest := Packed(dir, refs[1..]);
      JoinPacked(dir, refs[1..]);
      assert q[1..] == Qualified(dir, refs[1..]) && q[0] == dir + "/" + refs[0];
      hide Join, Packed, Qualified;
      assert q[0] + [','] + (dir + "/" + rest) == dir + "/" + (refs[0] + Cut(dir) + rest);
    }
  }

  lemma JoinsArePacks(dir: Text, s: seq<Text>, t: seq<Text>)
    requires s != [] && t != []
    ensures Join(Qualified(dir, s), ',') == Join(Qualified(dir, t), ',') <==> Packed(dir, s) == Packed(dir, t)
  {
    JoinPacked(dir, s);
    JoinPacked(dir, t);
    hide Join, Packed, Qualified;
    SamePrefix(dir + "/", Packed(dir, s), Packed(dir, t));
  }

  lemma SamePrefix(p: Text, a: Text, b: Text)
    ensures p + a == p + b <==> a == b
  {
    assert a == (p + a)[|p|..] && b == (p + b)[|p|..];
  }

  lemma JoinNothingElse(dir: Text, s: seq<Text>)
    ensures Join(Qualified(dir, s), ',') == "" <==> s == []
  {
    if s != [] { JoinPacked(dir, s); }
  }

  /** No reference contains a place where another could begin. */
  ghost predicate PlainRefs(dir: Text, refs: seq<Text>) {
    ',' !in dir && forall r :: r in refs ==> !Occurs(Cut(dir), r)
  }

  lemma Overlap(cut: Text, a: Text, x: Text, b: Text, y: Text)
    requires a + cut + x == b + cut + y && |a| < |b| < |a| + |cut|
    ensures cut[|b| - |a|] == cut[0]
  {
    var s, t := a + cut + x, b + cut + y;
    assert s[|b|] == cut[|b| - |a|] && t[|b|] == cut[0];
  }

  lemma Inside(cut: Text, a: Text, x: Text, b: Text, y: Text)
    requires a + cut + x == b + cut + y && |a| + |cut| <= |b|
    ensures Occurs(cut, b)
  {
    var s, t := a + cut + x, b + cut + y;
    assert b == s[..|b|];
    assert s[..|b|] == a + cut + x[..|b| - |a| - |cut|];
  }

  lemma HeadNotLonger(dir: Text, a: Text, x: Text, b: Text, y: Text)
    requires ',' !in dir && !Occurs(Cut(dir), b)
    requires a + Cut(dir) + x == b + Cut(dir) + y
    ensures |b| <= |a|
  {
    hide Occurs;
    if |a| + |Cut(dir)| <= |b| {
      Inside(Cut(dir), a, x, b, y);
    } else if |a| < |b| {
      Overlap(Cut(dir), a, x, b, y);
    }
  }

  lemma HeadUnique(dir: Text, a: Text, x: Text, b: Text, y: Text)
    requires ',' !in dir && !Occurs(Cut(dir), a) && !Occurs(Cut(dir), b)
    requires a + Cut(dir) + x == b + Cut(dir) + y
    ensures a == b && x == y
  {
    HeadNotLonger(dir, a, x, b, y);
    HeadNotLonger(dir, b, y, a, x);
    hide Occurs;
    var s, t := a + Cut(dir) + x, b + Cut(dir) + y;
    assert a == s[..|a|] && b == t[..|b|];
    assert x == s[|a| + |Cut(dir)|..] && y == t[|b| + |Cut(dir)|..];
  }

  lemma CutOccurs(dir: Text, a: Text, x: Text)
    ensures Occurs(Cut(dir), a + Cut(dir) + x)
  {
  }

  lemma {:induction false} PackedInjective(dir: Text, s: seq<Text>, t: seq<Text>)
    requires s != [] && t != [] && PlainRefs(dir, s) && PlainRefs(dir, t)
    requires Packed(dir, s) == Packed(dir, t)
    ensures s == t
  {
    hide Occurs;
    assert s[0] in s && t[0] in t;
    if |s| > 1 { CutOccurs(dir, s[0], Packed(dir, s[1..])); }
    if |t| > 1 { CutOccurs(dir, t[0], Packed(dir, t[1..])); }
    if |s| > 1 && |t| > 1 {
      HeadUnique(dir, s[0], Packed(dir, s[1..]), t[0], Packed(dir, t[1..]));
      PackedInjective(dir, s[1..], t[1..]);
      assert s == [s[0]] + s[1..] && t == [t[0]] + t[1..];
    } else if |s| == 1 && |t| == 1 {
      assert s == [s[0]] && t == [t[0]];
    }
  }

  /** No field can be mistaken for a separator: no semicolon in the path or the hash, no comma
      in the store directory, and no reference that contains a comma, the store directory and a
      slash in a row. */
  ghost predicate Unambiguous(info: NarInfo) {
    && ';' !in info.storePath && ';' !in info.narHash
    && (StoreDir(info).Some? ==> PlainRefs(StoreDir(info).value, info.references))
  }

  lemma PlainSorted(dir: Text, refs: seq<Text>)
    requires PlainRefs(dir, refs)
    ensures PlainRefs(dir, Sorted(refs))
  {
    hide Occurs, Sorted;
    SortedMembers(refs);
  }

  /** The fingerprint identifies the store path, the hash, the size and the references up to
      their order, and nothing else. */
  lemma FingerprintCanonical(a: NarInfo, b: NarInfo)
    requires Unambiguous(a) && Unambiguous(b)
    requires FingerprintOf(a).Some? && FingerprintOf(b).Some?
    ensures FingerprintOf(a) == FingerprintOf(b) <==>
      && a.storePath == b.storePath && a.narHash == b.narHash && a.narSize == b.narSize
      && multiset(a.references) == multiset(b.references)
  {
    hide Join, Sorted, Qualified, Show, PlainRefs;
    SortedCanonical(a.references, b.references);
    if FingerprintOf(a) == FingerprintOf(b) {
      FingerprintParts(a, b);
      var dir, s, t := StoreDir(a).value, Sorted(a.references), Sorted(b.references);
      PlainSorted(dir, a.references);
      PlainSorted(dir, b.references);
      JoinNothingElse(dir, s);
      JoinNothingElse(dir, t);
      if s != [] && t != [] {
        JoinsArePacks(dir, s, t);
        PackedInjective(dir, s, t);
      }
    }
  }

  // ----- agreement with Nix, which sorts full store paths held in a set

  lemma {:induction false} InsertFullPath(dir: Text, s: seq<Text>, x: Text)
    ensures Qualified(dir, Insert(s, x)) == Insert(Qualified(dir, s), dir + "/" + x)
  {
    hide Le;
    if s != [] {
      var n := |s| - 1;
      LePrefix(dir + "/", s[n], x);
      assert Qualified(dir, s)[n] == dir + "/" + s[n] && Qualified(dir, s)[..n] == Qualified(dir, s[..n]);
      InsertFullPath(dir, s[..n], x);
    }
  }

  /** Sorting base names and then adding the directory is sorting the full paths. */
  lemma {:induction false} SortFullPaths(dir: Text, refs: seq<Text>)
    ensures Qualified(dir, Sorted(refs)) == Sorted(Qualified(dir, refs))
  {
    hide Le, Insert;
    if refs != [] {
      var n := |refs| - 1;
      SortFullPaths(dir, refs[..n]);
      assert Qualified(dir, refs)[..n] == Qualified(dir, refs[..n]);
      InsertFullPath(dir, Sorted(refs[..n]), refs[n]);
    }
  }

  predicate NoDuplicates(s: seq<Text>) { forall i, j :: 0 <= i < j < |s| ==> s[i] != s[j] }

  lemma {:induction false} NoDuplicatesMultiset(s: seq<Text>)
    ensures NoDuplicates(s) <==> forall x :: multiset(s)[x] <= 1
  {
    if s != [] {
      var n := |s| - 1;
      NoDuplicatesMultiset(s[..n]);
      assert s == s[..n] + [s[n]];
      if NoDuplicates(s) {
        assert s[n] !in multiset(s[..n]);
      } else if NoDuplicates(s[..n]) {
        var i, j :| 0 <= i < j < |s| && s[i] == s[j];
        assert s[..n][i] == s[n] && s[n] in multiset(s[..n]);
        assert multiset(s)[s[n]] >= 2;
      } else {
        var x :| multiset(s[..n])[x] > 1;
        assert multiset(s)[x] > 1;
      }
    }
  }

  lemma SameSet(s: seq<Text>, t: seq<Text>)
    requires NoDuplicates(s) && NoDuplicates(t)
    requires forall x :: x in s <==> x in t
    ensures multiset(s) == multiset(t)
  {
    NoDuplicatesMultiset(s);
    NoDuplicatesMultiset(t);
    forall x
      ensures multiset(s)[x] == multiset(t)[x]
    {
      assert (x in s <==> x in multiset(s)) && (x in t <==> x in multiset(t));
    }
  }

  /** The bytes of some texts with one separator each. */
  function Total(s: seq<Text>): nat {
    if s == [] then 0 else Total(s[..|s| - 1]) + |s[|s| - 1]| + 1
  }

  lemma {:induction false} TotalConcat(s: seq<Text>, t: seq<Text>)
    ensures Total(s + t) == Total(s) + Total(t)
    decreases |t|
  {
    if t == [] {
      assert s + t == s;
    } else {
      TotalConcat(s, t[..|t| - 1]);
      assert (s + t)[..|s + t| - 1] == s + t[..|t| - 1];
    }
  }

  lemma {:induction false} JoinLength(s: seq<Text>)
    requires s != []
    ensures |Join(s, ',')| + 1 == Total(s)
  {
    assert Total([s[0]]) == |s[0]| + 1 by { assert [s[0]][..0] == []; }
    if |s| == 1 {
      assert s == [s[0]];
    } else {
      JoinLength(s[1..]);
      TotalConcat([s[0]], s[1..]);
      assert s == [s[0]] + s[1..];
    }
  }

  /** Different texts that all occur in a list take no more room than it, and less if fewer. */
  lemma {:induction false} TotalOfSome(s: seq<Text>, t: seq<Text>)
    requires NoDuplicates(s) && forall x :: x in s ==> x in t
    ensures |s| <= |t| && Total(t) - Total(s) >= |t| - |s|
  {
    if s == [] {
      TotalAtLeast(t);
    } else {
      var n := |s| - 1;
      var x := s[n];
      assert x in s;
      var i :| 0 <= i < |t| && t[i] == x;
      var rest := t[..i] + t[i + 1..];
      assert t == t[..i] + [x] + t[i + 1..];
      TotalConcat(t[..i] + [x], t[i + 1..]);
      TotalConcat(t[..i], [x]);
      TotalConcat(t[..i], t[i + 1..]);
      assert [x][..0] == [] && Total([x]) == |x| + 1;
      forall y | y in s[..n]
        ensures y in rest
      {
        assert y in s && y in t && y != x;
      }
      TotalOfSome(s[..n], rest);
    }
  }

  lemma {:induction false} TotalAtLeast(s: seq<Text>)
    ensures Total(s) >= |s|
  {
    if s != [] { TotalAtLeast(s[..|s| - 1]); }
  }

  lemma SameMembersSameLength(s: seq<Text>, t: seq<Text>)
    requires NoDuplicates(s) && (forall x :: x in s <==> x in t) && |s| == |t|
    ensures NoDuplicates(t)
  {
    NoDuplicatesMultiset(s);
    NoDuplicatesMultiset(t);
    forall x
      ensures multiset(s)[x] <= multiset(t)[x]
    {
      assert x in multiset(s) ==> x in s && x in t && x in multiset(t);
    }
    assert multiset(s) <= multiset(t);
    assert |multiset(t) - multiset(s)| == |t| - |s| == 0;
    assert multiset(t) == multiset(s) + (multiset(t) - multiset(s));
  }

  /** A strictly ordered listing of the set of full reference paths, which is what Nix joins.
      The code agrees with it exactly when the references hold no duplicate, whatever characters
      they are made of. */
  lemma AgreesWithNixSet(info: NarInfo, listing: seq<Text>)
    requires StoreDir(info).Some? && Ordered(listing) && NoDuplicates(listing)
    requires forall p :: p in listing <==> p in Qualified(StoreDir(info).value, info.references)
    ensures RefsText(info) == Join(listing, ',') <==> NoDuplicates(info.references)
  {
    hide Join, Sorted, Le, FindLast, Qualified, Total, NoDuplicates;
    var dir, refs := StoreDir(info).value, info.references;
    var full := Qualified(dir, refs);
    var ours := Sorted(full);
    SortFullPaths(dir, refs);
    SortedSorts(full);
    SortedMembers(full);
    SortedLength(full);
    QualifiedDuplicates(dir, refs);
    if NoDuplicates(refs) {
      SameSet(listing, full);
      OrderedUnique(listing, ours);
    } else {
      if |listing| == |full| { SameMembersSameLength(listing, full); }
      TotalOfSome(listing, ours);
      assert full != [] by { QualifiedNothing(dir, refs); }
      assert full[0] in full && listing != [];
      JoinLength(ours);
      JoinLength(listing);
    }
  }

  lemma QualifiedNothing(dir: Text, refs: seq<Text>)
    ensures NoDuplicates([]) && (Qualified(dir, refs) == [] <==> refs == [])
  {
    if Qualified(dir, refs) == [] { assert |refs| == |Qualified(dir, refs)|; }
  }

  lemma QualifiedDuplicates(dir: Text, s: seq<Text>)
    ensures NoDuplicates(s) <==> NoDuplicates(Qualified(dir, s))
  {
    var q := Qualified(dir, s);
    forall i, j | 0 <= i < j < |s|
      ensures s[i] == s[j] <==> q[i] == q[j]
    {
      if q[i] == q[j] { QualifiedInjective(dir, [s[i]], [s[j]]); }
    }
    if NoDuplicates(s) { assert forall i, j :: 0 <= i < j < |q| ==> s[i] != s[j]; }
    if NoDuplicates(q) { assert forall i, j :: 0 <= i < j < |s| ==> q[i] != q[j]; }
  }
}
