/** Text as the program sees it, and the few `str` operations it relies on.
    Every delimiter in the formats is ASCII, so a document is kept as the sequence of its
    bytes: one `char` stands for one byte, lengths count bytes and order is byte order. */
module ByteText {
  type Text = string

  datatype Option<+T> = None | Some(value: T)

  datatype Result<+T, +E> = Ok(value: T) | Err(error: E)

  lemma Associative<T>(a: seq<T>, b: seq<T>, c: seq<T>)
    ensures a + (b + c) == a + b + c
  {
  }

  ghost predicate Occurs(part: Text, s: Text) { exists a, x :: s == a + part + x }

  predicate StartsWith(s: Text, prefix: Text) { prefix <= s }

  predicate EndsWith(s: Text, suffix: Text) {
    |suffix| <= |s| && s[|s| - |suffix|..] == suffix
  }

  // ----- splitting at the first occurrence of a character (`split_once(char)`)

  function FindChar(s: Text, c: char, from: nat := 0): (r: Option<nat>)
    requires from <= |s|
    requires forall j :: 0 <= j < from ==> s[j] != c
    ensures r.Some? ==> r.value < |s| && s[r.value] == c && forall j :: 0 <= j < r.value ==> s[j] != c
    ensures r.None? <==> c !in s
    decreases |s| - from
  {
    if from == |s| then None
    else if s[from] == c then Some(from)
    else FindChar(s, c, from + 1)
  }

  function SplitOnce(s: Text, c: char): (r: Option<(Text, Text)>)
    ensures r.Some? ==> s == r.value.0 + [c] + r.value.1 && c !in r.value.0
    ensures r.None? <==> c !in s
  {
    match FindChar(s, c)
    case None => None
    case Some(i) => Some((s[..i], s[i + 1..]))
  }

  /** The split at the first occurrence is the only split whose left part avoids `c`. */
  lemma SplitUnique(a: Text, x: Text, b: Text, y: Text, c: char)
    requires a + [c] + x == b + [c] + y
    requires c !in a && c !in b
    ensures a == b && x == y
  {
    var s, t := a + [c] + x, b + [c] + y;
    assert s[|a|] == c && t[|b|] == c;
    assert forall j :: 0 <= j < |a| ==> s[j] == a[j];
    assert forall j :: 0 <= j < |b| ==> t[j] == b[j];
    assert a == s[..|a|] && b == t[..|b|];
    assert x == s[|a| + 1..] && y == t[|b| + 1..];
  }

  lemma SplitOnceAt(a: Text, c: char, x: Text)
    requires c !in a
    ensures SplitOnce(a + [c] + x, c) == Some((a, x))
  {
    var s := a + [c] + x;
    assert s[|a|] == c;
    var r := SplitOnce(s, c).value;
    SplitUnique(a, x, r.0, r.1, c);
  }

  // ----- splitting at every occurrence (`split(char)`) and joining

  function Split(s: Text, c: char): (parts: seq<Text>)
    ensures |parts| >= 1
    ensures forall p :: p in parts ==> c !in p
    decreases |s|
  {
    match SplitOnce(s, c)
    case None => [s]
    case Some((a, x)) => [a] + Split(x, c)
  }

  function Join(parts: seq<Text>, c: char): Text {
    if |parts| == 0 then ""
    else if |parts| == 1 then parts[0]
    else parts[0] + [c] + Join(parts[1..], c)
  }

  lemma {:induction false} JoinSplit(s: Text, c: char)
    ensures Join(Split(s, c), c) == s
    decreases |s|
  {
    match SplitOnce(s, c)
    case None =>
    case Some((a, x)) =>
      JoinSplit(x, c);
      assert Split(s, c)[1..] == Split(x, c);
  }

  lemma {:induction false} SplitJoin(parts: seq<Text>, c: char)
    requires |parts| >= 1
    requires forall p :: p in parts ==> c !in p
    ensures Split(Join(parts, c), c) == parts
  {
    if |parts| == 1 {
      assert parts[0] in parts && parts == [parts[0]];
    } else {
      var rest := Join(parts[1..], c);
      assert parts[0] in parts && forall p :: p in parts[1..] ==> p in parts;
      SplitOnceAt(parts[0], c, rest);
      assert Split(parts[0] + [c] + rest, c) == [parts[0]] + Split(rest, c);
      SplitJoin(parts[1..], c);
      assert parts == [parts[0]] + parts[1..];
    }
  }

  // ----- lines

  function StripCR(s: Text): Text {
    if s != "" && s[|s| - 1] == '\r' then s[..|s| - 1] else s
  }

  /** `trim_end_matches('\r')` */
  function TrimCRs(s: Text): (r: Text)
    ensures r <= s
    ensures r == "" || r[|r| - 1] != '\r'
  {
    if s != "" && s[|s| - 1] == '\r' then TrimCRs(s[..|s| - 1]) else s
  }

  /** `str::lines`: cut after each newline, drop it together with one carriage return before
      it; a last line without a newline keeps its bytes, and no empty line follows the last
      newline. */
  function Lines(t: Text): seq<Text>
    decreases |t|
  {
    if t == "" then []
    else match SplitOnce(t, '\n')
      case None => [t]
      case Some((l, rest)) => [StripCR(l)] + Lines(rest)
  }

  lemma {:induction false} LinesHaveNoNewline(t: Text)
    ensures forall l :: l in Lines(t) ==> '\n' !in l
    decreases |t|
  {
    if t != "" {
      match SplitOnce(t, '\n')
      case None =>
      case Some((l, rest)) => LinesHaveNoNewline(rest);
    }
  }

  function Unlines(ls: seq<Text>): Text {
    if ls == [] then "" else ls[0] + "\n" + Unlines(ls[1..])
  }

  /** What can be written as the end of a line and read back unchanged. */
  predicate LineEnd(s: Text) {
    '\n' !in s && (s == "" || s[|s| - 1] != '\r')
  }

  lemma {:induction false} LinesUnlines(ls: seq<Text>)
    requires forall l :: l in ls ==> LineEnd(l)
    ensures Lines(Unlines(ls)) == ls
  {
    if ls != [] {
      var rest := Unlines(ls[1..]);
      assert LineEnd(ls[0]);
      SplitOnceAt(ls[0], '\n', rest);
      assert Unlines(ls) == ls[0] + ['\n'] + rest;
      assert Lines(Unlines(ls)) == [ls[0]] + Lines(rest);
      LinesUnlines(ls[1..]);
      assert ls == [ls[0]] + ls[1..];
    }
  }

  lemma {:induction false} UnlinesConcat(a: seq<Text>, b: seq<Text>)
    ensures Unlines(a + b) == Unlines(a) + Unlines(b)
  {
    if a == [] {
      assert a + b == b;
    } else {
      assert (a + b)[0] == a[0] && (a + b)[1..] == a[1..] + b;
      assert Unlines(a + b) == a[0] + "\n" + Unlines(a[1..] + b);
      UnlinesConcat(a[1..], b);
      assert Unlines(a) == a[0] + "\n" + Unlines(a[1..]);
      Associative(a[0] + "\n", Unlines(a[1..]), Unlines(b));
    }
  }

  /** The bytes the lines of a text take, counting one newline each. */
  function Weight(ls: seq<Text>): nat {
    if ls == [] then 0 else |ls[0]| + 1 + Weight(ls[1..])
  }

  lemma {:induction false} LinesWeight(t: Text)
    ensures Weight(Lines(t)) <= |t| + 1
    ensures t != "" && t[|t| - 1] == '\n' ==> Weight(Lines(t)) <= |t|
    decreases |t|
  {
    if t != "" {
      match SplitOnce(t, '\n')
      case None =>
      case Some((l, rest)) =>
        LinesWeight(rest);
        assert rest == "" || rest[|rest| - 1] == t[|t| - 1];
        assert Lines(t)[1..] == Lines(rest);
    }
  }

  lemma {:induction false} UnlinesLength(ls: seq<Text>)
    ensures |Unlines(ls)| == Weight(ls)
  {
    if ls != [] { UnlinesLength(ls[1..]); }
  }

  lemma {:induction false} WeightConcat(a: seq<Text>, b: seq<Text>)
    ensures Weight(a + b) == Weight(a) + Weight(b)
  {
    if a == [] {
      assert a + b == b;
    } else {
      WeightConcat(a[1..], b);
      assert (a + b)[1..] == a[1..] + b;
    }
  }
}
