/** One `sign` run in detail: which files it takes, what it writes into each, and how it goes on
    from one directory entry to the next. */
module SigningSteps {
  import opened ByteText
  import opened Base64
  import opened NarInfos
  import opened Fingerprints
  import opened Hybrid
  import opened Keys
  import opened Utf8
  import opened Signing
  import opened SigningRuns

  // ----- which files

  /** A document is a file with something in front of `.narinfo`. */
  lemma DocumentName(path: Path)
    ensures IsNarinfo(path) <==> exists stem: Text :: stem != "" && path == stem + ".narinfo"
  {
    if IsNarinfo(path) {
      var stem := path[..|path| - 8];
      assert path == stem + path[|path| - 8..] && stem != "";
    }
    forall stem: Text | stem != "" && path == stem + ".narinfo"
      ensures IsNarinfo(path)
    {
      assert path[|path| - 8..] == ".narinfo";
    }
  }

  /** The other file every cache directory has is none. */
  lemma CacheInfoIsNoDocument()
    ensures !IsNarinfo("nix-cache-info")
  {
    var path := "nix-cache-info";
    assert path[|path| - 8..][0] == path[6] == 'c';
  }

  // ----- what is written

  /** The entries that are not of this name, in their order. */
  function Without(name: Text, es: seq<Text>): seq<Text> {
    if es == [] then [] else (if name + ":" <= es[0] then [] else [es[0]]) + Without(name, es[1..])
  }

  lemma {:induction false} WithoutInit(name: Text, es: seq<Text>)
    requires es != []
    ensures var n := |es| - 1;
      Without(name, es) == Without(name, es[..n]) + if name + ":" <= es[n] then [] else [es[n]]
  {
    var n := |es| - 1;
    if n == 0 {
      assert es[1..] == [] && es[..0] == [] && Without(name, []) == [];
    } else {
      WithoutInit(name, es[1..]);
      assert es[1..][..n - 1] == es[..n][1..] && es[1..][n - 1] == es[n];
      assert Without(name, es[..n]) == (if name + ":" <= es[0] then [] else [es[0]]) + Without(name, es[..n][1..]);
      Associative(if name + ":" <= es[0] then [] else [es[0]], Without(name, es[..n][1..]), if name + ":" <= es[n] then [] else [es[n]]);
    }
  }

  lemma {:induction false} FilterIsWithout(name: Text, es: seq<Text>)
    ensures Filter(es, NotOwn(name)) == Without(name, es)
  {
    if es != [] {
      FilterIsWithout(name, es[..|es| - 1]);
      WithoutInit(name, es);
    }
  }

  /** What is written into a document: the signer's own entries are dropped, all others stay in
      their order, and one new entry of each kind is put behind them. */
  lemma SignTextExactly(c: Scheme, key: SecretKey, coin: nat, text: Text, info: NarInfo, fingerprint: Text)
    requires ValidUtf8(text) && Parsed(text) == Ok(info) && FingerprintOf(info) == Some(fingerprint)
    ensures SignText(c, key, coin, text) == Ok(Printed(info.(
        sigs := Without(key.name, info.sigs) + [key.name + ":" + Encode(c.edSign(key.signer.ed, fingerprint, coin))],
        sigPqc := Without(key.name, info.sigPqc) + [key.name + ":" + Encode([1] + c.mlSign(key.signer.ml, fingerprint, coin))])))
  {
    hide ValidUtf8, Parsed, Printed, FingerprintOf, Encode, Filter, Without, NotOwn;
    FilterIsWithout(key.name, info.sigs);
    FilterIsWithout(key.name, info.sigPqc);
  }

  /** Why a text is not signed: the first of these that applies. */
  lemma SignTextErrors(c: Scheme, key: SecretKey, coin: nat, text: Text)
    ensures var r := SignText(c, key, coin, text);
      && (r == Err(NotUtf8) <==> !ValidUtf8(text))
      && (forall e :: r == Err(BadNarinfo(e)) <==> ValidUtf8(text) && Parsed(text) == Err(e))
      && (r == Err(NoStoreDir) <==> ValidUtf8(text) && Parsed(text).Ok? && FingerprintOf(Parsed(text).value).None?)
  {
    hide ValidUtf8, Parsed, Printed, FingerprintOf, Resigned;
  }

  // ----- from one entry to the next

  /** What one directory entry does to a run that has signed `count` documents. */
  lemma OneVisit(c: Scheme, key: SecretKey, v: Visit, files: map<Path, Text>, count: nat)
    ensures var after := SignVisits(c, key, [v], files, count);
      && (v.fault == EntryFault ==> after == (files, Err(ReadFailed)))
      && (v.fault != EntryFault && !IsNarinfo(v.path) ==> after == (files, Ok(count)))
      && (v.fault != EntryFault && IsNarinfo(v.path) ==>
          && (v.path !in files ==> after == (files, Err(ReadFailed)))
          && (v.path in files && SignText(c, key, v.coin, files[v.path]).Err? ==>
              after == (files, Err(SignText(c, key, v.coin, files[v.path]).error)))
          && (v.path in files && SignText(c, key, v.coin, files[v.path]).Ok? ==>
              after == if v.fault == WriteFault then (files, Err(WriteFailed))
                       else (files[v.path := SignText(c, key, v.coin, files[v.path]).value], Ok(count + 1))))
  {
    hide SignText, IsNarinfo;
    assert [v][1..] == [];
  }

  /** A run goes on until the first entry that fails, and stops there. */
  lemma {:induction false} VisitsInTurn(c: Scheme, key: SecretKey, a: seq<Visit>, b: seq<Visit>, files: map<Path, Text>, count: nat)
    ensures var (files', r) := SignVisits(c, key, a, files, count);
      SignVisits(c, key, a + b, files, count) == if r.Err? then (files', r) else SignVisits(c, key, b, files', r.value)
  {
    hide VisitFile, IsNarinfo;
    if a == [] {
      assert a + b == b;
    } else {
      assert (a + b)[0] == a[0] && (a + b)[1..] == a[1..] + b;
      var step := VisitFile(c, key, a[0], files);
      if step.Ok? {
        VisitsInTurn(c, key, a[1..], b, step.value, if IsNarinfo(a[0].path) then count + 1 else count);
      }
    }
  }

  /** The entries of a directory scan that are documents. */
  function DocumentVisits(visits: seq<Visit>): set<nat> {
    set i: nat | i < |visits| && IsNarinfo(visits[i].path)
  }

  lemma {:induction false} DocumentsInit(visits: seq<Visit>)
    requires visits != []
    ensures var n := |visits| - 1;
      Documents(visits) == Documents(visits[..n]) + if IsNarinfo(visits[n].path) then 1 else 0
  {
    hide IsNarinfo;
    if |visits| > 1 {
      DocumentsInit(visits[1..]);
      assert visits[1..][..|visits| - 2] == visits[..|visits| - 1][1..];
    }
  }

  lemma {:induction false} DocumentsExactly(visits: seq<Visit>)
    ensures Documents(visits) == |DocumentVisits(visits)|
  {
    hide IsNarinfo, DocumentVisits;
    if visits == [] {
      NoDocumentVisits();
    } else {
      var n := |visits| - 1;
      DocumentsInit(visits);
      DocumentsExactly(visits[..n]);
      DocumentVisitsInit(visits);
    }
  }

  lemma NoDocumentVisits()
    ensures DocumentVisits([]) == {}
  {
  }

  lemma DocumentVisitsInit(visits: seq<Visit>)
    requires visits != []
    ensures var n := |visits| - 1;
      |DocumentVisits(visits)| == |DocumentVisits(visits[..n])| + if IsNarinfo(visits[n].path) then 1 else 0
  {
    hide IsNarinfo;
    var n := |visits| - 1;
    var before := DocumentVisits(visits[..n]);
    assert n !in before;
    if IsNarinfo(visits[n].path) {
      assert DocumentVisits(visits) == before + {n};
    } else {
      assert DocumentVisits(visits) == before;
    }
  }

  /** A directory of documents that can be signed among any other files: the run succeeds, counts
      the documents alone, and leaves every other file as it was. */
  lemma MixedDirectory(c: Scheme, key: SecretKey, visits: seq<Visit>, files: map<Path, Text>)
    requires UsableKey(key)
    requires forall v :: v in visits ==> v.fault == NoFault
    requires forall v :: v in visits && IsNarinfo(v.path) ==> v.path in files && Signable(files[v.path])
    ensures var (files', r) := SignRun(c, SecretText(key), visits, files);
      && r == Ok(|DocumentVisits(visits)|)
      && files'.Keys == files.Keys
      && forall p :: p in files ==>
        if IsNarinfo(p) && (exists v :: v in visits && v.path == p)
        then exists coin: nat :: SignText(c, key, coin, files[p]) == Ok(files'[p])
        else files'[p] == files[p]
  {
    hide Signable, SignText, IsNarinfo, LoadSecret, SecretText, SignVisits, UsableKey;
    UsableName(key);
    SecretFileRoundTrip(key);
    RunSucceedsExactly(c, key, visits, files, 0);
    RunCounts(c, key, visits, files, 0);
    DocumentsExactly(visits);
    if files == map[] { NoFiles(c, key, visits, 0); }
    var files' := SignVisits(c, key, visits, files, 0).0;
    forall p | p in files
      ensures files'.Keys == files.Keys
      ensures if IsNarinfo(p) && (exists v :: v in visits && v.path == p)
              then exists coin: nat :: SignText(c, key, coin, files[p]) == Ok(files'[p])
              else files'[p] == files[p]
    {
      var signed, coin := RunOutcome(c, key, visits, files, 0, p);
    }
    assert files != map[] ==> exists p :: p in files;
  }
}
