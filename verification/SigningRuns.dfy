/** What any sequence of `sign` runs leaves behind in each file. */
module SigningRuns {
  import opened ByteText
  import opened Base64
  import opened NarInfos
  import opened Fingerprints
  import opened Hybrid
  import opened Keys
  import opened HybridCheck
  import opened Utf8
  import opened Endorsement
  import opened Signing

  /** One successful signing of a document. */
  datatype Stamp = Stamp(key: SecretKey, coin: nat)

  function SignAll(c: Scheme, stamps: seq<Stamp>, text: Text): Result<Text, SignError> {
    if stamps == [] then Ok(text)
    else
      var last := stamps[|stamps| - 1];
      match SignAll(c, stamps[..|stamps| - 1], text)
      case Err(e) => Err(e)
      case Ok(t) => SignText(c, last.key, last.coin, t)
  }

  predicate UsableKey(key: SecretKey) { ValidKeyName(key.name) && key.signer.Valid() }

  /** Usable keys, and no name shared by two of them. */
  predicate DistinctNames(keys: set<SecretKey>) {
    && (forall k :: k in keys ==> UsableKey(k))
    && forall k, l :: k in keys && l in keys && k.name == l.name ==> k == l
  }

  function KeysOf(stamps: seq<Stamp>): set<SecretKey> { set s | s in stamps :: s.key }

  function NamesOf(keys: set<SecretKey>): set<Text> { set k | k in keys :: k.name }

  // ----- the invariant of a document that has been signed

  /** The key has exactly one entry in each list, a pair signed together. */
  ghost predicate HoldsPair(c: Scheme, key: SecretKey, fingerprint: Text, info: NarInfo) {
    exists coin: nat ::
      && Filter(info.sigs, Own(key.name)) == [NewSig(c, key, coin, fingerprint)]
      && Filter(info.sigPqc, Own(key.name)) == [NewSigPqc(c, key, coin, fingerprint)]
  }

  /** `info` differs from `origin` by the entries of `keys` only, and each of these keys has
      its pair. */
  ghost predicate SignedBy(c: Scheme, keys: set<SecretKey>, origin: NarInfo, fingerprint: Text, info: NarInfo) {
    && info == origin.(sigs := info.sigs, sigPqc := info.sigPqc)
    && FingerprintOf(info) == Some(fingerprint)
    && Filter(info.sigs, Foreign(NamesOf(keys))) == Filter(origin.sigs, Foreign(NamesOf(keys)))
    && Filter(info.sigPqc, Foreign(NamesOf(keys))) == Filter(origin.sigPqc, Foreign(NamesOf(keys)))
    && forall k :: k in keys ==> HoldsPair(c, k, fingerprint, info)
  }

  lemma {:induction false} ForeignToNobody(es: seq<Text>)
    ensures Filter(es, Foreign({})) == es
  {
    if es != [] {
      ForeignToNobody(es[..|es| - 1]);
      assert es == es[..|es| - 1] + [es[|es| - 1]];
    }
  }

  lemma SignedByNobody(c: Scheme, info: NarInfo, fingerprint: Text)
    requires FingerprintOf(info) == Some(fingerprint)
    ensures SignedBy(c, {}, info, fingerprint, info)
  {
    hide FingerprintOf;
    assert NamesOf({}) == {};
    ForeignToNobody(info.sigs);
    ForeignToNobody(info.sigPqc);
  }

  lemma NewEntriesAreOwn(c: Scheme, key: SecretKey, coin: nat, fingerprint: Text)
    ensures StartsWith(NewSig(c, key, coin, fingerprint), key.name + ":")
    ensures StartsWith(NewSigPqc(c, key, coin, fingerprint), key.name + ":")
  {
    var sig := Sign(c, key.signer, fingerprint, coin);
    EntryIsOwn(key.name, sig.ed25519);
    EntryIsOwn(key.name, [ML_DSA_65_TAG] + sig.mlDsa);
  }

  lemma NewPairHeld(c: Scheme, key: SecretKey, coin: nat, fingerprint: Text, info: NarInfo)
    ensures HoldsPair(c, key, fingerprint, Resigned(c, key, coin, fingerprint, info))
  {
    NewEntriesAreOwn(c, key, coin, fingerprint);
    hide StartsWith, NewSig, NewSigPqc;
    ReplacedOwn(info.sigs, key.name, NewSig(c, key, coin, fingerprint));
    ReplacedOwn(info.sigPqc, key.name, NewSigPqc(c, key, coin, fingerprint));
    hide Filter;
  }

  lemma OtherPairHeld(c: Scheme, key: SecretKey, coin: nat, fingerprint: Text, info: NarInfo, other: SecretKey)
    requires ValidKeyName(key.name) && ValidKeyName(other.name) && key.name != other.name
    requires HoldsPair(c, other, fingerprint, info)
    ensures HoldsPair(c, other, fingerprint, Resigned(c, key, coin, fingerprint, info))
  {
    NewEntriesAreOwn(c, key, coin, fingerprint);
    ValidNamePlain(key.name);
    ValidNamePlain(other.name);
    hide StartsWith, NewSig, NewSigPqc, ValidKeyName, Filter;
    ReplacedOther(info.sigs, key.name, NewSig(c, key, coin, fingerprint), other.name);
    ReplacedOther(info.sigPqc, key.name, NewSigPqc(c, key, coin, fingerprint), other.name);
  }

  lemma ForeignStays(c: Scheme, keys: set<SecretKey>, origin: seq<Text>, es: seq<Text>, name: Text, e: Text, more: set<SecretKey>)
    requires Filter(es, Foreign(NamesOf(keys))) == Filter(origin, Foreign(NamesOf(keys)))
    requires NamesOf(more) == NamesOf(keys) + {name} && StartsWith(e, name + ":")
    ensures Filter(Replaced(es, name, e), Foreign(NamesOf(more))) == Filter(origin, Foreign(NamesOf(more)))
  {
    hide StartsWith, Filter, NamesOf, Replaced;
    ReplacedForeign(es, name, e, NamesOf(more));
    ForeignMore(es, NamesOf(keys), name);
    ForeignMore(origin, NamesOf(keys), name);
  }

  lemma NamesOfMore(keys: set<SecretKey>, key: SecretKey)
    ensures NamesOf(keys + {key}) == NamesOf(keys) + {key.name}
  {
  }

  /** One more signing keeps the invariant and adds its key. */
  lemma SignedByMore(c: Scheme, keys: set<SecretKey>, origin: NarInfo, fingerprint: Text, info: NarInfo, key: SecretKey, coin: nat)
    requires SignedBy(c, keys, origin, fingerprint, info)
    requires DistinctNames(keys + {key})
    ensures SignedBy(c, keys + {key}, origin, fingerprint, Resigned(c, key, coin, fingerprint, info))
  {
    hide StartsWith, NewSig, NewSigPqc, ValidKeyName, Filter, FingerprintOf, HoldsPair, NamesOf;
    var more := keys + {key};
    var out := Resigned(c, key, coin, fingerprint, info);
    NamesOfMore(keys, key);
    NewEntriesAreOwn(c, key, coin, fingerprint);
    ResignedFingerprint(c, key, coin, fingerprint, info);
    ForeignStays(c, keys, origin.sigs, info.sigs, key.name, NewSig(c, key, coin, fingerprint), more);
    ForeignStays(c, keys, origin.sigPqc, info.sigPqc, key.name, NewSigPqc(c, key, coin, fingerprint), more);
    NewPairHeld(c, key, coin, fingerprint, info);
    forall k | k in more
      ensures HoldsPair(c, k, fingerprint, out)
    {
      if k != key {
        assert k in more && key in more;
        OtherPairHeld(c, key, coin, fingerprint, info, k);
      }
    }
  }

  /** The invariant after any number of signings. */
  lemma {:induction false} HistoryKeeps(c: Scheme, stamps: seq<Stamp>, text: Text)
    requires stamps != [] && DistinctNames(KeysOf(stamps)) && SignAll(c, stamps, text).Ok?
    ensures Parsed(text).Ok? && FingerprintOf(Parsed(text).value).Some?
    ensures var origin, fingerprint := Parsed(text).value, FingerprintOf(Parsed(text).value).value;
      && Parsed(SignAll(c, stamps, text).value).Ok?
      && SignedBy(c, KeysOf(stamps), origin, fingerprint, Parsed(SignAll(c, stamps, text).value).value)
  {
    hide SignText, Parsed, Printed, FingerprintOf, SignedBy, Resigned, UsableKey;
    var n := |stamps| - 1;
    var key, coin := stamps[n].key, stamps[n].coin;
    var before := SignAll(c, stamps[..n], text).value;
    assert KeysOf(stamps) == KeysOf(stamps[..n]) + {key};
    assert stamps[n] in stamps && UsableKey(key);
    assert ValidKeyName(key.name) by { UsableName(key); }
    SignedIsRead(c, key, coin, before);
    if n == 0 {
      assert stamps[..n] == [] && before == text;
      assert KeysOf(stamps[..n]) == {};
      SignedByNobody(c, Parsed(text).value, FingerprintOf(Parsed(text).value).value);
    } else {
      HistoryKeeps(c, stamps[..n], text);
      SignedByFingerprint(c, KeysOf(stamps[..n]), Parsed(text).value, FingerprintOf(Parsed(text).value).value, Parsed(before).value);
    }
    SignedByMore(c, KeysOf(stamps[..n]), Parsed(text).value, FingerprintOf(Parsed(text).value).value, Parsed(before).value, key, coin);
  }

  lemma UsableName(key: SecretKey)
    requires UsableKey(key)
    ensures ValidKeyName(key.name) && key.signer.Valid()
  {
  }

  lemma SignedByFingerprint(c: Scheme, keys: set<SecretKey>, origin: NarInfo, fingerprint: Text, info: NarInfo)
    requires SignedBy(c, keys, origin, fingerprint, info)
    ensures FingerprintOf(info) == Some(fingerprint)
  {
  }

  lemma SoleCandidate(half: Half, name: Text, es: seq<Text>, e: Text, sig: Bytes)
    requires Filter(es, Own(name)) == [e] && Candidate(half, name, e) == Some(sig)
    ensures Capped(Distinct(half, name, es)) == [sig]
  {
    hide Candidate, Filter, Distinct;
    DistinctOfOwn(half, name, es);
    DistinctOfOne(half, name, e, sig);
  }

  lemma SolePairChecked(c: Scheme, key: SecretKey, coin: nat, fingerprint: Text, info: NarInfo)
    requires Correct(c) && UsableKey(key)
    requires Filter(info.sigs, Own(key.name)) == [NewSig(c, key, coin, fingerprint)]
    requires Filter(info.sigPqc, Own(key.name)) == [NewSigPqc(c, key, coin, fingerprint)]
    ensures Checked(c, info.sigs, info.sigPqc, fingerprint, key.name, Public(c, key.signer)).Ok?
  {
    hide Filter, Candidate, Distinct, Capped, Sign, Public, Correct, SigEntry, EncodeSigPqc, VerifyEd25519, VerifyMlDsa;
    var sig, keys := Sign(c, key.signer, fingerprint, coin), Public(c, key.signer);
    ValidNamePlain(key.name);
    SignVerifies(c, key.signer, fingerprint, coin);
    VerifyLengths(c, keys, fingerprint, sig);
    CandidateOfEntry(key.name, sig.ed25519);
    CandidateOfPqcEntry(key.name, sig.mlDsa);
    SoleCandidate(Classical, key.name, info.sigs, NewSig(c, key, coin, fingerprint), sig.ed25519);
    SoleCandidate(PostQuantum, key.name, info.sigPqc, NewSigPqc(c, key, coin, fingerprint), sig.mlDsa);
    assert sig.ed25519 in [sig.ed25519] && HalfVerifies(c, Classical, keys, fingerprint, sig.ed25519);
    assert sig.mlDsa in [sig.mlDsa] && HalfVerifies(c, PostQuantum, keys, fingerprint, sig.mlDsa);
  }

  /** A key that holds its pair is accepted, by the hybrid check and by the classical one. */
  lemma PairAccepted(c: Scheme, key: SecretKey, fingerprint: Text, info: NarInfo)
    requires Correct(c) && UsableKey(key) && HoldsPair(c, key, fingerprint, info)
    ensures Checked(c, info.sigs, info.sigPqc, fingerprint, key.name, Public(c, key.signer)).Ok?
    ensures var (name, pubkey) := ParseNamedPubkey(NamedPubkey(c, key));
      exists s :: s in info.sigs && VerifySigEntry(c, fingerprint, s, name, pubkey)
  {
    hide Filter, NewSig, NewSigPqc, Checked, VerifySigEntry, ParseNamedPubkey, NamedPubkey, Correct, Public, ValidKeyName;
    var coin: nat :|
      && Filter(info.sigs, Own(key.name)) == [NewSig(c, key, coin, fingerprint)]
      && Filter(info.sigPqc, Own(key.name)) == [NewSigPqc(c, key, coin, fingerprint)];
    SolePairChecked(c, key, coin, fingerprint, info);
    NewSigVerifies(c, key, coin, fingerprint);
    FilterSubset(info.sigs, Own(key.name));
    assert NewSig(c, key, coin, fingerprint) in Filter(info.sigs, Own(key.name));
  }

  // ----- one run over a directory

  /** However a run ends and however often it comes across a file, it leaves each file as it
      was or signed exactly once; and a run that reports success has signed every document it
      came across. */
  lemma {:induction false} RunOutcome(c: Scheme, key: SecretKey, visits: seq<Visit>, files: map<Path, Text>, count: nat, p: Path)
    returns (signed: bool, coin: nat)
    requires ValidKeyName(key.name) && p in files
    ensures var (files', r) := SignVisits(c, key, visits, files, count);
      && files'.Keys == files.Keys
      && (if signed then SignText(c, key, coin, files[p]) == Ok(files'[p]) else files'[p] == files[p])
      && (signed ==> IsNarinfo(p) && exists v :: v in visits && v.path == p)
      && (r.Ok? && IsNarinfo(p) && (exists v :: v in visits && v.path == p) ==> signed)
  {
    hide SignText, IsNarinfo, ValidKeyName;
    if visits == [] {
      return false, 0;
    }
    var v := visits[0];
    var step := VisitFile(c, key, v, files);
    if step.Err? {
      return false, 0;
    }
    var rest := visits[1..];
    signed, coin := RunOutcome(c, key, rest, step.value, if IsNarinfo(v.path) then count + 1 else count, p);
    assert visits == [v] + rest;
    if v.path == p && IsNarinfo(p) {
      if signed {
        SignAgainReplaces(c, key, v.coin, coin, files[p]);
      } else {
        signed, coin := true, v.coin;
      }
    }
  }

  /** How many documents a successful run reports. */
  lemma {:induction false} RunCounts(c: Scheme, key: SecretKey, visits: seq<Visit>, files: map<Path, Text>, count: nat)
    requires SignVisits(c, key, visits, files, count).1.Ok?
    ensures SignVisits(c, key, visits, files, count).1.value == count + Documents(visits)
  {
    hide SignText, IsNarinfo;
    if visits != [] {
      var step := VisitFile(c, key, visits[0], files);
      RunCounts(c, key, visits[1..], step.value, if IsNarinfo(visits[0].path) then count + 1 else count);
    }
  }

  function Documents(visits: seq<Visit>): nat {
    if visits == [] then 0 else (if IsNarinfo(visits[0].path) then 1 else 0) + Documents(visits[1..])
  }

  /** A text that can be signed, whatever the key. */
  predicate Signable(text: Text) {
    ValidUtf8(text) && Parsed(text).Ok? && FingerprintOf(Parsed(text).value).Some?
  }

  /** Nothing goes wrong at this entry of the directory; a failed write can only hit a
      document. */
  predicate Smooth(v: Visit, files: map<Path, Text>) {
    && v.fault != EntryFault
    && (IsNarinfo(v.path) ==> v.path in files && Signable(files[v.path]) && v.fault == NoFault)
  }

  /** The same files, and the same of them can be signed. */
  predicate AsSignable(files: map<Path, Text>, files': map<Path, Text>) {
    files.Keys == files'.Keys && forall p :: p in files ==> (Signable(files[p]) <==> Signable(files'[p]))
  }

  lemma SignableExactly(c: Scheme, key: SecretKey, coin: nat, text: Text)
    ensures SignText(c, key, coin, text).Ok? <==> Signable(text)
  {
    hide ValidUtf8, Parsed, FingerprintOf, Printed, Resigned;
  }

  lemma SignedTextSignable(c: Scheme, key: SecretKey, coin: nat, text: Text)
    requires ValidKeyName(key.name) && SignText(c, key, coin, text).Ok?
    ensures Signable(text) && Signable(SignText(c, key, coin, text).value)
  {
    hide Signable, SignText, ValidKeyName;
    SignableExactly(c, key, coin, text);
    SignedIsSignable(c, key, coin, text, key, coin);
    SignableExactly(c, key, coin, SignText(c, key, coin, text).value);
  }

  lemma VisitExactly(c: Scheme, key: SecretKey, v: Visit, files: map<Path, Text>)
    requires ValidKeyName(key.name)
    ensures VisitFile(c, key, v, files).Ok? <==> Smooth(v, files)
    ensures VisitFile(c, key, v, files).Ok? ==> AsSignable(files, VisitFile(c, key, v, files).value)
  {
    hide Signable, SignText, ValidKeyName, IsNarinfo;
    if v.path in files {
      SignableExactly(c, key, v.coin, files[v.path]);
      if SignText(c, key, v.coin, files[v.path]).Ok? { SignedTextSignable(c, key, v.coin, files[v.path]); }
    }
  }

  lemma AsSmooth(v: Visit, files: map<Path, Text>, files': map<Path, Text>)
    requires AsSignable(files, files')
    ensures Smooth(v, files) <==> Smooth(v, files')
  {
    hide Signable, IsNarinfo;
    assert v.path in files <==> v.path in files.Keys;
  }

  /** When a run succeeds: nothing fails on the way, and every document it comes across is there
      and can be signed. Coming across a document again does no harm. */
  lemma {:induction false} RunSucceedsExactly(c: Scheme, key: SecretKey, visits: seq<Visit>, files: map<Path, Text>, count: nat)
    requires ValidKeyName(key.name)
    ensures SignVisits(c, key, visits, files, count).1.Ok? <==> forall v :: v in visits ==> Smooth(v, files)
  {
    hide Smooth, VisitFile, IsNarinfo, AsSignable, ValidKeyName;
    if visits != [] {
      var v, rest := visits[0], visits[1..];
      assert visits == [v] + rest;
      VisitExactly(c, key, v, files);
      if VisitFile(c, key, v, files).Ok? {
        var files' := VisitFile(c, key, v, files).value;
        RunSucceedsExactly(c, key, rest, files', if IsNarinfo(v.path) then count + 1 else count);
        forall w
          ensures Smooth(w, files) <==> Smooth(w, files')
        {
          AsSmooth(w, files, files');
        }
      } else {
        assert v in visits;
      }
    }
  }

  // ----- many runs

  datatype Run = Run(keyFile: Text, visits: seq<Visit>)

  function RunAll(c: Scheme, runs: seq<Run>, files: map<Path, Text>): map<Path, Text> {
    if runs == [] then files
    else
      var last := runs[|runs| - 1];
      SignRun(c, last.keyFile, last.visits, RunAll(c, runs[..|runs| - 1], files)).0
  }

  /** Run `i` came across `p` and reported success. */
  predicate Completed(c: Scheme, runs: seq<Run>, files: map<Path, Text>, i: nat, p: Path)
    requires i < |runs|
  {
    && SignRun(c, runs[i].keyFile, runs[i].visits, RunAll(c, runs[..i], files)).1.Ok?
    && exists v :: v in runs[i].visits && v.path == p
  }

  lemma LoadedIsUsable(keyFile: Text)
    requires LoadSecret(keyFile).Ok?
    ensures UsableKey(LoadSecret(keyFile).value)
  {
  }

  lemma CompletedEarlier(c: Scheme, runs: seq<Run>, files: map<Path, Text>, i: nat, p: Path)
    requires i < |runs| - 1 && Completed(c, runs, files, i, p)
    ensures Completed(c, runs[..|runs| - 1], files, i, p)
  {
    hide SignRun, RunAll;
    assert runs[..|runs| - 1][..i] == runs[..i];
  }

  lemma {:induction false} RunsHistory(c: Scheme, runs: seq<Run>, files: map<Path, Text>, p: Path) returns (stamps: seq<Stamp>)
    requires p in files
    ensures p in RunAll(c, runs, files) && SignAll(c, stamps, files[p]) == Ok(RunAll(c, runs, files)[p])
    ensures !IsNarinfo(p) ==> stamps == []
    ensures forall k :: k in KeysOf(stamps) ==> exists r :: r in runs && LoadSecret(r.keyFile) == Ok(k)
    ensures IsNarinfo(p) ==> forall i :: 0 <= i < |runs| && Completed(c, runs, files, i, p) ==>
      LoadSecret(runs[i].keyFile).Ok? && LoadSecret(runs[i].keyFile).value in KeysOf(stamps)
  {
    hide SignText, IsNarinfo, LoadSecret, SignVisits, UsableKey;
    stamps := [];
    if runs != [] {
      var n := |runs| - 1;
      stamps := RunsHistory(c, runs[..n], files, p);
      var run, before := runs[n], RunAll(c, runs[..n], files);
      assert runs[n] in runs;
      var earlier := stamps;
      if LoadSecret(run.keyFile).Ok? {
        var key := LoadSecret(run.keyFile).value;
        LoadedIsUsable(run.keyFile);
        UsableName(key);
        var signed, coin := RunOutcome(c, key, run.visits, before, 0, p);
        if signed {
          stamps := earlier + [Stamp(key, coin)];
          assert stamps[..|stamps| - 1] == earlier;
          assert KeysOf(stamps) == KeysOf(earlier) + {key};
        }
      }
      forall i | 0 <= i < |runs| && Completed(c, runs, files, i, p) && IsNarinfo(p)
        ensures LoadSecret(runs[i].keyFile).Ok? && LoadSecret(runs[i].keyFile).value in KeysOf(stamps)
      {
        if i < n { CompletedEarlier(c, runs, files, i, p); }
      }
    }
  }

  lemma RunAsSignable(c: Scheme, run: Run, files: map<Path, Text>)
    ensures AsSignable(files, SignRun(c, run.keyFile, run.visits, files).0)
  {
    hide Signable, SignText, SignVisits, LoadSecret, UsableKey, IsNarinfo;
    var files' := SignRun(c, run.keyFile, run.visits, files).0;
    if LoadSecret(run.keyFile).Ok? {
      var key := LoadSecret(run.keyFile).value;
      LoadedIsUsable(run.keyFile);
      UsableName(key);
      if files == map[] {
        NoFiles(c, key, run.visits, 0);
      }
      forall p | p in files
        ensures files'.Keys == files.Keys && (Signable(files[p]) <==> Signable(files'[p]))
      {
        var signed, coin := RunOutcome(c, key, run.visits, files, 0, p);
        if signed { SignedTextSignable(c, key, coin, files[p]); }
      }
      assert files != map[] ==> exists p :: p in files;
    }
  }

  lemma {:induction false} NoFiles(c: Scheme, key: SecretKey, visits: seq<Visit>, count: nat)
    ensures SignVisits(c, key, visits, map[], count).0 == map[]
  {
    hide SignText, IsNarinfo;
    if visits != [] {
      NoFiles(c, key, visits[1..], if IsNarinfo(visits[0].path) then count + 1 else count);
    }
  }

  lemma {:induction false} RunsAsSignable(c: Scheme, runs: seq<Run>, files: map<Path, Text>)
    ensures AsSignable(files, RunAll(c, runs, files))
  {
    hide Signable, SignRun;
    if runs != [] {
      var n := |runs| - 1;
      RunsAsSignable(c, runs[..n], files);
      RunAsSignable(c, runs[n], RunAll(c, runs[..n], files));
    }
  }

  /** When a run among others succeeds: its key file loads, nothing fails on the way, and the
      documents it comes across were there and could be signed before all of the runs. Earlier
      runs, aborted or not, make no difference. */
  lemma CompletedExactly(c: Scheme, runs: seq<Run>, files: map<Path, Text>, i: nat, p: Path)
    requires i < |runs|
    ensures Completed(c, runs, files, i, p) <==>
      && LoadSecret(runs[i].keyFile).Ok?
      && (forall v :: v in runs[i].visits ==> Smooth(v, files))
      && exists v :: v in runs[i].visits && v.path == p
  {
    hide Smooth, AsSignable, LoadSecret, SignVisits, UsableKey;
    var visits, before := runs[i].visits, RunAll(c, runs[..i], files);
    RunsAsSignable(c, runs[..i], files);
    forall v
      ensures Smooth(v, files) <==> Smooth(v, before)
    {
      AsSmooth(v, files, before);
    }
    if LoadSecret(runs[i].keyFile).Ok? {
      var key := LoadSecret(runs[i].keyFile).value;
      LoadedIsUsable(runs[i].keyFile);
      UsableName(key);
      RunSucceedsExactly(c, key, visits, before, 0);
    }
  }

  /** The keys of a sequence of runs. */
  function RunKeys(runs: seq<Run>): set<SecretKey> {
    set r | r in runs && LoadSecret(r.keyFile).Ok? :: LoadSecret(r.keyFile).value
  }

  /** After any sequence of runs, completed or aborted, with keys of distinct names: a file is
      untouched, or its signers are among the runs' keys and include those of all completed
      runs that came across it; then nothing but their entries differs from the original, each
      of them holds exactly one pair, and each of them is accepted. */
  lemma RunsKeepEveryFile(c: Scheme, runs: seq<Run>, files: map<Path, Text>, p: Path) returns (signers: set<SecretKey>)
    requires Correct(c) && p in files && DistinctNames(RunKeys(runs))
    ensures p in RunAll(c, runs, files) && signers <= RunKeys(runs)
    ensures IsNarinfo(p) ==> forall i :: 0 <= i < |runs| && Completed(c, runs, files, i, p) ==>
      LoadSecret(runs[i].keyFile).Ok? && LoadSecret(runs[i].keyFile).value in signers
    ensures signers == {} ==> RunAll(c, runs, files)[p] == files[p]
    ensures signers != {} ==>
      && Parsed(files[p]).Ok? && FingerprintOf(Parsed(files[p]).value).Some?
      && Parsed(RunAll(c, runs, files)[p]).Ok?
      && var origin, fingerprint := Parsed(files[p]).value, FingerprintOf(Parsed(files[p]).value).value;
      var info := Parsed(RunAll(c, runs, files)[p]).value;
      && SignedBy(c, signers, origin, fingerprint, info)
      && forall k :: k in signers ==>
        Checked(c, info.sigs, info.sigPqc, fingerprint, k.name, Public(c, k.signer)).Ok?
  {
    hide SignText, Parsed, FingerprintOf, LoadSecret, Completed, RunAll, Checked, HoldsPair, UsableKey, IsNarinfo, Correct;
    var stamps := RunsHistory(c, runs, files, p);
    signers := KeysOf(stamps);
    forall k | k in signers
      ensures k in RunKeys(runs)
    {
      var r :| r in runs && LoadSecret(r.keyFile) == Ok(k);
    }
    assert stamps != [] ==> stamps[0].key in signers;
    if stamps != [] {
      HistoryKeeps(c, stamps, files[p]);
      var info := Parsed(RunAll(c, runs, files)[p]).value;
      forall k | k in signers
        ensures Checked(c, info.sigs, info.sigPqc, FingerprintOf(Parsed(files[p]).value).value, k.name, Public(c, k.signer)).Ok?
      {
        PairAccepted(c, k, FingerprintOf(Parsed(files[p]).value).value, info);
      }
    }
  }
}
