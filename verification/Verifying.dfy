/** `verify`: the decision about one document, and what it decides about documents that were
    signed with `sign`. */
module Verifying {
  import opened ByteText
  import opened Base64
  import opened NarInfos
  import opened RoundTrip
  import opened Fingerprints
  import opened Hybrid
  import opened Keys
  import opened HybridCheck
  import opened Utf8
  import opened Endorsement
  import opened Signing
  import opened SigningRuns

  datatype VerifyError =
    | NothingRequested
    | NotText
    | BadDocument(parseError: ParseError)
    | NoFingerprint
    | ClassicalFailed
    | BadPublicKey(keyError: KeyError)
    | HybridFailed
    | PqcRequired

  predicate ClassicalOk(c: Scheme, info: NarInfo, fingerprint: Text, pubkey: Text) {
    var (name, key) := ParseNamedPubkey(pubkey);
    exists s :: s in info.sigs && VerifySigEntry(c, fingerprint, s, name, key)
  }

  predicate HybridOk(c: Scheme, info: NarInfo, fingerprint: Text, pk: PublicKey) {
    Checked(c, info.sigs, info.sigPqc, fingerprint, pk.name, pk.keys).Ok?
  }

  /** The checks on a document that was read. */
  function Decision(c: Scheme, info: NarInfo, fingerprint: Text, pubkey: Option<Text>, pqcFile: Option<Text>, requirePqc: bool)
    : Result<(), VerifyError>
  {
    if pubkey.Some? && !ClassicalOk(c, info, fingerprint, pubkey.value) then Err(ClassicalFailed)
    else if pqcFile.None? then (if requirePqc then Err(PqcRequired) else Ok(()))
    else match LoadPublic(pqcFile.value)
      case Err(e) => Err(BadPublicKey(e))
      case Ok(pk) =>
        if !HybridOk(c, info, fingerprint, pk) && (requirePqc || info.sigPqc != []) then Err(HybridFailed)
        else Ok(())
  }

  function Verdict(c: Scheme, text: Text, pubkey: Option<Text>, pqcFile: Option<Text>, requirePqc: bool): Result<(), VerifyError> {
    if pubkey.None? && pqcFile.None? then Err(NothingRequested)
    else if !ValidUtf8(text) then Err(NotText)
    else match Parsed(text)
      case Err(e) => Err(BadDocument(e))
      case Ok(info) =>
        match FingerprintOf(info)
        case None => Err(NoFingerprint)
        case Some(fingerprint) => Decision(c, info, fingerprint, pubkey, pqcFile, requirePqc)
  }

  method AnyClassical(c: Scheme, sigs: seq<Text>, fingerprint: Text, pubkey: Text) returns (ok: bool)
    ensures var (name, key) := ParseNamedPubkey(pubkey);
      ok <==> exists s :: s in sigs && VerifySigEntry(c, fingerprint, s, name, key)
  {
    hide VerifySigEntry, ParseNamedPubkey;
    var (name, key) := ParseNamedPubkey(pubkey);
    for i := 0 to |sigs|
      invariant forall j :: 0 <= j < i ==> !VerifySigEntry(c, fingerprint, sigs[j], name, key)
    {
      if VerifySigEntry(c, fingerprint, sigs[i], name, key) {
        return true;
      }
    }
    return false;
  }

  method CmdVerify(c: Scheme, text: Text, pubkey: Option<Text>, pqcFile: Option<Text>, requirePqc: bool)
    returns (r: Result<(), VerifyError>)
    ensures r == Verdict(c, text, pubkey, pqcFile, requirePqc)
  {
    hide ValidUtf8, Parsed, FingerprintOf, VerifySigEntry, ParseNamedPubkey, LoadPublic, Checked;
    if pubkey.None? && pqcFile.None? {
      return Err(NothingRequested);
    }
    if !ValidUtf8(text) {
      return Err(NotText);
    }
    var parsed := Parse(text);
    if parsed.Err? {
      return Err(BadDocument(parsed.error));
    }
    var info := parsed.value;
    var fp := Fingerprint(info);
    if fp.None? {
      return Err(NoFingerprint);
    }
    var fingerprint := fp.value;
    if pubkey.Some? {
      var ok := AnyClassical(c, info.sigs, fingerprint, pubkey.value);
      if !ok {
        return Err(ClassicalFailed);
      }
    }
    var pqcOk := false;
    if pqcFile.Some? {
      var pk := LoadPublic(pqcFile.value);
      if pk.Err? {
        return Err(BadPublicKey(pk.error));
      }
      var checked := VerifyHybrid(c, info.sigs, info.sigPqc, fingerprint, pk.value.name, pk.value.keys);
      pqcOk := checked.Ok?;
      if !pqcOk && (requirePqc || info.sigPqc != []) {
        return Err(HybridFailed);
      }
    }
    if requirePqc && !pqcOk {
      return Err(PqcRequired);
    }
    return Ok(());
  }

  // ----- signing is enough to be verified

  /** After any sequence of `sign` runs with keys of distinct names, a document passes `verify`
      for every key whose completed run came across it, with that key's named classical key and
      its public file and with the hybrid signature required. */
  lemma SignedVerifies(c: Scheme, runs: seq<Run>, files: map<Path, Text>, p: Path, i: nat)
    requires Correct(c) && p in files && IsNarinfo(p) && DistinctNames(RunKeys(runs))
    requires i < |runs| && Completed(c, runs, files, i, p)
    ensures p in RunAll(c, runs, files) && LoadSecret(runs[i].keyFile).Ok?
    ensures var key := LoadSecret(runs[i].keyFile).value;
      Verdict(c, RunAll(c, runs, files)[p], Some(NamedPubkey(c, key)), Some(PublicText(PublicOf(c, key))), true) == Ok(())
  {
    hide SignText, Parsed, Printed, FingerprintOf, LoadSecret, Completed, RunAll, Checked, HoldsPair, IsNarinfo, UsableKey,
      ValidUtf8, LoadPublic, PublicText, VerifySigEntry, ParseNamedPubkey, NamedPubkey, Public, Correct, ValidKeyName;
    var stamps := RunsHistory(c, runs, files, p);
    var key := LoadSecret(runs[i].keyFile).value;
    var signers := KeysOf(stamps);
    assert DistinctNames(signers) by {
      forall k | k in signers
        ensures k in RunKeys(runs)
      {
        var r :| r in runs && LoadSecret(r.keyFile) == Ok(k);
      }
    }
    assert key in signers;
    var s :| s in stamps && s.key == key;
    assert stamps != [];
    var text := RunAll(c, runs, files)[p];
    HistoryKeeps(c, stamps, files[p]);
    var info, fingerprint := Parsed(text).value, FingerprintOf(Parsed(files[p]).value).value;
    assert HoldsPair(c, key, fingerprint, info);
    PairAccepted(c, key, fingerprint, info);
    SignedText(c, stamps, files[p]);
    UsableName(key);
    PublicLoads(c, key);
  }

  /** Sign, then verify, from the documents alone: a saved key, a directory scan on which nothing
      fails and whose documents could be signed before any of the runs. The run succeeds and
      reports its number of documents, and each document it came across passes `verify` with
      that key's named classical key and public file and the hybrid signature required, whatever
      runs with other keys came before or follow. */
  lemma SignThenVerify(c: Scheme, key: SecretKey, runs: seq<Run>, files: map<Path, Text>, i: nat, p: Path)
    requires Correct(c) && UsableKey(key) && DistinctNames(RunKeys(runs))
    requires i < |runs| && runs[i].keyFile == SecretText(key)
    requires forall v :: v in runs[i].visits ==> Smooth(v, files)
    requires IsNarinfo(p) && exists v :: v in runs[i].visits && v.path == p
    ensures SignRun(c, SecretText(key), runs[i].visits, RunAll(c, runs[..i], files)).1 == Ok(Documents(runs[i].visits))
    ensures p in RunAll(c, runs, files)
      && Verdict(c, RunAll(c, runs, files)[p], Some(NamedPubkey(c, key)), Some(PublicText(PublicOf(c, key))), true) == Ok(())
  {
    hide Smooth, LoadSecret, SecretText, RunAll, SignVisits, UsableKey, DistinctNames, RunKeys, IsNarinfo, Verdict, Documents;
    UsableName(key);
    SecretFileRoundTrip(key);
    CompletedExactly(c, runs, files, i, p);
    RunCounts(c, key, runs[i].visits, RunAll(c, runs[..i], files), 0);
    SmoothPresent(runs[i].visits, files, p);
    SignedVerifies(c, runs, files, p, i);
  }

  lemma SmoothPresent(visits: seq<Visit>, files: map<Path, Text>, p: Path)
    requires forall v :: v in visits ==> Smooth(v, files)
    requires IsNarinfo(p) && exists v :: v in visits && v.path == p
    ensures p in files
  {
    hide IsNarinfo, Signable;
  }

  /** The same for a single run. */
  lemma SignOnceThenVerify(c: Scheme, key: SecretKey, visits: seq<Visit>, files: map<Path, Text>)
    requires Correct(c) && UsableKey(key) && forall v :: v in visits ==> Smooth(v, files)
    ensures var (files', r) := SignRun(c, SecretText(key), visits, files);
      && r == Ok(Documents(visits))
      && forall v :: v in visits && IsNarinfo(v.path) ==>
        v.path in files' && Verdict(c, files'[v.path], Some(NamedPubkey(c, key)), Some(PublicText(PublicOf(c, key))), true) == Ok(())
  {
    hide Smooth, LoadSecret, SecretText, SignVisits, UsableKey, IsNarinfo, Verdict, Documents;
    var runs := [Run(SecretText(key), visits)];
    UsableName(key);
    SecretFileRoundTrip(key);
    assert RunKeys(runs) == {key};
    assert runs[..0] == [] && RunAll(c, [], files) == files;
    assert RunAll(c, runs, files) == SignRun(c, SecretText(key), visits, files).0;
    RunSucceedsExactly(c, key, visits, files, 0);
    RunCounts(c, key, visits, files, 0);
    forall v | v in visits && IsNarinfo(v.path)
      ensures v.path in RunAll(c, runs, files)
        && Verdict(c, RunAll(c, runs, files)[v.path], Some(NamedPubkey(c, key)), Some(PublicText(PublicOf(c, key))), true) == Ok(())
    {
      SignThenVerify(c, key, runs, files, 0, v.path);
    }
  }

  lemma PublicLoads(c: Scheme, key: SecretKey)
    requires Correct(c) && UsableKey(key)
    ensures LoadPublic(PublicText(PublicOf(c, key))) == Ok(PublicKey(key.name, Public(c, key.signer)))
  {
    SignVerifies(c, key.signer, "", 0);
    hide LoadPublic, PublicText, ValidKeyName, Correct, Sign;
    PublicFileRoundTrip(PublicOf(c, key));
  }

  /** A document that has been signed is UTF-8. */
  lemma SignedText(c: Scheme, stamps: seq<Stamp>, text: Text)
    requires stamps != [] && DistinctNames(KeysOf(stamps)) && SignAll(c, stamps, text).Ok?
    ensures ValidUtf8(SignAll(c, stamps, text).value)
  {
    hide SignText, ValidUtf8, ValidKeyName;
    var n := |stamps| - 1;
    var s := stamps[n];
    assert s in stamps && s.key in KeysOf(stamps);
    SignedIsSignable(c, s.key, s.coin, SignAll(c, stamps[..n], text).value, s.key, s.coin);
    SignableIsText(c, s.key, s.coin, SignAll(c, stamps, text).value);
  }

  lemma SignableIsText(c: Scheme, key: SecretKey, coin: nat, text: Text)
    requires SignText(c, key, coin, text).Ok?
    ensures ValidUtf8(text)
  {
    hide ValidUtf8, Parsed, FingerprintOf, Printed;
  }

  // ----- what success means

  /** Some signature asked for was found to verify. */
  predicate Authenticated(c: Scheme, info: NarInfo, fingerprint: Text, pubkey: Option<Text>, pqcFile: Option<Text>) {
    || (pubkey.Some? && ClassicalOk(c, info, fingerprint, pubkey.value))
    || (pqcFile.Some? && LoadPublic(pqcFile.value).Ok? && HybridOk(c, info, fingerprint, LoadPublic(pqcFile.value).value))
  }

  /** What success says: some signature asked for was found to verify, unless only a hybrid key
      was given, the hybrid signature was not required, and the document carries no `Sig-PQC`
      line at all. (With no key at all the command refuses.) */
  lemma SuccessWithoutCheck(c: Scheme, text: Text, pubkey: Option<Text>, pqcFile: Option<Text>, requirePqc: bool)
    requires ValidUtf8(text) && Parsed(text).Ok? && FingerprintOf(Parsed(text).value).Some?
    ensures var info, fingerprint := Parsed(text).value, FingerprintOf(Parsed(text).value).value;
      Verdict(c, text, pubkey, pqcFile, requirePqc).Ok? && !Authenticated(c, info, fingerprint, pubkey, pqcFile) <==>
        pubkey.None? && pqcFile.Some? && LoadPublic(pqcFile.value).Ok? && !requirePqc && info.sigPqc == []
  {
    hide ValidUtf8, Parsed, FingerprintOf, VerifySigEntry, ParseNamedPubkey, LoadPublic, Distinct, AnyVerifies;
    if pqcFile.Some? && LoadPublic(pqcFile.value).Ok? {
      NoPqcNoHybrid(c, Parsed(text).value.sigs, FingerprintOf(Parsed(text).value).value, LoadPublic(pqcFile.value).value);
    }
  }

  lemma NoPqcNoHybrid(c: Scheme, sigs: seq<Text>, fingerprint: Text, pk: PublicKey)
    ensures !Checked(c, sigs, [], fingerprint, pk.name, pk.keys).Ok?
  {
  }

  lemma UnsignedAccepted(c: Scheme, info: NarInfo, pk: PublicKey)
    requires WellFormed(info) && ValidInfo(info) && FingerprintOf(info).Some? && info.sigPqc == []
    requires |pk.keys.ed25519| == ED25519_PUBLIC_KEY_LEN && |pk.keys.mlDsa| == ML_DSA_65_PUBLIC_KEY_LEN
    requires ValidKeyName(pk.name)
    ensures Parsed(Printed(info)) == Ok(info)
    ensures Verdict(c, Printed(info), None, Some(PublicText(pk)), false) == Ok(())
  {
    hide PublicText, LoadPublic, Printed, Parsed, ValidUtf8, WellFormed, ValidInfo, FingerprintOf, ValidKeyName, Verdict;
    PublicFileRoundTrip(pk);
    PrintThenParse(info);
    PrintedValid(info);
    SuccessWithoutCheck(c, Printed(info), None, Some(PublicText(pk)), false);
    var verdict := Verdict(c, Printed(info), None, Some(PublicText(pk)), false);
    assert verdict.Ok? && verdict.value == ();
  }

  /** A concrete call of that family: an unsigned document passes. */
  lemma UnsignedPasses(c: Scheme)
    ensures var text := Printed(EMPTY.(storePath := "/s/x", narHash := "h"));
      var pqcFile := PublicText(PublicKey("k", VerifyingKeys(Constant(0, 32), Constant(0, 1952))));
      && Parsed(text).Ok? && Parsed(text).value.sigs == [] && Parsed(text).value.sigPqc == []
      && Verdict(c, text, None, Some(pqcFile), false) == Ok(())
  {
    hide PublicText, LoadPublic, Constant, Printed, Parsed, ValidUtf8, WellFormed, ValidInfo, FingerprintOf, Verdict;
    SmallestDocument();
    ConstantLengths();
    UnsignedAccepted(c, EMPTY.(storePath := "/s/x", narHash := "h"),
                     PublicKey("k", VerifyingKeys(Constant(0, 32), Constant(0, 1952))));
  }

  lemma SmallestDocument()
    ensures var info := EMPTY.(storePath := "/s/x", narHash := "h");
      WellFormed(info) && ValidInfo(info) && FingerprintOf(info).Some?
  {
    hide ValidUtf8, Join, Split, FindLast, Sorted, Qualified;
    AsciiValid("/s/x");
    AsciiValid("h");
    AsciiValid("");
    assert "/s/x"[2] == '/';
    assert Join([], ' ') == "" by { JoinNothing(); }
  }

  lemma JoinNothing()
    ensures Join([], ' ') == ""
  {
  }

  // ----- against the policy table of the RFC

  datatype PqcState = Missing | Valid | Invalid

  /** The hybrid half of the table for one key, by the RFC's rule of pairing lines of the same
      name: no `Sig-PQC` line under the key's name, or one that forms with a `Sig` line of that
      name a pair of which both halves verify, or neither. */
  ghost function StateOf(c: Scheme, info: NarInfo, fingerprint: Text, pk: PublicKey): PqcState {
    if forall e :: e in info.sigPqc ==> !StartsWith(e, pk.name + ":") then Missing
    else if SomePairVerifies(c, info.sigs, info.sigPqc, fingerprint, pk.name, pk.keys) then Valid
    else Invalid
  }

  /** The table's last column, from its first three. */
  predicate RfcTrusts(classicalValid: bool, pqc: PqcState, requirePqc: bool) {
    match (classicalValid, pqc, requirePqc)
    case (false, _, _) => false
    case (true, Missing, false) => true
    case (true, Valid, false) => true
    case (true, Invalid, false) => true
    case (true, Valid, true) => true
    case (true, Missing, true) => false
    case (true, Invalid, true) => false
  }

  /** A valid pair in which one half stands behind 32 other signatures of its name. */
  ghost predicate OutOfReach(c: Scheme, info: NarInfo, fingerprint: Text, pk: PublicKey) {
    || !InReach(c, Classical, info.sigs, fingerprint, pk.name, pk.keys)
    || !InReach(c, PostQuantum, info.sigPqc, fingerprint, pk.name, pk.keys)
  }

  /** Given both keys, the command trusts what the table trusts, except in three families: a
      post-quantum signature that was not required is present but invalid; one that was not
      required is missing under the key's name while other names have one; or a valid pair is
      hidden behind the cap. */
  lemma RfcDifference(c: Scheme, info: NarInfo, fingerprint: Text, pubkey: Text, pqcFile: Text, requirePqc: bool)
    requires LoadPublic(pqcFile).Ok?
    ensures var pk := LoadPublic(pqcFile).value;
      var pqc := StateOf(c, info, fingerprint, pk);
      Decision(c, info, fingerprint, Some(pubkey), Some(pqcFile), requirePqc).Ok? <==>
        && RfcTrusts(ClassicalOk(c, info, fingerprint, pubkey), pqc, requirePqc)
        && !(pqc == Invalid && !requirePqc)
        && !(pqc == Missing && !requirePqc && info.sigPqc != [])
        && !(pqc == Valid && OutOfReach(c, info, fingerprint, pk))
  {
    hide LoadPublic, Checked, VerifySigEntry, ParseNamedPubkey, SomePairVerifies, InReach, Candidate;
    var pk := LoadPublic(pqcFile).value;
    NoPqcNoHybrid(c, info.sigs, fingerprint, pk);
    AcceptsExactly(c, info.sigs, info.sigPqc, fingerprint, pk.name, pk.keys);
    RefinesAllPairs(c, info.sigs, info.sigPqc, fingerprint, pk.name, pk.keys);
    if StateOf(c, info, fingerprint, pk) == Missing { MissingHasNoPair(c, info, fingerprint, pk); }
  }

  lemma MissingHasNoPair(c: Scheme, info: NarInfo, fingerprint: Text, pk: PublicKey)
    requires StateOf(c, info, fingerprint, pk) == Missing
    ensures !SomePairVerifies(c, info.sigs, info.sigPqc, fingerprint, pk.name, pk.keys)
  {
  }

  /** Both families at work on any document: signed with one key in the classical way and carrying
      one `Sig-PQC` line that is nothing to a second key, it is trusted by the table and refused
      by the command, when that second key is given and its signature is not required. */
  lemma ForeignPqcRefused(c: Scheme, info: NarInfo, key: SecretKey, coin: nat, fingerprint: Text, line: Text, pk: PublicKey)
    requires Correct(c) && UsableKey(key)
    requires LoadPublic(PublicText(pk)) == Ok(pk) && Candidate(PostQuantum, pk.name, line).None?
    ensures var signed := info.(sigs := [NewSig(c, key, coin, fingerprint)], sigPqc := [line]);
      var pubkey := NamedPubkey(c, key);
      && StateOf(c, signed, fingerprint, pk) == (if StartsWith(line, pk.name + ":") then Invalid else Missing)
      && RfcTrusts(ClassicalOk(c, signed, fingerprint, pubkey), StateOf(c, signed, fingerprint, pk), false)
      && Decision(c, signed, fingerprint, Some(pubkey), Some(PublicText(pk)), false) == Err(HybridFailed)
  {
    hide LoadPublic, PublicText, VerifySigEntry, ParseNamedPubkey, NewSig, NamedPubkey, StartsWith, Candidate, Correct, ValidKeyName;
    var signed := info.(sigs := [NewSig(c, key, coin, fingerprint)], sigPqc := [line]);
    NewSigVerifies(c, key, coin, fingerprint);
    assert signed.sigs[0] in signed.sigs && signed.sigPqc[0] == line;
    assert line in signed.sigPqc;
    assert ClassicalOk(c, signed, fingerprint, NamedPubkey(c, key));
    RefinesAllPairs(c, signed.sigs, signed.sigPqc, fingerprint, pk.name, pk.keys);
  }

  /** A call that shows it: `sign` with one key an unsigned document, then `verify` it with that
      key's classical half and, without requiring it, the hybrid key of somebody else. */
  lemma OtherNameRefused(c: Scheme, text: Text, key: SecretKey, coin: nat, other: SecretKey)
    requires Correct(c) && UsableKey(key) && UsableKey(other) && key.name != other.name
    requires Signable(text) && Parsed(text).value.sigs == [] && Parsed(text).value.sigPqc == []
    ensures SignText(c, key, coin, text).Ok? && Parsed(SignText(c, key, coin, text).value).Ok?
    ensures var signed, pk := SignText(c, key, coin, text).value, PublicOf(c, other);
      var info, fingerprint := Parsed(signed).value, FingerprintOf(Parsed(text).value).value;
      && StateOf(c, info, fingerprint, pk) == Missing
      && RfcTrusts(ClassicalOk(c, info, fingerprint, NamedPubkey(c, key)), Missing, false)
      && Verdict(c, signed, Some(NamedPubkey(c, key)), Some(PublicText(pk)), false) == Err(HybridFailed)
  {
    hide NewSig, NewSigPqc, NamedPubkey, PublicText, LoadPublic, StartsWith, Correct, ValidKeyName, Public, Decision,
      ClassicalOk, ValidUtf8, Parsed, FingerprintOf, Printed, SignText, Filter, StateOf;
    UsableName(key);
    UsableName(other);
    PublicLoads(c, other);
    SignableExactly(c, key, coin, text);
    SignedIsRead(c, key, coin, text);
    SignedTextSignable(c, key, coin, text);
    var info, fingerprint := Parsed(text).value, FingerprintOf(Parsed(text).value).value;
    var line := NewSigPqc(c, key, coin, fingerprint);
    ForeignLine(c, key, coin, fingerprint, other.name);
    ForeignPqcRefused(c, info, key, coin, fingerprint, line, PublicOf(c, other));
    ResignedUnsigned(c, key, coin, fingerprint, info);
  }

  lemma ForeignLine(c: Scheme, key: SecretKey, coin: nat, fingerprint: Text, name: Text)
    requires ValidKeyName(key.name) && ValidKeyName(name) && key.name != name
    ensures !StartsWith(NewSigPqc(c, key, coin, fingerprint), name + ":")
    ensures Candidate(PostQuantum, name, NewSigPqc(c, key, coin, fingerprint)).None?
  {
    hide NewSigPqc, StartsWith, ValidKeyName;
    NewEntriesAreOwn(c, key, coin, fingerprint);
    ValidNamePlain(key.name);
    ValidNamePlain(name);
    var line := NewSigPqc(c, key, coin, fingerprint);
    if StartsWith(line, name + ":") { NamesExclude(line, key.name, name); }
  }

  lemma ResignedUnsigned(c: Scheme, key: SecretKey, coin: nat, fingerprint: Text, info: NarInfo)
    requires info.sigs == [] && info.sigPqc == []
    ensures Resigned(c, key, coin, fingerprint, info)
         == info.(sigs := [NewSig(c, key, coin, fingerprint)], sigPqc := [NewSigPqc(c, key, coin, fingerprint)])
  {
    hide NewSig, NewSigPqc;
  }

  /** The third family at work: with 32 other signatures of its name in front, a signer's valid
      pair is trusted by the table and refused by the command, required or not, although its
      classical key alone is accepted. */
  lemma CapRefused(c: Scheme, info: NarInfo, pk: PublicKey, fingerprint: Text, decoys: seq<Bytes>, sig: Signature, requirePqc: bool)
    requires LoadPublic(PublicText(pk)) == Ok(pk) && ':' !in pk.name && |decoys| == MAX_SIG_CANDIDATES
    requires forall s :: s in decoys ==> |s| == ED25519_SIGNATURE_LEN && !VerifyEd25519(c, pk.keys.ed25519, fingerprint, s)
    requires forall i, j :: 0 <= i < j < |decoys| ==> decoys[i] != decoys[j]
    requires Verify(c, pk.keys, fingerprint, sig)
    ensures var doc := info.(sigs := SigEntries(pk.name, decoys + [sig.ed25519]), sigPqc := [EncodeSigPqc(pk.name, sig.mlDsa)]);
      var pubkey := SigEntry(pk.name, pk.keys.ed25519);
      && StateOf(c, doc, fingerprint, pk) == Valid
      && RfcTrusts(ClassicalOk(c, doc, fingerprint, pubkey), Valid, requirePqc)
      && Decision(c, doc, fingerprint, Some(pubkey), Some(PublicText(pk)), requirePqc) == Err(HybridFailed)
  {
    hide LoadPublic, PublicText, VerifySigEntry, ParseNamedPubkey, SigEntry, EncodeSigPqc, StartsWith, SigEntries, Checked,
      SomePairVerifies, Verify, VerifyEd25519;
    CapHidesValidPair(c, pk.name, pk.keys, fingerprint, decoys, sig);
    var sigs := SigEntries(pk.name, decoys + [sig.ed25519]);
    var e, p := SigEntry(pk.name, sig.ed25519), EncodeSigPqc(pk.name, sig.mlDsa);
    assert e in sigs by { LastEntry(pk.name, decoys, sig.ed25519); }
    NamedKeyVerifies(c, pk, fingerprint, sig);
    assert p in [p] && StartsWith(p, pk.name + ":") by { PqcEntryIsOwn(pk.name, sig.mlDsa); }
  }

  lemma LastEntry(name: Text, sigs: seq<Bytes>, last: Bytes)
    ensures SigEntry(name, last) in SigEntries(name, sigs + [last])
  {
    hide SigEntry;
    assert SigEntries(name, sigs + [last])[|sigs|] == SigEntry(name, last);
  }

  lemma PqcEntryIsOwn(name: Text, sig: Bytes)
    ensures StartsWith(EncodeSigPqc(name, sig), name + ":")
  {
    hide SigEntry, StartsWith;
    EntryIsOwn(name, [ML_DSA_65_TAG] + sig);
  }

  lemma NamedKeyVerifies(c: Scheme, pk: PublicKey, fingerprint: Text, sig: Signature)
    requires ':' !in pk.name && Verify(c, pk.keys, fingerprint, sig)
    ensures var (name, key) := ParseNamedPubkey(SigEntry(pk.name, pk.keys.ed25519));
      VerifySigEntry(c, fingerprint, SigEntry(pk.name, sig.ed25519), name, key)
  {
    hide Encode, Decode, VerifySigEntry;
    var ed := pk.keys.ed25519;
    SplitOnceAt(pk.name, ':', Encode(ed));
    assert SigEntry(pk.name, ed) == pk.name + [':'] + Encode(ed);
    VerifySigEntryExact(c, fingerprint, SigEntry(pk.name, sig.ed25519), Some(pk.name), Encode(ed));
  }
}
