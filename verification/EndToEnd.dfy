/** Documents that are signed, pass through proxies, and are verified. */
module EndToEnd {
  import opened ByteText
  import opened NarInfos
  import opened Fingerprints
  import opened Hybrid
  import opened Keys
  import opened HybridCheck
  import opened Utf8
  import opened Endorsement
  import opened Proxy
  import opened ProxyChain
  import opened Signing
  import opened SigningRuns
  import opened Verifying

  /** What a chain serves is a document in good order, with the origin's fingerprint. */
  lemma ServedInOrder(c: Scheme, hops: seq<Hop>, body: Text)
    requires hops != [] && AllValid(hops) && ValidUtf8(body) && Chain(c, hops, body).Ok?
    ensures Parsed(body).Ok? && FingerprintOf(Parsed(body).value).Some?
    ensures var info, fingerprint := Parsed(body).value, FingerprintOf(Parsed(body).value).value;
      var served, out := Chain(c, hops, body).value, Extended(c, hops, fingerprint, info);
      && ValidUtf8(served) && Parsed(served) == Ok(out) && FingerprintOf(out) == Some(fingerprint)
  {
    hide ValidUtf8, Parsed, Printed, FingerprintOf, Extended, ValidInfo, Chain, AllValid;
    ChainReads(c, hops, body);
    var info, fingerprint := Parsed(body).value, FingerprintOf(Parsed(body).value).value;
    ParsedValid(body);
    ExtendedValidUtf8(c, hops, fingerprint, info);
    PrintedValid(Extended(c, hops, fingerprint, info));
    FingerprintIgnoresSignatures(c, hops, fingerprint, info);
  }

  lemma ExtendedAccepted(c: Scheme, hops: seq<Hop>, fingerprint: Text, info: NarInfo)
    ensures var out := Extended(c, hops, fingerprint, info);
      && (forall pubkey :: ClassicalOk(c, info, fingerprint, pubkey) ==> ClassicalOk(c, out, fingerprint, pubkey))
      && (forall pk :: HybridOk(c, info, fingerprint, pk) ==> HybridOk(c, out, fingerprint, pk))
      && (hops != [] ==> out.sigPqc != [])
  {
    hide VerifySigEntry, ParseNamedPubkey, Checked, HopSigs, HopSigsPqc;
    forall pk | HybridOk(c, info, fingerprint, pk)
      ensures HybridOk(c, Extended(c, hops, fingerprint, info), fingerprint, pk)
    {
      AppendKeepsAcceptance(c, info.sigs, info.sigPqc, fingerprint, pk.name, pk.keys,
                            HopSigs(c, hops, fingerprint), HopSigsPqc(c, hops, fingerprint));
    }
    assert |HopSigsPqc(c, hops, fingerprint)| == |hops| by { HopSigsLength(c, hops, fingerprint); }
  }

  lemma HopSigsLength(c: Scheme, hops: seq<Hop>, fingerprint: Text)
    ensures |HopSigsPqc(c, hops, fingerprint)| == |hops|
  {
  }

  /** A document that passes `verify` passes it again behind any chain of proxies that serves it,
      with one exception: it had no `Sig-PQC` line, and the hybrid key that was given is not
      required and does not accept what the proxies added. */
  lemma ChainKeepsVerdict(c: Scheme, hops: seq<Hop>, body: Text, pubkey: Option<Text>, pqcFile: Option<Text>, requirePqc: bool)
    requires hops != [] && AllValid(hops) && Chain(c, hops, body).Ok?
    requires Verdict(c, body, pubkey, pqcFile, requirePqc).Ok?
    ensures Parsed(body).Ok? && FingerprintOf(Parsed(body).value).Some? && (pqcFile.Some? ==> LoadPublic(pqcFile.value).Ok?)
    ensures var info, fingerprint := Parsed(body).value, FingerprintOf(Parsed(body).value).value;
      Verdict(c, Chain(c, hops, body).value, pubkey, pqcFile, requirePqc).Ok? <==>
        || pqcFile.None? || requirePqc || info.sigPqc != []
        || HybridOk(c, Extended(c, hops, fingerprint, info), fingerprint, LoadPublic(pqcFile.value).value)
  {
    hide ValidUtf8, Parsed, FingerprintOf, Extended, Chain, AllValid, LoadPublic, ClassicalOk, HybridOk;
    ServedInOrder(c, hops, body);
    var info, fingerprint := Parsed(body).value, FingerprintOf(Parsed(body).value).value;
    ExtendedAccepted(c, hops, fingerprint, info);
  }

  lemma ForeignExtended(c: Scheme, hops: seq<Hop>, fingerprint: Text, info: NarInfo, pk: PublicKey)
    requires AllValid(hops) && ValidKeyName(pk.name) && info.sigPqc == []
    requires forall h :: h in hops ==> h.secret.name != pk.name
    ensures !HybridOk(c, Extended(c, hops, fingerprint, info), fingerprint, pk)
  {
    hide NewSigPqc, ValidKeyName, Candidate;
    var out := Extended(c, hops, fingerprint, info);
    forall e | e in out.sigPqc
      ensures Candidate(PostQuantum, pk.name, e).None?
    {
      var i :| 0 <= i < |hops| && e == NewSigPqc(c, hops[i].secret, hops[i].coin, fingerprint);
      assert hops[i] in hops;
      ForeignLine(c, hops[i].secret, hops[i].coin, fingerprint, pk.name);
    }
    AcceptsExactly(c, out.sigs, out.sigPqc, fingerprint, pk.name, pk.keys);
  }

  /** The exception is real: a document without `Sig-PQC` lines that passes is refused behind any
      chain of proxies of other names, although nothing was taken from it. */
  lemma RefusedBehindProxies(c: Scheme, hops: seq<Hop>, body: Text, pubkey: Option<Text>, pqcFile: Text)
    requires hops != [] && AllValid(hops) && Chain(c, hops, body).Ok?
    requires Verdict(c, body, pubkey, Some(pqcFile), false).Ok?
    requires Parsed(body).Ok? && Parsed(body).value.sigPqc == [] && LoadPublic(pqcFile).Ok?
    requires forall h :: h in hops ==> h.secret.name != LoadPublic(pqcFile).value.name
    ensures Verdict(c, Chain(c, hops, body).value, pubkey, Some(pqcFile), false) == Err(HybridFailed)
  {
    hide ValidUtf8, Parsed, FingerprintOf, Extended, Chain, AllValid, LoadPublic, ClassicalOk, HybridOk, ValidKeyName;
    ServedInOrder(c, hops, body);
    var info, fingerprint := Parsed(body).value, FingerprintOf(Parsed(body).value).value;
    var pk := LoadPublic(pqcFile).value;
    LoadPublicExact(pqcFile, pk);
    ExtendedAccepted(c, hops, fingerprint, info);
    ForeignExtended(c, hops, fingerprint, info, pk);
  }

  /** Sign with a saved key, serve through any chain of proxies, verify with that key: whatever
      the chain serves passes, with the hybrid signature required. */
  lemma SignChainVerify(c: Scheme, key: SecretKey, visits: seq<Visit>, files: map<Path, Text>, v: Visit, hops: seq<Hop>)
    requires Correct(c) && UsableKey(key) && (forall u :: u in visits ==> Smooth(u, files))
    requires v in visits && IsNarinfo(v.path) && AllValid(hops)
    ensures var files' := SignRun(c, SecretText(key), visits, files).0;
      && v.path in files'
      && (Chain(c, hops, files'[v.path]).Ok? ==>
          Verdict(c, Chain(c, hops, files'[v.path]).value, Some(NamedPubkey(c, key)), Some(PublicText(PublicOf(c, key))), true) == Ok(()))
  {
    hide SignRun, Verdict, Smooth, UsableKey, IsNarinfo, NamedPubkey, PublicText, SecretText, Correct, AllValid, Serve;
    SignOnceThenVerify(c, key, visits, files);
    var body := SignRun(c, SecretText(key), visits, files).0[v.path];
    if hops != [] && Chain(c, hops, body).Ok? {
      ChainKeepsVerdict(c, hops, body, Some(NamedPubkey(c, key)), Some(PublicText(PublicOf(c, key))), true);
      var verdict := Verdict(c, Chain(c, hops, body).value, Some(NamedPubkey(c, key)), Some(PublicText(PublicOf(c, key))), true);
      assert verdict.Ok? && verdict.value == ();
    }
  }
}
