/** `verify` for every combination of its arguments, in terms of the entries of the document. */
module Verdicts {
  import opened ByteText
  import opened Base64
  import opened NarInfos
  import opened Fingerprints
  import opened Hybrid
  import opened Keys
  import opened HybridCheck
  import opened Utf8
  import opened Acceptance
  import opened Verifying

  /** Some classical entry is accepted under the key as it was given. */
  ghost predicate SomeTrusted(c: Scheme, info: NarInfo, fingerprint: Text, pubkey: Text) {
    exists e :: e in info.sigs && Trusted(c, fingerprint, e, pubkey)
  }

  lemma ClassicalExactly(c: Scheme, info: NarInfo, fingerprint: Text, pubkey: Text)
    ensures ClassicalOk(c, info, fingerprint, pubkey) <==> SomeTrusted(c, info, fingerprint, pubkey)
  {
    hide Trusted, VerifySigEntry, ParseNamedPubkey;
    forall e | e in info.sigs
      ensures var (name, key) := ParseNamedPubkey(pubkey);
        VerifySigEntry(c, fingerprint, e, name, key) <==> Trusted(c, fingerprint, e, pubkey)
    {
      TrustedExactly(c, fingerprint, e, pubkey);
    }
  }

  lemma HybridExactly(c: Scheme, info: NarInfo, fingerprint: Text, pqcFile: Text)
    requires LoadPublic(pqcFile).Ok?
    ensures var pk := LoadPublic(pqcFile).value;
      && (HybridOk(c, info, fingerprint, pk) <==> PairVerifies(c, info.sigs, info.sigPqc, fingerprint, pk.name, pk.keys))
      && (info.sigPqc == [] ==> !HybridOk(c, info, fingerprint, pk))
  {
    hide LoadPublic, PairVerifies, Checked, ValidKeyName;
    var pk := LoadPublic(pqcFile).value;
    LoadPublicExact(pqcFile, pk);
    ValidNamePlain(pk.name);
    AcceptedExactly(c, info.sigs, info.sigPqc, fingerprint, pk.name, pk.keys);
    NoPqcNoHybrid(c, info.sigs, fingerprint, pk);
  }

  /** When `verify` succeeds: a key was given; the document is in order; if a classical key was
      given, some entry is accepted under it; if the hybrid signature is required, a hybrid key was
      given and both its halves verify; and so they do if it is not required but the document has
      any `Sig-PQC` line. */
  lemma SucceedsExactly(c: Scheme, text: Text, pubkey: Option<Text>, pqcFile: Option<Text>, requirePqc: bool)
    ensures Verdict(c, text, pubkey, pqcFile, requirePqc) == Ok(()) <==>
      && (pubkey.Some? || pqcFile.Some?)
      && ValidUtf8(text) && Parsed(text).Ok? && FingerprintOf(Parsed(text).value).Some?
      && var info, fingerprint := Parsed(text).value, FingerprintOf(Parsed(text).value).value;
      && (pubkey.Some? ==> SomeTrusted(c, info, fingerprint, pubkey.value))
      && (requirePqc ==> pqcFile.Some?)
      && (pqcFile.Some? ==>
          && LoadPublic(pqcFile.value).Ok?
          && var pk := LoadPublic(pqcFile.value).value;
          (requirePqc || info.sigPqc != [] ==> PairVerifies(c, info.sigs, info.sigPqc, fingerprint, pk.name, pk.keys)))
  {
    hide ValidUtf8, Parsed, FingerprintOf, LoadPublic, PairVerifies, SomeTrusted, ClassicalOk, HybridOk;
    OkIsUnit(Verdict(c, text, pubkey, pqcFile, requirePqc));
    if ValidUtf8(text) && Parsed(text).Ok? && FingerprintOf(Parsed(text).value).Some? {
      var info, fingerprint := Parsed(text).value, FingerprintOf(Parsed(text).value).value;
      if pubkey.Some? { ClassicalExactly(c, info, fingerprint, pubkey.value); }
      if pqcFile.Some? && LoadPublic(pqcFile.value).Ok? { HybridExactly(c, info, fingerprint, pqcFile.value); }
    }
  }

  lemma OkIsUnit(r: Result<(), VerifyError>)
    ensures r.Ok? <==> r == Ok(())
  {
    if r.Ok? { assert r.value == (); }
  }

  /** A required hybrid signature that passes is there, with both halves. */
  lemma RequiredIsThere(c: Scheme, text: Text, pubkey: Option<Text>, pqcFile: Option<Text>)
    requires Verdict(c, text, pubkey, pqcFile, true) == Ok(())
    ensures pqcFile.Some? && LoadPublic(pqcFile.value).Ok? && Parsed(text).Ok? && FingerprintOf(Parsed(text).value).Some?
    ensures var info, fingerprint := Parsed(text).value, FingerprintOf(Parsed(text).value).value;
      var pk := LoadPublic(pqcFile.value).value;
      exists ed: Bytes, ml: Bytes ::
        && pk.name + ":" + Encode(ed) in info.sigs && |ed| == 64 && c.edVerify(pk.keys.ed25519, fingerprint, ed)
        && pk.name + ":" + Encode([1] + ml) in info.sigPqc && |ml| == 3309 && c.mlVerify(pk.keys.mlDsa, fingerprint, ml)
  {
    hide Verdict, ValidUtf8, Parsed, FingerprintOf, LoadPublic, SomeTrusted, Encode, Checked, ValidKeyName, Offered;
    SucceedsExactly(c, text, pubkey, pqcFile, true);
    var info, fingerprint := Parsed(text).value, FingerprintOf(Parsed(text).value).value;
    var pk := LoadPublic(pqcFile.value).value;
    LoadPublicExact(pqcFile.value, pk);
    ValidNamePlain(pk.name);
    PairIsThere(c, info.sigs, info.sigPqc, fingerprint, pk.name, pk.keys);
  }

  lemma PairIsThere(c: Scheme, sigs: seq<Text>, sigPqc: seq<Text>, fingerprint: Text, name: Text, keys: VerifyingKeys)
    requires PairVerifies(c, sigs, sigPqc, fingerprint, name, keys)
    ensures exists ed: Bytes, ml: Bytes ::
      && name + ":" + Encode(ed) in sigs && |ed| == 64 && c.edVerify(keys.ed25519, fingerprint, ed)
      && name + ":" + Encode([1] + ml) in sigPqc && |ml| == 3309 && c.mlVerify(keys.mlDsa, fingerprint, ml)
  {
    hide Encode, Offered;
    var i :| 0 <= i < |sigs| && EdVerifies(c, sigs[i], name, keys.ed25519, fingerprint);
    var j :| 0 <= j < |sigPqc| && MlVerifies(c, sigPqc[j], name, keys.mlDsa, fingerprint);
    var ed: Bytes :| sigs[i] == name + ":" + Encode(ed) && |ed| == 64 && c.edVerify(keys.ed25519, fingerprint, ed);
    var ml: Bytes :| sigPqc[j] == name + ":" + Encode([1] + ml) && |ml| == 3309 && c.mlVerify(keys.mlDsa, fingerprint, ml);
  }

  /** Why it fails: the first of these that applies. */
  lemma FailsExactly(c: Scheme, text: Text, pubkey: Option<Text>, pqcFile: Option<Text>, requirePqc: bool)
    ensures var r := Verdict(c, text, pubkey, pqcFile, requirePqc);
      && (r == Err(NothingRequested) <==> pubkey.None? && pqcFile.None?)
      && (r == Err(NotText) <==> !(pubkey.None? && pqcFile.None?) && !ValidUtf8(text))
      && (forall e :: r == Err(BadDocument(e)) <==>
          !(pubkey.None? && pqcFile.None?) && ValidUtf8(text) && Parsed(text) == Err(e))
      && (r == Err(NoFingerprint) <==>
          !(pubkey.None? && pqcFile.None?) && ValidUtf8(text) && Parsed(text).Ok? && FingerprintOf(Parsed(text).value).None?)
    ensures !(pubkey.None? && pqcFile.None?) && ValidUtf8(text) && Parsed(text).Ok? && FingerprintOf(Parsed(text).value).Some? ==>
      var info, fingerprint := Parsed(text).value, FingerprintOf(Parsed(text).value).value;
      var r, trusted := Verdict(c, text, pubkey, pqcFile, requirePqc), pubkey.Some? ==> SomeTrusted(c, info, fingerprint, pubkey.value);
      && (r == Err(ClassicalFailed) <==> !trusted)
      && (r == Err(PqcRequired) <==> trusted && pqcFile.None? && requirePqc)
      && (forall e :: r == Err(BadPublicKey(e)) <==> trusted && pqcFile.Some? && LoadPublic(pqcFile.value) == Err(e))
      && (r == Err(HybridFailed) <==>
          && trusted && pqcFile.Some? && LoadPublic(pqcFile.value).Ok? && (requirePqc || info.sigPqc != [])
          && var pk := LoadPublic(pqcFile.value).value;
          !PairVerifies(c, info.sigs, info.sigPqc, fingerprint, pk.name, pk.keys))
  {
    hide ValidUtf8, Parsed, FingerprintOf, LoadPublic, PairVerifies, SomeTrusted, ClassicalOk, HybridOk;
    if ValidUtf8(text) && Parsed(text).Ok? && FingerprintOf(Parsed(text).value).Some? {
      var info, fingerprint := Parsed(text).value, FingerprintOf(Parsed(text).value).value;
      if pubkey.Some? { ClassicalExactly(c, info, fingerprint, pubkey.value); }
      if pqcFile.Some? && LoadPublic(pqcFile.value).Ok? { HybridExactly(c, info, fingerprint, pqcFile.value); }
    }
  }
}
