/** What a signature is and when it is accepted, down to the bytes of the entries and the answers
    of the two signature schemes. */
module Acceptance {
  import opened ByteText
  import opened Base64
  import opened Hybrid
  import opened Keys
  import opened HybridCheck
  import opened Endorsement

  // ----- names, keys and entries, letter by letter

  /** The names that are accepted. None can disturb an entry, a line or a path. */
  lemma NameExactly(name: Text)
    ensures ValidKeyName(name) <==>
      && 1 <= |name| <= 128 && name != "." && name != ".."
      && forall c :: c in name ==>
        'a' <= c <= 'z' || 'A' <= c <= 'Z' || '0' <= c <= '9' || c in {'.', '_', '-'}
    ensures ValidKeyName(name) ==> ':' !in name && '/' !in name && '\n' !in name && '\r' !in name && ' ' !in name
  {
  }

  /** What a signer publishes, saves and writes: the Ed25519 half first, the ML-DSA half second. */
  lemma SignerExactly(c: Scheme, key: SecretKey, coin: nat, message: Text)
    ensures PublicOf(c, key) == PublicKey(key.name, VerifyingKeys(c.edPublic(key.signer.ed), c.mlPublic(key.signer.ml)))
    ensures SecretText(key) == key.name + "\n" + Encode(key.signer.ed + key.signer.ml) + "\n"
    ensures NewSig(c, key, coin, message) == key.name + ":" + Encode(c.edSign(key.signer.ed, message, coin))
    ensures NewSigPqc(c, key, coin, message) == key.name + ":" + Encode([1] + c.mlSign(key.signer.ml, message, coin))
    ensures NamedPubkey(c, key) == key.name + ":" + Encode(c.edPublic(key.signer.ed))
  {
    hide Encode;
  }

  lemma PublicTextExactly(k: PublicKey)
    ensures PublicText(k) ==
      k.name + "\n" + ("ed25519:" + Encode(k.keys.ed25519)) + "\n" + ("ml-dsa-65:" + Encode(k.keys.mlDsa)) + "\n"
  {
    hide Encode;
  }

  /** The entry is of any name if the key was given bare, and of the key's own name if it was given
      with one; the key is the one spelling of 32 bytes, the entry that of a signature of 64. */
  ghost predicate Trusted(c: Scheme, fingerprint: Text, entry: Text, pubkey: Text) {
    exists name: Text, sig: Bytes, pk: Bytes ::
      && entry == name + ":" + Encode(sig) && ':' !in name && |sig| == 64
      && (pubkey == Encode(pk) || pubkey == name + ":" + Encode(pk)) && |pk| == 32
      && c.edVerify(pk, fingerprint, sig)
  }

  lemma NoColonInside(b: Bytes)
    ensures ':' !in Encode(b)
  {
    EncodeSymbols(b);
    assert !IsSymbol(':');
  }

  /** When the classical check accepts an entry under a key as it stands in a configuration. */
  lemma TrustedExactly(c: Scheme, fingerprint: Text, entry: Text, pubkey: Text)
    ensures var (expected, key) := ParseNamedPubkey(pubkey);
      VerifySigEntry(c, fingerprint, entry, expected, key) <==> Trusted(c, fingerprint, entry, pubkey)
  {
    hide Encode, VerifySigEntry;
    var (expected, key) := ParseNamedPubkey(pubkey);
    VerifySigEntryExact(c, fingerprint, entry, expected, key);
    if VerifySigEntry(c, fingerprint, entry, expected, key) {
      var name: Text, sig: Bytes, pk: Bytes :|
        && entry == SigEntry(name, sig) && ':' !in name && (expected.Some? ==> name == expected.value)
        && key == Encode(pk) && VerifyEd25519(c, pk, fingerprint, sig);
      assert pubkey == Encode(pk) || pubkey == name + ":" + Encode(pk);
    }
    forall name: Text, sig: Bytes, pk: Bytes |
        && entry == name + ":" + Encode(sig) && ':' !in name && |sig| == 64
        && (pubkey == Encode(pk) || pubkey == name + ":" + Encode(pk)) && |pk| == 32
        && c.edVerify(pk, fingerprint, sig)
      ensures VerifySigEntry(c, fingerprint, entry, expected, key)
    {
      NoColonInside(pk);
      if pubkey == name + ":" + Encode(pk) {
        assert pubkey == name + [':'] + Encode(pk);
        SplitOnceAt(name, ':', Encode(pk));
      }
      assert entry == SigEntry(name, sig) && key == Encode(pk) && VerifyEd25519(c, pk, fingerprint, sig);
    }
  }

  // ----- the hybrid check

  /** An entry of a name whose signature verifies. */
  ghost predicate EdVerifies(c: Scheme, entry: Text, name: Text, key: Bytes, fingerprint: Text) {
    exists ed: Bytes :: entry == name + ":" + Encode(ed) && |ed| == 64 && c.edVerify(key, fingerprint, ed)
  }

  ghost predicate MlVerifies(c: Scheme, entry: Text, name: Text, key: Bytes, fingerprint: Text) {
    exists ml: Bytes :: entry == name + ":" + Encode([1] + ml) && |ml| == 3309 && c.mlVerify(key, fingerprint, ml)
  }

  /** What counts as a different signature of a name. */
  lemma OfferedExactly(name: Text, entries: seq<Text>, sig: Bytes)
    ensures sig in Offered(Classical, name, entries) <==>
      ':' !in name && |sig| == 64 && name + ":" + Encode(sig) in entries
    ensures sig in Offered(PostQuantum, name, entries) <==>
      ':' !in name && |sig| == 3309 && name + ":" + Encode([1] + sig) in entries
  {
    hide Encode, Candidate;
    CandidateExact(Classical, name, name + ":" + Encode(sig), sig);
    CandidateExact(PostQuantum, name, name + ":" + Encode([1] + sig), sig);
    forall e | e in entries
      ensures Candidate(Classical, name, e) == Some(sig) ==> e == name + ":" + Encode(sig)
      ensures Candidate(PostQuantum, name, e) == Some(sig) ==> e == name + ":" + Encode([1] + sig)
    {
      CandidateExact(Classical, name, e, sig);
      CandidateExact(PostQuantum, name, e, sig);
    }
  }

  lemma HalfExactly(c: Scheme, half: Half, entry: Text, name: Text, keys: VerifyingKeys, fingerprint: Text)
    requires ':' !in name && |keys.ed25519| == 32 && |keys.mlDsa| == 1952
    ensures Candidate(half, name, entry).Some? && HalfVerifies(c, half, keys, fingerprint, Candidate(half, name, entry).value) <==>
      if half == Classical then EdVerifies(c, entry, name, keys.ed25519, fingerprint)
      else MlVerifies(c, entry, name, keys.mlDsa, fingerprint)
  {
    hide Encode, Candidate;
    if Candidate(half, name, entry).Some? {
      CandidateExact(half, name, entry, Candidate(half, name, entry).value);
    }
    if half == Classical {
      forall ed: Bytes | entry == name + ":" + Encode(ed) && |ed| == 64
        ensures Candidate(half, name, entry) == Some(ed)
      {
        CandidateExact(half, name, entry, ed);
      }
    } else {
      forall ml: Bytes | entry == name + ":" + Encode([1] + ml) && |ml| == 3309
        ensures Candidate(half, name, entry) == Some(ml)
      {
        CandidateExact(half, name, entry, ml);
      }
    }
  }

  /** The document has, under this name, a classical and a post-quantum signature of the
      fingerprint that verify, each with fewer than 32 different ones in front of it. */
  ghost predicate PairVerifies(c: Scheme, sigs: seq<Text>, sigPqc: seq<Text>, fingerprint: Text, name: Text, keys: VerifyingKeys) {
    && (exists i ::
          && 0 <= i < |sigs|
          && EdVerifies(c, sigs[i], name, keys.ed25519, fingerprint)
          && |Offered(Classical, name, sigs[..i])| < 32)
    && (exists j ::
          && 0 <= j < |sigPqc|
          && MlVerifies(c, sigPqc[j], name, keys.mlDsa, fingerprint)
          && |Offered(PostQuantum, name, sigPqc[..j])| < 32)
  }

  /** When `verify_hybrid` accepts. */
  lemma AcceptedExactly(c: Scheme, sigs: seq<Text>, sigPqc: seq<Text>, fingerprint: Text, name: Text, keys: VerifyingKeys)
    requires ':' !in name && |keys.ed25519| == 32 && |keys.mlDsa| == 1952
    ensures Checked(c, sigs, sigPqc, fingerprint, name, keys).Ok? <==> PairVerifies(c, sigs, sigPqc, fingerprint, name, keys)
  {
    hide Candidate, HalfVerifies, Offered, Checked, EdVerifies, MlVerifies;
    AcceptsExactly(c, sigs, sigPqc, fingerprint, name, keys);
    forall i | 0 <= i < |sigs|
      ensures Candidate(Classical, name, sigs[i]).Some? && HalfVerifies(c, Classical, keys, fingerprint, Candidate(Classical, name, sigs[i]).value)
        <==> EdVerifies(c, sigs[i], name, keys.ed25519, fingerprint)
    {
      HalfExactly(c, Classical, sigs[i], name, keys, fingerprint);
    }
    forall j | 0 <= j < |sigPqc|
      ensures Candidate(PostQuantum, name, sigPqc[j]).Some? && HalfVerifies(c, PostQuantum, keys, fingerprint, Candidate(PostQuantum, name, sigPqc[j]).value)
        <==> MlVerifies(c, sigPqc[j], name, keys.mlDsa, fingerprint)
    {
      HalfExactly(c, PostQuantum, sigPqc[j], name, keys, fingerprint);
    }
  }

  /** An accepted document carries both signatures; and one that does is accepted when it offers no
      more than 32 different ones of the name in each half. */
  lemma BothHalvesNeeded(c: Scheme, sigs: seq<Text>, sigPqc: seq<Text>, fingerprint: Text, name: Text, keys: VerifyingKeys)
    requires ':' !in name && |keys.ed25519| == 32 && |keys.mlDsa| == 1952
    ensures var pair := exists ed: Bytes, ml: Bytes ::
        && name + ":" + Encode(ed) in sigs && |ed| == 64 && c.edVerify(keys.ed25519, fingerprint, ed)
        && name + ":" + Encode([1] + ml) in sigPqc && |ml| == 3309 && c.mlVerify(keys.mlDsa, fingerprint, ml);
      && (Checked(c, sigs, sigPqc, fingerprint, name, keys).Ok? ==> pair)
      && (pair && |Offered(Classical, name, sigs)| <= 32 && |Offered(PostQuantum, name, sigPqc)| <= 32 ==>
          Checked(c, sigs, sigPqc, fingerprint, name, keys).Ok?)
  {
    hide Candidate, Offered, Checked, Encode;
    AcceptedExactly(c, sigs, sigPqc, fingerprint, name, keys);
    RefinesAllPairs(c, sigs, sigPqc, fingerprint, name, keys);
    forall ed: Bytes, ml: Bytes |
        && name + ":" + Encode(ed) in sigs && |ed| == 64 && c.edVerify(keys.ed25519, fingerprint, ed)
        && name + ":" + Encode([1] + ml) in sigPqc && |ml| == 3309 && c.mlVerify(keys.mlDsa, fingerprint, ml)
      ensures SomePairVerifies(c, sigs, sigPqc, fingerprint, name, keys)
    {
      var e, p := name + ":" + Encode(ed), name + ":" + Encode([1] + ml);
      CandidateExact(Classical, name, e, ed);
      CandidateExact(PostQuantum, name, p, ml);
      assert Verify(c, keys, fingerprint, Signature(ed, ml));
    }
  }

  /** Which failure is reported: the first of the four that applies. */
  lemma FailureExactly(c: Scheme, sigs: seq<Text>, sigPqc: seq<Text>, fingerprint: Text, name: Text, keys: VerifyingKeys)
    ensures var verdict := Checked(c, sigs, sigPqc, fingerprint, name, keys);
      var ed, ml := Offered(Classical, name, sigs), Offered(PostQuantum, name, sigPqc);
      && (verdict == Err(NoSig) <==> ed == {})
      && (verdict == Err(NoSigPqc) <==> ed != {} && ml == {})
      && (verdict == Err(SigNotVerified) <==> ed != {} && ml != {} && !InReach(c, Classical, sigs, fingerprint, name, keys))
      && (verdict == Err(SigPqcNotVerified) <==>
          ed != {} && ml != {} && InReach(c, Classical, sigs, fingerprint, name, keys) && !InReach(c, PostQuantum, sigPqc, fingerprint, name, keys))
  {
    hide HalfVerifies, Distinct, Offered, InReach;
    DistinctIsOffered(Classical, name, sigs);
    DistinctIsOffered(PostQuantum, name, sigPqc);
    ReachIsCollected(c, Classical, sigs, fingerprint, name, keys);
    ReachIsCollected(c, PostQuantum, sigPqc, fingerprint, name, keys);
    EmptyOffer(Distinct(Classical, name, sigs), Offered(Classical, name, sigs));
    EmptyOffer(Distinct(PostQuantum, name, sigPqc), Offered(PostQuantum, name, sigPqc));
  }

  lemma EmptyOffer(d: seq<Bytes>, s: set<Bytes>)
    requires |d| == |s|
    ensures Capped(d) == [] <==> s == {}
  {
  }
}
