/** The step that the `sign` command and the proxy share: appending to a document one classical
    and one post-quantum signature of its fingerprint, filed under the signer's name. */
module Endorsement {
  import opened ByteText
  import opened Base64
  import opened NarInfos
  import opened RoundTrip
  import opened Hybrid
  import opened Keys
  import opened HybridCheck

  function NewSig(c: Scheme, secret: SecretKey, coin: nat, fingerprint: Text): Text {
    SigEntry(secret.name, Sign(c, secret.signer, fingerprint, coin).ed25519)
  }

  function NewSigPqc(c: Scheme, secret: SecretKey, coin: nat, fingerprint: Text): Text {
    EncodeSigPqc(secret.name, Sign(c, secret.signer, fingerprint, coin).mlDsa)
  }

  function Endorse(c: Scheme, secret: SecretKey, coin: nat, fingerprint: Text, info: NarInfo): NarInfo {
    info.(sigs := info.sigs + [NewSig(c, secret, coin, fingerprint)],
          sigPqc := info.sigPqc + [NewSigPqc(c, secret, coin, fingerprint)])
  }

  lemma EndorseWellFormed(c: Scheme, secret: SecretKey, coin: nat, fingerprint: Text, info: NarInfo)
    requires ValidKeyName(secret.name) && WellFormed(info)
    ensures WellFormed(Endorse(c, secret, coin, fingerprint, info))
  {
    ValidNamePlain(secret.name);
    var sig := Sign(c, secret.signer, fingerprint, coin);
    SigEntryLineEnd(secret.name, sig.ed25519);
    SigEntryLineEnd(secret.name, [ML_DSA_65_TAG] + sig.mlDsa);
    hide SigEntry, LineEnd, RefsOk, ExtraOk, OptionalLineEnd, Sign;
  }

  // ----- the added pair, as its users check it

  /** Adding a verifying entry at the end. */
  lemma LastInReach(c: Scheme, half: Half, entries: seq<Text>, e: Text, fingerprint: Text, name: Text, keys: VerifyingKeys)
    requires Candidate(half, name, e).Some? && HalfVerifies(c, half, keys, fingerprint, Candidate(half, name, e).value)
    ensures InReach(c, half, entries + [e], fingerprint, name, keys) <==>
      |Offered(half, name, entries)| < MAX_SIG_CANDIDATES || InReach(c, half, entries, fingerprint, name, keys)
  {
    hide Candidate, HalfVerifies, Offered;
    var longer := entries + [e];
    assert longer[|entries|] == e && longer[..|entries|] == entries;
    assert forall i :: 0 <= i < |entries| ==> longer[i] == entries[i] && longer[..i] == entries[..i];
    if InReach(c, half, longer, fingerprint, name, keys) {
      var i :| 0 <= i < |longer|
        && Candidate(half, name, longer[i]).Some?
        && HalfVerifies(c, half, keys, fingerprint, Candidate(half, name, longer[i]).value)
        && |Offered(half, name, longer[..i])| < MAX_SIG_CANDIDATES;
      if i < |entries| {
        assert Candidate(half, name, entries[i]).Some?;
      }
    }
    if InReach(c, half, entries, fingerprint, name, keys) {
      var i :| 0 <= i < |entries|
        && Candidate(half, name, entries[i]).Some?
        && HalfVerifies(c, half, keys, fingerprint, Candidate(half, name, entries[i]).value)
        && |Offered(half, name, entries[..i])| < MAX_SIG_CANDIDATES;
      assert Candidate(half, name, longer[i]).Some?;
    }
  }

  /** Exactly when a freshly added pair is accepted, provided the post-quantum half has room:
      the classical cap must have room too, or an earlier entry in reach must verify. */
  lemma AddedPairAccepted(c: Scheme, secret: SecretKey, coin: nat, fingerprint: Text, info: NarInfo)
    requires Correct(c) && ValidKeyName(secret.name) && secret.signer.Valid()
    requires |Offered(PostQuantum, secret.name, info.sigPqc)| < MAX_SIG_CANDIDATES
    ensures var out, keys := Endorse(c, secret, coin, fingerprint, info), Public(c, secret.signer);
      Checked(c, out.sigs, out.sigPqc, fingerprint, secret.name, keys).Ok? <==>
        || |Offered(Classical, secret.name, info.sigs)| < MAX_SIG_CANDIDATES
        || InReach(c, Classical, info.sigs, fingerprint, secret.name, keys)
  {
    var keys := Public(c, secret.signer);
    var sig := Sign(c, secret.signer, fingerprint, coin);
    ValidNamePlain(secret.name);
    SignVerifies(c, secret.signer, fingerprint, coin);
    CandidateOfEntry(secret.name, sig.ed25519);
    CandidateOfPqcEntry(secret.name, sig.mlDsa);
    var out := Endorse(c, secret, coin, fingerprint, info);
    assert HalfVerifies(c, Classical, keys, fingerprint, sig.ed25519);
    assert HalfVerifies(c, PostQuantum, keys, fingerprint, sig.mlDsa);
    hide Sign, Public, Correct, HalfVerifies, Candidate, SigEntry, EncodeSigPqc, Offered, Checked, Verify;
    AcceptsExactly(c, out.sigs, out.sigPqc, fingerprint, secret.name, keys);
    LastInReach(c, PostQuantum, info.sigPqc, EncodeSigPqc(secret.name, sig.mlDsa), fingerprint, secret.name, keys);
    LastInReach(c, Classical, info.sigs, SigEntry(secret.name, sig.ed25519), fingerprint, secret.name, keys);
  }

  /** The public half as it is given on the command line, with its name. */
  function NamedPubkey(c: Scheme, secret: SecretKey): Text {
    SigEntry(secret.name, c.edPublic(secret.signer.ed))
  }

  lemma NewSigVerifies(c: Scheme, secret: SecretKey, coin: nat, fingerprint: Text)
    requires Correct(c) && ValidKeyName(secret.name) && secret.signer.Valid()
    ensures var (name, key) := ParseNamedPubkey(NamedPubkey(c, secret));
      VerifySigEntry(c, fingerprint, NewSig(c, secret, coin, fingerprint), name, key)
  {
    ValidNamePlain(secret.name);
    SignVerifies(c, secret.signer, fingerprint, coin);
    var pk, sig := c.edPublic(secret.signer.ed), Sign(c, secret.signer, fingerprint, coin).ed25519;
    SplitOnceAt(secret.name, ':', Encode(pk));
    assert NamedPubkey(c, secret) == secret.name + [':'] + Encode(pk);
    SigEntryInverse(SigEntry(secret.name, sig), secret.name, sig);
    DecodeEncode(pk);
    hide SigEntry, ParseSigEntry, Encode, Decode, Correct;
  }

  // ----- the bytes it takes

  lemma RenderTaggedMore(f: Field, vs: seq<Text>, v: Text)
    requires f != Other
    ensures |Render(Tagged(f, vs + [v]))| == |Render(Tagged(f, vs))| + |Name(f)| + |v| + 3
  {
    hide Render, Name;
    assert Tagged(f, vs + [v]) == Tagged(f, vs) + [Entry(Name(f), v)];
    RenderPush(Tagged(f, vs), Entry(Name(f), v));
  }

  lemma PrintedPieces(info: NarInfo)
    ensures Printed(info) == Render(Known(info) + info.extra) + Render(Tagged(Sig, info.sigs)) + Render(Tagged(SigPqc, info.sigPqc))
  {
    hide Render, Known, Tagged;
    RenderConcat(Known(info) + info.extra, Tagged(Sig, info.sigs));
    RenderConcat(Known(info) + info.extra + Tagged(Sig, info.sigs), Tagged(SigPqc, info.sigPqc));
  }

  const PAIR_OVERHEAD: nat := 4522

  lemma NewEntryLengths(c: Scheme, secret: SecretKey, coin: nat, fingerprint: Text)
    requires Correct(c) && secret.signer.Valid()
    ensures |NewSig(c, secret, coin, fingerprint)| == |secret.name| + 89
    ensures |NewSigPqc(c, secret, coin, fingerprint)| == |secret.name| + 4417
  {
    hide Sign, Correct, Encode, VerifyEd25519, VerifyMlDsa;
    SignVerifies(c, secret.signer, fingerprint, coin);
    var sig := Sign(c, secret.signer, fingerprint, coin);
    VerifyLengths(c, Public(c, secret.signer), fingerprint, sig);
    assert |Encode(sig.ed25519)| == 88 && |Encode([ML_DSA_65_TAG] + sig.mlDsa)| == 4416;
  }

  lemma KnownIgnoresSignatures(a: NarInfo, b: NarInfo)
    requires b == a.(sigs := b.sigs, sigPqc := b.sigPqc)
    ensures Known(a) == Known(b) && a.extra == b.extra
  {
  }

  /** Signing a document adds a fixed number of bytes to its normal form. */
  lemma EndorseLength(c: Scheme, secret: SecretKey, coin: nat, fingerprint: Text, info: NarInfo)
    requires Correct(c) && secret.signer.Valid()
    ensures |Printed(Endorse(c, secret, coin, fingerprint, info))| == |Printed(info)| + PAIR_OVERHEAD + 2 * |secret.name|
  {
    NewEntryLengths(c, secret, coin, fingerprint);
    var info' := Endorse(c, secret, coin, fingerprint, info);
    PrintedPieces(info);
    PrintedPieces(info');
    RenderTaggedMore(Sig, info.sigs, NewSig(c, secret, coin, fingerprint));
    RenderTaggedMore(SigPqc, info.sigPqc, NewSigPqc(c, secret, coin, fingerprint));
    assert |Name(Sig)| == 3 && |Name(SigPqc)| == 7;
    hide Render, Known, Tagged, NewSig, NewSigPqc, Name, Printed, Correct;
    assert Known(info') == Known(info) by { KnownIgnoresSignatures(info, info'); }
  }
}
