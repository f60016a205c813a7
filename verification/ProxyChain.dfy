/** Proxies behind proxies: what a document served by the last of them says about the origin,
    how it verifies, and how long such a chain can be. */
module ProxyChain {
  import opened ByteText
  import opened NarInfos
  import opened Fingerprints
  import opened Hybrid
  import opened Keys
  import opened HybridCheck
  import opened Utf8
  import opened Endorsement
  import opened Proxy

  /** What a proxy serves is accepted under its own name and keys exactly when fewer than 32
      different classical signatures already carried that name, or one of the first 32 already
      verified. Nothing is asked of the post-quantum half: the size cap leaves it room. */
  lemma OwnPairAccepted(c: Scheme, hop: Hop, body: Text)
    requires Correct(c) && hop.Valid() && Serve(c, hop, body).Ok?
    ensures Parsed(body).Ok? && FingerprintOf(Parsed(body).value).Some? && Parsed(Serve(c, hop, body).value).Ok?
    ensures var info, fingerprint := Parsed(body).value, FingerprintOf(Parsed(body).value).value;
      var served, keys := Parsed(Serve(c, hop, body).value).value, Public(c, hop.secret.signer);
      Checked(c, served.sigs, served.sigPqc, fingerprint, hop.secret.name, keys).Ok? <==>
        || |Offered(Classical, hop.secret.name, info.sigs)| < MAX_SIG_CANDIDATES
        || InReach(c, Classical, info.sigs, fingerprint, hop.secret.name, keys)
  {
    ServedIsRead(c, hop, body);
    AtMostFourteen(body, hop.secret.name);
    var info := Parsed(body).value;
    DistinctIsOffered(PostQuantum, hop.secret.name, info.sigPqc);
    hide Serve, Endorse, Checked, Offered, InReach, Distinct, Correct, FingerprintOf, Parsed;
    AddedPairAccepted(c, hop.secret, hop.coin, FingerprintOf(info).value, info);
  }

  // ----- chains

  /** The document passes through the hops one after the other. */
  function Chain(c: Scheme, hops: seq<Hop>, body: Text): Result<Text, ProxyError> {
    if hops == [] then Ok(body)
    else
      match Chain(c, hops[..|hops| - 1], body)
      case Err(e) => Err(e)
      case Ok(text) => Serve(c, hops[|hops| - 1], text)
  }

  predicate AllValid(hops: seq<Hop>) { forall h :: h in hops ==> h.Valid() }

  /** One entry per hop, in order. */
  function HopSigs(c: Scheme, hops: seq<Hop>, fingerprint: Text): seq<Text> {
    seq(|hops|, i requires 0 <= i < |hops| => NewSig(c, hops[i].secret, hops[i].coin, fingerprint))
  }

  function HopSigsPqc(c: Scheme, hops: seq<Hop>, fingerprint: Text): seq<Text> {
    seq(|hops|, i requires 0 <= i < |hops| => NewSigPqc(c, hops[i].secret, hops[i].coin, fingerprint))
  }

  function Extended(c: Scheme, hops: seq<Hop>, fingerprint: Text, info: NarInfo): NarInfo {
    info.(sigs := info.sigs + HopSigs(c, hops, fingerprint),
          sigPqc := info.sigPqc + HopSigsPqc(c, hops, fingerprint))
  }

  lemma ExtendedMore(c: Scheme, hops: seq<Hop>, fingerprint: Text, info: NarInfo)
    requires hops != []
    ensures var n := |hops| - 1;
      Extended(c, hops, fingerprint, info)
        == Endorse(c, hops[n].secret, hops[n].coin, fingerprint, Extended(c, hops[..n], fingerprint, info))
  {
    hide NewSig, NewSigPqc;
    var n := |hops| - 1;
    assert HopSigs(c, hops, fingerprint) == HopSigs(c, hops[..n], fingerprint) + [NewSig(c, hops[n].secret, hops[n].coin, fingerprint)];
    assert HopSigsPqc(c, hops, fingerprint) == HopSigsPqc(c, hops[..n], fingerprint) + [NewSigPqc(c, hops[n].secret, hops[n].coin, fingerprint)];
  }

  lemma ExtendedNone(c: Scheme, fingerprint: Text, info: NarInfo)
    ensures Extended(c, [], fingerprint, info) == info
  {
    assert info.sigs + [] == info.sigs && info.sigPqc + [] == info.sigPqc;
  }

  lemma FingerprintIgnoresSignatures(c: Scheme, hops: seq<Hop>, fingerprint: Text, info: NarInfo)
    ensures FingerprintOf(Extended(c, hops, fingerprint, info)) == FingerprintOf(info)
  {
    hide FindLast, Sorted, Qualified, Join;
  }

  /** The step of the induction over the hops. */
  lemma ChainStep(c: Scheme, hops: seq<Hop>, body: Text)
    requires hops != [] && AllValid(hops) && Chain(c, hops, body).Ok?
    ensures Chain(c, hops[..|hops| - 1], body).Ok?
    ensures var text := Chain(c, hops[..|hops| - 1], body).value;
      Serve(c, hops[|hops| - 1], text).Ok? && Chain(c, hops, body) == Serve(c, hops[|hops| - 1], text)
    ensures hops[|hops| - 1].Valid() && AllValid(hops[..|hops| - 1])
  {
    hide Serve;
  }

  lemma {:induction false} ChainReads(c: Scheme, hops: seq<Hop>, body: Text)
    requires hops != [] && AllValid(hops) && Chain(c, hops, body).Ok?
    ensures Parsed(body).Ok? && FingerprintOf(Parsed(body).value).Some?
    ensures var info, fingerprint := Parsed(body).value, FingerprintOf(Parsed(body).value).value;
      && Chain(c, hops, body).value == Printed(Extended(c, hops, fingerprint, info))
      && Parsed(Chain(c, hops, body).value) == Ok(Extended(c, hops, fingerprint, info))
  {
    hide Serve, Parsed, Printed, Endorse, FingerprintOf, Extended;
    var n := |hops| - 1;
    ChainStep(c, hops, body);
    var text := Chain(c, hops[..n], body).value;
    ServedIsRead(c, hops[n], text);
    if n == 0 {
      assert hops[..n] == [] && text == body;
      ExtendedNone(c, FingerprintOf(Parsed(body).value).value, Parsed(body).value);
    } else {
      ChainReads(c, hops[..n], body);
      FingerprintIgnoresSignatures(c, hops[..n], FingerprintOf(Parsed(body).value).value, Parsed(body).value);
    }
    ExtendedMore(c, hops, FingerprintOf(Parsed(body).value).value, Parsed(body).value);
  }

  lemma {:induction false} ChainPrefix(c: Scheme, hops: seq<Hop>, body: Text, k: nat)
    requires k <= |hops| && Chain(c, hops, body).Ok?
    ensures Chain(c, hops[..k], body).Ok?
  {
    hide Serve;
    if k == |hops| {
      assert hops[..k] == hops;
    } else {
      ChainPrefix(c, hops[..|hops| - 1], body, k);
      assert hops[..|hops| - 1][..k] == hops[..k];
    }
  }

  /** Every hop was convinced by a signature under its own configured key, found among the
      origin's entries and those of the hops before it. */
  lemma HopConvinced(c: Scheme, hops: seq<Hop>, body: Text, k: nat)
    requires k < |hops| && AllValid(hops) && Chain(c, hops, body).Ok?
    ensures Parsed(body).Ok? && FingerprintOf(Parsed(body).value).Some?
    ensures var info, fingerprint := Parsed(body).value, FingerprintOf(Parsed(body).value).value;
      UpstreamSigned(c, hops[k], fingerprint, info.sigs + HopSigs(c, hops[..k], fingerprint))
  {
    hide Serve, Parsed, Printed, Endorse, FingerprintOf, UpstreamSigned, HopSigs, HopSigsPqc;
    var upTo := hops[..k + 1];
    assert AllValid(upTo) && upTo[..k] == hops[..k] && upTo[k] == hops[k];
    ChainPrefix(c, hops, body, k + 1);
    ChainStep(c, upTo, body);
    var text := Chain(c, hops[..k], body).value;
    ServedIsRead(c, hops[k], text);
    if k == 0 {
      assert hops[..k] == [] && text == body;
      ExtendedNone(c, FingerprintOf(Parsed(body).value).value, Parsed(body).value);
    } else {
      ChainReads(c, hops[..k], body);
      FingerprintIgnoresSignatures(c, hops[..k], FingerprintOf(Parsed(body).value).value, Parsed(body).value);
    }
  }

  /** Whatever a chain of proxies serves: it reads as the origin's document with one pair of
      entries per hop appended in order and nothing else changed, it has the origin's
      fingerprint, every hop saw a signature it trusts, and the origin's signature that
      convinced the first hop is still there and still verifies. */
  lemma ChainPreservesOrigin(c: Scheme, hops: seq<Hop>, body: Text)
    requires hops != [] && AllValid(hops) && Chain(c, hops, body).Ok?
    ensures Parsed(body).Ok? && FingerprintOf(Parsed(body).value).Some?
    ensures var info, fingerprint := Parsed(body).value, FingerprintOf(Parsed(body).value).value;
      && Parsed(Chain(c, hops, body).value).Ok?
      && var served := Parsed(Chain(c, hops, body).value).value;
      && served == info.(sigs := info.sigs + HopSigs(c, hops, fingerprint),
                         sigPqc := info.sigPqc + HopSigsPqc(c, hops, fingerprint))
      && FingerprintOf(served) == Some(fingerprint)
      && (forall k :: 0 <= k < |hops| ==>
          UpstreamSigned(c, hops[k], fingerprint, info.sigs + HopSigs(c, hops[..k], fingerprint)))
      && var (name, key) := ParseNamedPubkey(hops[0].upstreamPubkey);
      && exists s :: s in info.sigs && s in served.sigs && VerifySigEntry(c, fingerprint, s, name, key)
  {
    ChainReads(c, hops, body);
    var info := Parsed(body).value;
    var fingerprint := FingerprintOf(info).value;
    FingerprintIgnoresSignatures(c, hops, fingerprint, info);
    HopConvinced(c, hops, body, 0);
    assert hops[..0] == [] && info.sigs + HopSigs(c, [], fingerprint) == info.sigs;
    hide Chain, Parsed, FingerprintOf, HopSigs, HopSigsPqc, VerifySigEntry, ParseNamedPubkey;
    forall k | 0 <= k < |hops|
      ensures UpstreamSigned(c, hops[k], fingerprint, info.sigs + HopSigs(c, hops[..k], fingerprint))
    {
      HopConvinced(c, hops, body, k);
    }
    var (name, key) := ParseNamedPubkey(hops[0].upstreamPubkey);
    var s :| s in info.sigs && VerifySigEntry(c, fingerprint, s, name, key);
    assert s in info.sigs + HopSigs(c, hops, fingerprint);
  }

  /** A hop's own pair is accepted on what the whole chain serves exactly if fewer than 32
      different classical signatures carried its name when it signed, or one of the first 32
      verified already. The hops after it make no difference. */
  lemma HopStaysAccepted(c: Scheme, hops: seq<Hop>, body: Text, k: nat)
    requires k < |hops| && Correct(c) && AllValid(hops) && Chain(c, hops, body).Ok?
    ensures Parsed(body).Ok? && FingerprintOf(Parsed(body).value).Some? && Parsed(Chain(c, hops, body).value).Ok?
    ensures var info, fingerprint := Parsed(body).value, FingerprintOf(Parsed(body).value).value;
      var served, secret := Parsed(Chain(c, hops, body).value).value, hops[k].secret;
      var name, keys, before := secret.name, Public(c, secret.signer), info.sigs + HopSigs(c, hops[..k], fingerprint);
      Checked(c, served.sigs, served.sigPqc, fingerprint, name, keys).Ok? <==>
        |Offered(Classical, name, before)| < MAX_SIG_CANDIDATES || InReach(c, Classical, before, fingerprint, name, keys)
  {
    hide Serve, Parsed, Printed, Endorse, FingerprintOf, Checked, Offered, HopSigs, HopSigsPqc, Correct, Public, InReach;
    var upTo := hops[..k + 1];
    assert AllValid(upTo) && upTo[..k] == hops[..k] && upTo[k] == hops[k];
    ChainPrefix(c, hops, body, k + 1);
    ChainStep(c, upTo, body);
    var text := Chain(c, hops[..k], body).value;
    OwnPairAccepted(c, hops[k], text);
    ChainReads(c, hops, body);
    ChainReads(c, upTo, body);
    var info := Parsed(body).value;
    var fingerprint := FingerprintOf(info).value;
    if k == 0 {
      assert hops[..k] == [] && text == body;
      ExtendedNone(c, fingerprint, info);
    } else {
      ChainReads(c, hops[..k], body);
      FingerprintIgnoresSignatures(c, hops[..k], fingerprint, info);
    }
    LaterHops(c, hops, k, fingerprint, info);
  }

  /** What the hops behind hop `k` add does not matter to the acceptance of its name once it has
      signed. */
  lemma LaterHops(c: Scheme, hops: seq<Hop>, k: nat, fingerprint: Text, info: NarInfo)
    requires k < |hops|
    ensures var mid, all := Extended(c, hops[..k + 1], fingerprint, info), Extended(c, hops, fingerprint, info);
      var name, keys, before := hops[k].secret.name, Public(c, hops[k].secret.signer), info.sigs + HopSigs(c, hops[..k], fingerprint);
      && (Checked(c, mid.sigs, mid.sigPqc, fingerprint, name, keys).Ok? ==>
          Checked(c, all.sigs, all.sigPqc, fingerprint, name, keys).Ok?)
      && (Checked(c, all.sigs, all.sigPqc, fingerprint, name, keys).Ok? ==>
          |Offered(Classical, name, before)| < MAX_SIG_CANDIDATES || InReach(c, Classical, before, fingerprint, name, keys))
  {
    hide Checked, Offered, HopSigs, HopSigsPqc, Public, InReach;
    var mid, all := Extended(c, hops[..k + 1], fingerprint, info), Extended(c, hops, fingerprint, info);
    var name, keys, before := hops[k].secret.name, Public(c, hops[k].secret.signer), info.sigs + HopSigs(c, hops[..k], fingerprint);
    HopSigsSplit(c, hops, k + 1, fingerprint);
    HopSigsSplit(c, hops, k, fingerprint);
    var rest := hops[k + 1..];
    Associative(info.sigs, HopSigs(c, hops[..k + 1], fingerprint), HopSigs(c, rest, fingerprint));
    Associative(info.sigPqc, HopSigsPqc(c, hops[..k + 1], fingerprint), HopSigsPqc(c, rest, fingerprint));
    Associative(info.sigs, HopSigs(c, hops[..k], fingerprint), HopSigs(c, hops[k..], fingerprint));
    if Checked(c, mid.sigs, mid.sigPqc, fingerprint, name, keys).Ok? {
      AppendKeepsAcceptance(c, mid.sigs, mid.sigPqc, fingerprint, name, keys,
                            HopSigs(c, rest, fingerprint), HopSigsPqc(c, rest, fingerprint));
    }
    if Checked(c, all.sigs, all.sigPqc, fingerprint, name, keys).Ok? && |Offered(Classical, name, before)| >= MAX_SIG_CANDIDATES {
      AcceptsExactly(c, all.sigs, all.sigPqc, fingerprint, name, keys);
      ReachBeyondCap(c, Classical, before, HopSigs(c, hops[k..], fingerprint), fingerprint, name, keys);
    }
  }

  lemma HopSigsSplit(c: Scheme, hops: seq<Hop>, k: nat, fingerprint: Text)
    requires k <= |hops|
    ensures HopSigs(c, hops, fingerprint) == HopSigs(c, hops[..k], fingerprint) + HopSigs(c, hops[k..], fingerprint)
    ensures HopSigsPqc(c, hops, fingerprint) == HopSigsPqc(c, hops[..k], fingerprint) + HopSigsPqc(c, hops[k..], fingerprint)
  {
    hide NewSig, NewSigPqc;
  }

  // ----- how long a chain can be

  /** The bytes a sequence of hops adds. */
  function Growth(hops: seq<Hop>): nat {
    if hops == [] then 0
    else Growth(hops[..|hops| - 1]) + PAIR_OVERHEAD + 2 * |hops[|hops| - 1].secret.name|
  }

  lemma {:induction false} ExtendedLength(c: Scheme, hops: seq<Hop>, fingerprint: Text, info: NarInfo)
    requires Correct(c) && AllValid(hops)
    ensures |Printed(Extended(c, hops, fingerprint, info))| == |Printed(info)| + Growth(hops)
  {
    hide Printed, Extended, Endorse, Correct;
    if hops == [] {
      ExtendedNone(c, fingerprint, info);
    } else {
      var n := |hops| - 1;
      assert hops[n] in hops && AllValid(hops[..n]);
      ExtendedMore(c, hops, fingerprint, info);
      ExtendedLength(c, hops[..n], fingerprint, info);
      EndorseLength(c, hops[n].secret, hops[n].coin, fingerprint, Extended(c, hops[..n], fingerprint, info));
    }
  }

  lemma {:induction false} GrowthBound(hops: seq<Hop>)
    requires AllValid(hops)
    ensures Growth(hops) >= |hops| * (PAIR_OVERHEAD + 2)
  {
    if hops != [] {
      assert hops[|hops| - 1] in hops && AllValid(hops[..|hops| - 1]);
      GrowthBound(hops[..|hops| - 1]);
    }
  }

  /** Since every hop refuses a body above the cap, no chain of more than 15 hops serves
      anything. */
  lemma AtMostFifteenHops(c: Scheme, hops: seq<Hop>, body: Text)
    requires Correct(c) && AllValid(hops) && Chain(c, hops, body).Ok?
    ensures |hops| <= 15
  {
    hide Serve, Parsed, Printed, FingerprintOf, Extended, Correct;
    if |hops| >= 2 {
      var n := |hops| - 1;
      ChainStep(c, hops, body);
      ServedIsRead(c, hops[n], Chain(c, hops[..n], body).value);
      ChainReads(c, hops[..n], body);
      var info := Parsed(body).value;
      ExtendedLength(c, hops[..n], FingerprintOf(info).value, info);
      GrowthBound(hops[..n]);
    }
  }

  // ----- chains that do serve

  /** Every hop but the first trusts the hop in front of it. */
  predicate Trusting(c: Scheme, hops: seq<Hop>) {
    forall i :: 1 <= i < |hops| ==> hops[i].upstreamPubkey == NamedPubkey(c, hops[i - 1].secret)
  }

  lemma ExtendedValidUtf8(c: Scheme, hops: seq<Hop>, fingerprint: Text, info: NarInfo)
    requires AllValid(hops) && ValidInfo(info)
    ensures ValidInfo(Extended(c, hops, fingerprint, info))
  {
    hide ValidUtf8, ValidEntry, SigEntry;
    forall s | s in HopSigs(c, hops, fingerprint)
      ensures ValidUtf8(s)
    {
      var i :| 0 <= i < |hops| && s == NewSig(c, hops[i].secret, hops[i].coin, fingerprint);
      assert hops[i] in hops;
      EntryValidUtf8(hops[i].secret.name, Sign(c, hops[i].secret.signer, fingerprint, hops[i].coin).ed25519);
    }
    forall s | s in HopSigsPqc(c, hops, fingerprint)
      ensures ValidUtf8(s)
    {
      var i :| 0 <= i < |hops| && s == NewSigPqc(c, hops[i].secret, hops[i].coin, fingerprint);
      assert hops[i] in hops;
      EntryValidUtf8(hops[i].secret.name, [ML_DSA_65_TAG] + Sign(c, hops[i].secret.signer, fingerprint, hops[i].coin).mlDsa);
    }
  }

  /** The next hop of a trusting chain serves if and only if what reaches it is within the cap. */
  lemma NextHopServes(c: Scheme, hops: seq<Hop>, body: Text)
    requires Correct(c) && |hops| >= 2 && AllValid(hops) && Trusting(c, hops)
    requires Chain(c, hops[..|hops| - 1], body).Ok?
    ensures Chain(c, hops, body).Ok? <==> |Chain(c, hops[..|hops| - 1], body).value| <= MAX_NARINFO_BYTES
  {
    var n := |hops| - 1;
    var before := hops[..n];
    var text := Chain(c, before, body).value;
    assert AllValid(before) && before[0] in hops && hops[n - 1] in hops;
    ChainReads(c, before, body);
    ChainPrefix(c, before, body, 1);
    assert before[..1] == [before[0]] && [before[0]][..0] == [] && Chain(c, [], body) == Ok(body);
    assert Serve(c, before[0], body).Ok?;
    hide Serve;
    ServedIsRead(c, before[0], body);
    hide Parsed, Printed, ValidUtf8, FingerprintOf, ValidInfo, UpstreamSigned, HopSigs, HopSigsPqc, Correct;
    var info := Parsed(body).value;
    var fingerprint := FingerprintOf(info).value;
    ParsedValid(body);
    ExtendedValidUtf8(c, before, fingerprint, info);
    PrintedValid(Extended(c, before, fingerprint, info));
    FingerprintIgnoresSignatures(c, before, fingerprint, info);
    TrustedSigned(c, hops, fingerprint, info);
    ServeCases(c, hops[n], text);
  }

  lemma ServeCases(c: Scheme, hop: Hop, body: Text)
    requires ValidUtf8(body) && Parsed(body).Ok? && FingerprintOf(Parsed(body).value).Some?
    requires UpstreamSigned(c, hop, FingerprintOf(Parsed(body).value).value, Parsed(body).value.sigs)
    ensures Serve(c, hop, body).Ok? <==> |body| <= MAX_NARINFO_BYTES
  {
    hide ValidUtf8, Parsed, FingerprintOf, UpstreamSigned, Printed;
  }

  lemma TrustingLast(c: Scheme, hops: seq<Hop>)
    requires |hops| >= 2 && AllValid(hops) && Trusting(c, hops)
    ensures var n := |hops| - 1;
      hops[n].upstreamPubkey == NamedPubkey(c, hops[n - 1].secret) && hops[n - 1].Valid()
    ensures AllValid(hops[..|hops| - 1]) && Trusting(c, hops[..|hops| - 1])
  {
    hide NamedPubkey;
    assert hops[|hops| - 2] in hops;
  }

  lemma LastHopSig(c: Scheme, hops: seq<Hop>, fingerprint: Text)
    requires hops != []
    ensures NewSig(c, hops[|hops| - 1].secret, hops[|hops| - 1].coin, fingerprint) in HopSigs(c, hops, fingerprint)
  {
    hide NewSig;
    var n := |hops| - 1;
    assert HopSigs(c, hops, fingerprint)[n] == NewSig(c, hops[n].secret, hops[n].coin, fingerprint);
  }

  lemma TrustedSigned(c: Scheme, hops: seq<Hop>, fingerprint: Text, info: NarInfo)
    requires Correct(c) && |hops| >= 2 && AllValid(hops) && Trusting(c, hops)
    ensures UpstreamSigned(c, hops[|hops| - 1], fingerprint, Extended(c, hops[..|hops| - 1], fingerprint, info).sigs)
  {
    hide VerifySigEntry, ParseNamedPubkey, NewSig, NewSigPqc, NamedPubkey, Correct, AllValid, Trusting, HopSigs, HopSigsPqc;
    var n := |hops| - 1;
    var previous := hops[n - 1];
    TrustingLast(c, hops);
    NewSigVerifies(c, previous.secret, previous.coin, fingerprint);
    assert hops[..n][n - 1] == previous;
    LastHopSig(c, hops[..n], fingerprint);
    var s := NewSig(c, previous.secret, previous.coin, fingerprint);
    assert s in info.sigs + HopSigs(c, hops[..n], fingerprint);
  }

  /** A chain in which every hop trusts the one in front of it serves exactly as long as what
      reaches its last hop fits the cap; so the bound of 15 is a matter of size alone. */
  lemma {:induction false} TrustingChainServes(c: Scheme, hops: seq<Hop>, body: Text)
    requires Correct(c) && |hops| >= 2 && AllValid(hops) && Trusting(c, hops)
    requires Serve(c, hops[0], body).Ok?
    ensures Parsed(body).Ok?
    ensures Chain(c, hops, body).Ok? <==>
      |Printed(Parsed(body).value)| + Growth(hops[..|hops| - 1]) <= MAX_NARINFO_BYTES
  {
    hide Serve, Parsed, Printed, FingerprintOf, Correct, Extended, AllValid, Trusting;
    var n := |hops| - 1;
    var before := hops[..n];
    TrustingLast(c, hops);
    assert hops[0].Valid() by { FirstValid(hops); }
    ServedIsRead(c, hops[0], body);
    var info := Parsed(body).value;
    if n == 1 {
      assert before == [hops[0]] && before[..0] == [] && Chain(c, [], body) == Ok(body);
    } else {
      assert before[0] == hops[0];
      TrustingChainServes(c, before, body);
      assert Growth(before) >= Growth(before[..n - 1]);
    }
    if Chain(c, before, body).Ok? {
      NextHopServes(c, hops, body);
      ChainReads(c, before, body);
      ExtendedLength(c, before, FingerprintOf(info).value, info);
    }
  }

  lemma FirstValid(hops: seq<Hop>)
    requires hops != [] && AllValid(hops)
    ensures hops[0].Valid()
  {
  }
}
