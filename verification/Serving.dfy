/** One proxy hop in terms of bytes and entries, and how far the size limits of a chain can be
    reached. */
module Serving {
  import opened ByteText
  import opened Base64
  import opened NarInfos
  import opened RoundTrip
  import opened Fingerprints
  import opened Hybrid
  import opened Keys
  import opened Utf8
  import opened Endorsement
  import opened Acceptance
  import opened Documents
  import opened Proxy
  import opened ProxyChain
  import Verifying

  // ----- one hop

  /** The body is what the chunks hold, one after the other. */
  lemma BodyExactly(a: seq<Chunk>, b: seq<Chunk>, bytes: Text)
    ensures Body([]) == "" && Body([Data(bytes)]) == bytes && Body([Broken]) == "" && Body(a + b) == Body(a) + Body(b)
  {
    BodyConcat(a, b);
    assert [Data(bytes)][..0] == [] && [Broken][..0] == [] && "" + bytes == bytes && "" + "" == "";
  }

  predicate AllData(chunks: seq<Chunk>) { forall k :: 0 <= k < |chunks| ==> chunks[k].Data? }

  ghost predicate UpstreamTrusted(c: Scheme, hop: Hop, fingerprint: Text, sigs: seq<Text>) {
    exists e :: e in sigs && Trusted(c, fingerprint, e, hop.upstreamPubkey)
  }

  lemma UpstreamExactly(c: Scheme, hop: Hop, fingerprint: Text, sigs: seq<Text>)
    ensures UpstreamSigned(c, hop, fingerprint, sigs) <==> UpstreamTrusted(c, hop, fingerprint, sigs)
  {
    hide Trusted, VerifySigEntry, ParseNamedPubkey;
    forall e | e in sigs
      ensures var (name, key) := ParseNamedPubkey(hop.upstreamPubkey);
        VerifySigEntry(c, fingerprint, e, name, key) <==> Trusted(c, fingerprint, e, hop.upstreamPubkey)
    {
      TrustedExactly(c, fingerprint, e, hop.upstreamPubkey);
    }
  }

  /** The record as it is served, with the hop's two entries behind all others. */
  function WithPair(c: Scheme, hop: Hop, fingerprint: Text, info: NarInfo): NarInfo {
    info.(sigs := info.sigs + [hop.secret.name + ":" + Encode(c.edSign(hop.secret.signer.ed, fingerprint, hop.coin))],
          sigPqc := info.sigPqc + [hop.secret.name + ":" + Encode([1] + c.mlSign(hop.secret.signer.ml, fingerprint, hop.coin))])
  }

  /** When a hop serves, and what: the body arrives whole, has at most 64 KiB, is in order, and
      carries an entry that is accepted under the configured upstream key. */
  lemma ServesExactly(c: Scheme, hop: Hop, chunks: seq<Chunk>, served: Text)
    ensures Handled(c, hop, chunks) == Ok(served) <==>
      && AllData(chunks) && |Body(chunks)| <= 65536 && ValidUtf8(Body(chunks))
      && Parsed(Body(chunks)).Ok? && FingerprintOf(Parsed(Body(chunks)).value).Some?
      && var info, fingerprint := Parsed(Body(chunks)).value, FingerprintOf(Parsed(Body(chunks)).value).value;
      && UpstreamTrusted(c, hop, fingerprint, info.sigs)
      && served == Printed(WithPair(c, hop, fingerprint, info))
  {
    hide ValidUtf8, Parsed, FingerprintOf, Printed, UpstreamSigned, UpstreamTrusted, Body, Encode, ReadBody;
    ReadBodyExact(chunks, 65536);
    var body := Body(chunks);
    if Parsed(body).Ok? && FingerprintOf(Parsed(body).value).Some? {
      var info, fingerprint := Parsed(body).value, FingerprintOf(Parsed(body).value).value;
      UpstreamExactly(c, hop, fingerprint, info.sigs);
      assert Endorse(c, hop.secret, hop.coin, fingerprint, info) == WithPair(c, hop, fingerprint, info);
    }
  }

  /** Why a hop refuses: what arrives in front of a failed read is already too much, or the read
      has failed; or the first of the other reasons that applies. */
  lemma RefusesExactly(c: Scheme, hop: Hop, chunks: seq<Chunk>, rest: seq<Chunk>)
    requires AllData(chunks)
    ensures Handled(c, hop, chunks + [Broken] + rest) == if |Body(chunks)| > 65536 then Err(TooLarge) else Err(StreamError)
    ensures var body, r := Body(chunks), Handled(c, hop, chunks);
      && (r == Err(TooLarge) <==> |body| > 65536)
      && (r == Err(NotUtf8) <==> |body| <= 65536 && !ValidUtf8(body))
      && (forall e :: r == Err(BadNarinfo(e)) <==> |body| <= 65536 && ValidUtf8(body) && Parsed(body) == Err(e))
      && (r == Err(NoStoreDir) <==>
          |body| <= 65536 && ValidUtf8(body) && Parsed(body).Ok? && FingerprintOf(Parsed(body).value).None?)
      && (r == Err(Unverified) <==>
          && |body| <= 65536 && ValidUtf8(body) && Parsed(body).Ok? && FingerprintOf(Parsed(body).value).Some?
          && !UpstreamTrusted(c, hop, FingerprintOf(Parsed(body).value).value, Parsed(body).value.sigs))
  {
    hide ValidUtf8, Parsed, FingerprintOf, Printed, UpstreamSigned, UpstreamTrusted, Body, Encode, Endorse;
    AllReceived(chunks);
    var broken := chunks + [Broken] + rest;
    ReceivedPrefix(broken, |chunks|);
    assert broken[..|chunks|] == chunks && broken[|chunks|..] == [Broken] + rest;
    assert Received([Broken] + rest) == [] && chunks + [] == chunks && |broken| > |chunks|;
    var body := Body(chunks);
    if Parsed(body).Ok? && FingerprintOf(Parsed(body).value).Some? {
      UpstreamExactly(c, hop, FingerprintOf(Parsed(body).value).value, Parsed(body).value.sigs);
    }
  }

  /** A hop of a chain is the handler, however the body is cut into chunks. */
  lemma HopIsHandler(c: Scheme, hop: Hop, chunks: seq<Chunk>)
    requires AllData(chunks)
    ensures Handled(c, hop, chunks) == Serve(c, hop, Body(chunks))
  {
    hide ValidUtf8, Parsed, FingerprintOf, Printed, UpstreamSigned, Body;
    AllReceived(chunks);
  }

  /** A chain that does not serve gives the answer of the first hop that refuses. */
  lemma {:induction false} ChainRefuses(c: Scheme, hops: seq<Hop>, body: Text) returns (k: nat)
    requires Chain(c, hops, body).Err?
    ensures k < |hops| && Chain(c, hops[..k], body).Ok?
    ensures Chain(c, hops, body) == Serve(c, hops[k], Chain(c, hops[..k], body).value)
  {
    hide Serve;
    var n := |hops| - 1;
    if Chain(c, hops[..n], body).Ok? {
      k := n;
    } else {
      k := ChainRefuses(c, hops[..n], body);
      assert hops[..n][..k] == hops[..k] && hops[..n][k] == hops[k];
    }
  }

  // ----- the limits are reached

  lemma {:induction false} GrowthExactly(hops: seq<Hop>)
    requires forall h :: h in hops ==> |h.secret.name| == 1
    ensures Growth(hops) == 4524 * |hops|
  {
    if hops != [] {
      assert hops[|hops| - 1] in hops;
      GrowthExactly(hops[..|hops| - 1]);
    }
  }

  /** Fifteen hops in a row do serve: any document that prints to at most 2200 bytes and that the
      first hop trusts passes through a chain of that length whose names are one letter long. */
  lemma FifteenHopsServe(c: Scheme, hops: seq<Hop>, body: Text)
    requires Correct(c) && |hops| == 15 && AllValid(hops) && Trusting(c, hops)
    requires forall h :: h in hops ==> |h.secret.name| == 1
    requires |body| <= 65536 && ValidUtf8(body) && Parsed(body).Ok? && FingerprintOf(Parsed(body).value).Some?
    requires UpstreamTrusted(c, hops[0], FingerprintOf(Parsed(body).value).value, Parsed(body).value.sigs)
    requires |Printed(Parsed(body).value)| <= 2200
    ensures Chain(c, hops, body).Ok?
  {
    hide ValidUtf8, Parsed, FingerprintOf, Printed, UpstreamSigned, UpstreamTrusted, Correct, AllValid, Trusting, Chain, Growth;
    UpstreamExactly(c, hops[0], FingerprintOf(Parsed(body).value).value, Parsed(body).value.sigs);
    ServeCases(c, hops[0], body);
    TrustingChainServes(c, hops, body);
    GrowthExactly(hops[..14]);
  }

  const SMALL := EMPTY.(storePath := "/s/x", narHash := "h")

  lemma SmallLength(sigs: seq<Text>, sigPqc: seq<Text>)
    ensures |Printed(SMALL.(sigs := sigs, sigPqc := sigPqc))| == 71 + |Repeated(Label(Sig), sigs)| + |Repeated(Label(SigPqc), sigPqc)|
  {
    PrintedExactly(SMALL.(sigs := sigs, sigPqc := sigPqc));
    assert Decimal.Show(0) == "0";
    hide Printed, Repeated, Decimal.Show;
    assert Join([], ' ') == "" && RepeatedExtra([]) == "";
  }

  lemma SmallIsDocument(sigs: seq<Text>, sigPqc: seq<Text>)
    requires forall s :: s in sigs || s in sigPqc ==> LineEnd(s) && ValidUtf8(s)
    ensures var info := SMALL.(sigs := sigs, sigPqc := sigPqc);
      && Parsed(Printed(info)) == Ok(info) && ValidUtf8(Printed(info))
      && FingerprintOf(info).Some? && FingerprintOf(info) == FingerprintOf(SMALL)
  {
    hide Parsed, Printed, ValidUtf8, LineEnd, StoreDir, Sorted, Qualified, Join, RefsOk, ExtraOk, OptionalLineEnd, ValidEntry;
    Verifying.SmallestDocument();
    var info := SMALL.(sigs := sigs, sigPqc := sigPqc);
    assert StoreDir(info) == StoreDir(SMALL) by { SameStoreDir(sigs, sigPqc); }
    assert WellFormed(info) && ValidInfo(info);
    hide WellFormed, ValidInfo;
    PrintThenParse(info);
    PrintedValid(info);
  }

  lemma SameStoreDir(sigs: seq<Text>, sigPqc: seq<Text>)
    ensures StoreDir(SMALL.(sigs := sigs, sigPqc := sigPqc)) == StoreDir(SMALL)
  {
    hide FindLast;
  }

  lemma EntryFits(name: Text, bytes: Bytes)
    requires ValidKeyName(name)
    ensures LineEnd(SigEntry(name, bytes)) && ValidUtf8(SigEntry(name, bytes))
  {
    hide SigEntry, ValidUtf8;
    ValidNamePlain(name);
    SigEntryLineEnd(name, bytes);
    EntryValidUtf8(name, bytes);
  }

  lemma RepeatedOne(start: Text, v: Text)
    ensures Repeated(start, []) == "" && Repeated(start, [v]) == start + v + "\n"
  {
    assert [v][1..] == [] && Repeated(start, []) == "";
  }

  /** There is such a document, for all keys: chains of fifteen are not only allowed, they occur. */
  lemma FifteenHopsOccur(c: Scheme, origin: SecretKey, coin: nat, hops: seq<Hop>) returns (body: Text)
    requires Correct(c) && ValidKeyName(origin.name) && origin.signer.Valid()
    requires |hops| == 15 && AllValid(hops) && Trusting(c, hops) && forall h :: h in hops ==> |h.secret.name| == 1
    requires hops[0].upstreamPubkey == NamedPubkey(c, origin)
    ensures Chain(c, hops, body).Ok?
  {
    hide Parsed, Printed, ValidUtf8, FingerprintOf, NewSig, NamedPubkey, Correct, AllValid, Trusting, Chain, Trusted, ValidKeyName,
      VerifySigEntry, ParseNamedPubkey, LineEnd, Repeated;
    SmallIsDocument([], []);
    var fingerprint := FingerprintOf(SMALL).value;
    var s := NewSig(c, origin, coin, fingerprint);
    EntryFits(origin.name, Sign(c, origin.signer, fingerprint, coin).ed25519);
    assert s == SigEntry(origin.name, Sign(c, origin.signer, fingerprint, coin).ed25519) by { NewSigIs(c, origin, coin, fingerprint); }
    SmallIsDocument([s], []);
    var info := SMALL.(sigs := [s], sigPqc := []);
    body := Printed(info);
    NewSigVerifies(c, origin, coin, fingerprint);
    TrustedExactly(c, fingerprint, s, NamedPubkey(c, origin));
    assert s in info.sigs && UpstreamTrusted(c, hops[0], fingerprint, info.sigs);
    SmallLength([s], []);
    RepeatedOne(Label(Sig), s);
    RepeatedOne(Label(SigPqc), s);
    NewEntryLengths(c, origin, coin, fingerprint);
    assert |origin.name| <= 128 by { NameExactly(origin.name); }
    FifteenHopsServe(c, hops, body);
  }

  lemma NewSigIs(c: Scheme, key: SecretKey, coin: nat, message: Text)
    ensures NewSig(c, key, coin, message) == SigEntry(key.name, Sign(c, key.signer, message, coin).ed25519)
  {
  }

  lemma {:induction false} RepeatedLength(start: Text, vs: seq<Text>, n: nat, m: nat)
    requires m == |start| + n + 1 && forall v :: v in vs ==> |v| == n
    ensures |Repeated(start, vs)| == |vs| * m
  {
    if vs != [] {
      assert vs[0] in vs;
      RepeatedLength(start, vs[1..], n, m);
      assert |Repeated(start, vs)| == m + |Repeated(start, vs[1..])|;
      OneMoreTimes(|vs| - 1, m);
    }
  }

  lemma OneMoreTimes(k: nat, m: nat)
    ensures (k + 1) * m == m + k * m
  {
  }

  lemma {:induction false} AllDecodable(es: seq<Text>)
    requires forall e :: e in es ==> DecodeSigPqc(e).Some?
    ensures Decodable(es) == |es|
  {
    hide DecodeSigPqc;
    if es != [] {
      assert es[|es| - 1] in es;
      AllDecodable(es[..|es| - 1]);
    }
  }

  /** Fourteen entries that decode do fit into a body. */
  lemma FourteenFit(ml: Bytes) returns (body: Text)
    requires |ml| == 3309
    ensures |body| <= 65536 && ValidUtf8(body) && Parsed(body).Ok? && Decodable(Parsed(body).value.sigPqc) == 14
  {
    hide Parsed, Printed, ValidUtf8, FingerprintOf, LineEnd, Repeated, DecodeSigPqc, SigEntry, Decodable, Encode;
    var entry := EncodeSigPqc("k", ml);
    var es := seq(14, _ => entry);
    NameExactly("k");
    EntryFits("k", [ML_DSA_65_TAG] + ml);
    SmallIsDocument([], es);
    body := Printed(SMALL.(sigs := [], sigPqc := es));
    SigPqcInverse(entry, "k", MlDsa65, ml);
    AllDecodable(es);
    assert |entry| == 4418 by { EntryLength(ml); }
    SmallLength([], es);
    RepeatedLength(Label(SigPqc), es, 4418, 4428);
    RepeatedOne(Label(Sig), "");
  }

  lemma EntryLength(ml: Bytes)
    requires |ml| == 3309
    ensures |EncodeSigPqc("k", ml)| == 4418
  {
    hide Encode;
    assert |[ML_DSA_65_TAG] + ml| == 3310;
  }
}
