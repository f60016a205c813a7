/** The reverse proxy: one hop reads an upstream document, checks that the upstream signed it,
    adds its own pair of signatures and serves the result. Hops can be chained. */
module Proxy {
  import opened ByteText
  import opened Base64
  import opened NarInfos
  import opened RoundTrip
  import opened Fingerprints
  import opened Hybrid
  import opened Keys
  import opened HybridCheck
  import opened Utf8
  import opened Endorsement

  const MAX_NARINFO_BYTES: nat := 64 * 1024

  /** An item of the body stream: some bytes, or a failed read. */
  datatype Chunk = Data(bytes: Text) | Broken

  datatype ProxyError =
    | StreamError
    | TooLarge
    | NotUtf8
    | BadNarinfo(error: ParseError)
    | NoStoreDir
    | Unverified

  // ----- reading the body

  function Body(chunks: seq<Chunk>): Text {
    if chunks == [] then ""
    else Body(chunks[..|chunks| - 1]) + if chunks[|chunks| - 1].Data? then chunks[|chunks| - 1].bytes else ""
  }

  /** The chunks in front of the first failed read. */
  function Received(chunks: seq<Chunk>): seq<Chunk> {
    if chunks == [] || chunks[0].Broken? then [] else [chunks[0]] + Received(chunks[1..])
  }

  function ReadBody(chunks: seq<Chunk>, cap: nat): Result<Text, ProxyError> {
    if |Body(Received(chunks))| > cap then Err(TooLarge)
    else if Received(chunks) != chunks then Err(StreamError)
    else Ok(Body(chunks))
  }

  lemma {:induction false} BodyConcat(a: seq<Chunk>, b: seq<Chunk>)
    ensures Body(a + b) == Body(a) + Body(b)
    decreases |b|
  {
    if b == [] {
      assert a + b == a;
    } else {
      var n := |b| - 1;
      var last := if b[n].Data? then b[n].bytes else "";
      BodyConcat(a, b[..n]);
      assert (a + b)[..|a + b| - 1] == a + b[..n];
      Associative(Body(a), Body(b[..n]), last);
    }
  }

  lemma {:induction false} ReceivedPrefix(chunks: seq<Chunk>, i: nat)
    requires i <= |chunks| && forall k :: 0 <= k < i ==> chunks[k].Data?
    ensures Received(chunks) == chunks[..i] + Received(chunks[i..])
  {
    if i > 0 {
      var rest := chunks[1..];
      ReceivedPrefix(rest, i - 1);
      assert rest[i - 1..] == chunks[i..] && [chunks[0]] + rest[..i - 1] == chunks[..i];
      Associative([chunks[0]], rest[..i - 1], Received(chunks[i..]));
    }
  }

  lemma AllReceived(chunks: seq<Chunk>)
    requires forall k :: 0 <= k < |chunks| ==> chunks[k].Data?
    ensures Received(chunks) == chunks
  {
    ReceivedPrefix(chunks, |chunks|);
    assert chunks[|chunks|..] == [] && chunks[..|chunks|] + [] == chunks;
  }

  lemma TooMuch(chunks: seq<Chunk>, i: nat, cap: nat)
    requires i <= |chunks| && forall k :: 0 <= k < i ==> chunks[k].Data?
    requires |Body(chunks[..i])| > cap
    ensures ReadBody(chunks, cap) == Err(TooLarge)
  {
    ReceivedPrefix(chunks, i);
    BodyConcat(chunks[..i], Received(chunks[i..]));
  }

  method ReadCapped(chunks: seq<Chunk>, cap: nat) returns (r: Result<Text, ProxyError>)
    ensures r == ReadBody(chunks, cap)
  {
    var buf := "";
    for i := 0 to |chunks|
      invariant forall k :: 0 <= k < i ==> chunks[k].Data?
      invariant buf == Body(chunks[..i]) && |buf| <= cap
    {
      if chunks[i].Broken? {
        ReceivedPrefix(chunks, i);
        assert Received(chunks[i..]) == [] && chunks[..i] + [] == chunks[..i];
        return Err(StreamError);
      }
      buf := buf + chunks[i].bytes;
      assert chunks[..i + 1][..i] == chunks[..i];
      if |buf| > cap {
        TooMuch(chunks, i + 1, cap);
        return Err(TooLarge);
      }
    }
    AllReceived(chunks);
    assert chunks[..|chunks|] == chunks;
    return Ok(buf);
  }

  /** The body is returned whole or not at all, and however it was cut into chunks. */
  lemma ReadBodyExact(chunks: seq<Chunk>, cap: nat)
    ensures ReadBody(chunks, cap).Ok? <==> (forall k :: 0 <= k < |chunks| ==> chunks[k].Data?) && |Body(chunks)| <= cap
    ensures ReadBody(chunks, cap).Ok? ==> ReadBody(chunks, cap).value == Body(chunks)
  {
    if forall k :: 0 <= k < |chunks| ==> chunks[k].Data? {
      AllReceived(chunks);
    } else {
      ReceivedIsData(chunks);
    }
  }

  /** Where the upstream happens to cut its body makes no difference, not even to the error. */
  lemma ChunkingIrrelevant(a: seq<Chunk>, b: seq<Chunk>, cap: nat)
    requires Body(a) == Body(b)
    requires (forall k :: 0 <= k < |a| ==> a[k].Data?) && (forall k :: 0 <= k < |b| ==> b[k].Data?)
    ensures ReadBody(a, cap) == ReadBody(b, cap)
  {
    AllReceived(a);
    AllReceived(b);
  }

  lemma {:induction false} ReceivedIsData(chunks: seq<Chunk>)
    ensures forall k :: 0 <= k < |Received(chunks)| ==> Received(chunks)[k].Data?
  {
    if chunks != [] && chunks[0].Data? { ReceivedIsData(chunks[1..]); }
  }

  // ----- one hop

  datatype Hop = Hop(upstreamPubkey: Text, secret: SecretKey, coin: nat) {
    predicate Valid() { ValidKeyName(secret.name) && secret.signer.Valid() }
  }

  /** Some `Sig` entry verifies against the configured upstream key. */
  predicate UpstreamSigned(c: Scheme, hop: Hop, fingerprint: Text, sigs: seq<Text>) {
    var (name, key) := ParseNamedPubkey(hop.upstreamPubkey);
    exists s :: s in sigs && VerifySigEntry(c, fingerprint, s, name, key)
  }

  function Serve(c: Scheme, hop: Hop, body: Text): Result<Text, ProxyError> {
    if |body| > MAX_NARINFO_BYTES then Err(TooLarge)
    else if !ValidUtf8(body) then Err(NotUtf8)
    else match Parsed(body)
      case Err(e) => Err(BadNarinfo(e))
      case Ok(info) =>
        match FingerprintOf(info)
        case None => Err(NoStoreDir)
        case Some(fingerprint) =>
          if !UpstreamSigned(c, hop, fingerprint, info.sigs) then Err(Unverified)
          else Ok(Printed(Endorse(c, hop.secret, hop.coin, fingerprint, info)))
  }

  /** The answer to a request whose upstream body arrives in these chunks. */
  function Handled(c: Scheme, hop: Hop, chunks: seq<Chunk>): Result<Text, ProxyError> {
    match ReadBody(chunks, MAX_NARINFO_BYTES)
    case Err(e) => Err(e)
    case Ok(body) => Serve(c, hop, body)
  }

  method HandleNarinfo(c: Scheme, hop: Hop, chunks: seq<Chunk>) returns (r: Result<Text, ProxyError>)
    ensures r == Handled(c, hop, chunks)
  {
    hide Printed, Parsed, FingerprintOf, ValidUtf8, VerifySigEntry, ReadBody, Body;
    ReadBodyExact(chunks, MAX_NARINFO_BYTES);
    var body := ReadCapped(chunks, MAX_NARINFO_BYTES);
    if body.Err? {
      return Err(body.error);
    }
    if !ValidUtf8(body.value) {
      return Err(NotUtf8);
    }
    var parsed := Parse(body.value);
    if parsed.Err? {
      return Err(BadNarinfo(parsed.error));
    }
    var info := parsed.value;
    var fp := Fingerprint(info);
    if fp.None? {
      return Err(NoStoreDir);
    }
    var fingerprint := fp.value;
    var (name, key) := ParseNamedPubkey(hop.upstreamPubkey);
    var verified := false;
    for i := 0 to |info.sigs|
      invariant verified <==> exists s :: s in info.sigs[..i] && VerifySigEntry(c, fingerprint, s, name, key)
    {
      verified := verified || VerifySigEntry(c, fingerprint, info.sigs[i], name, key);
      assert info.sigs[..i + 1] == info.sigs[..i] + [info.sigs[i]];
    }
    assert info.sigs[..|info.sigs|] == info.sigs;
    if !verified {
      return Err(Unverified);
    }
    info := info.(sigs := info.sigs + [NewSig(c, hop.secret, hop.coin, fingerprint)]);
    info := info.(sigPqc := info.sigPqc + [NewSigPqc(c, hop.secret, hop.coin, fingerprint)]);
    var text := ToText(info);
    return Ok(text);
  }

  /** A hop changes nothing but the signature lists, and its output is read as that record. */
  lemma ServedIsRead(c: Scheme, hop: Hop, body: Text)
    requires hop.Valid() && Serve(c, hop, body).Ok?
    ensures |body| <= MAX_NARINFO_BYTES && ValidUtf8(body) && Parsed(body).Ok?
    ensures var info := Parsed(body).value;
      && FingerprintOf(info).Some?
      && var fingerprint := FingerprintOf(info).value;
      && UpstreamSigned(c, hop, fingerprint, info.sigs)
      && Serve(c, hop, body).value == Printed(Endorse(c, hop.secret, hop.coin, fingerprint, info))
      && Parsed(Serve(c, hop, body).value) == Ok(Endorse(c, hop.secret, hop.coin, fingerprint, info))
      && FingerprintOf(Parsed(Serve(c, hop, body).value).value) == Some(fingerprint)
  {
    hide Printed, Parsed, ValidUtf8, VerifySigEntry, WellFormed, UpstreamSigned, NewSig, NewSigPqc;
    var info := Parsed(body).value;
    var fingerprint := FingerprintOf(info).value;
    ParsedWellFormed(body);
    EndorseWellFormed(c, hop.secret, hop.coin, fingerprint, info);
    PrintThenParse(Endorse(c, hop.secret, hop.coin, fingerprint, info));
  }

  // ----- how large documents get

  /** The bytes a list of values takes as `Sig-PQC` lines; an empty value may have lost its
      separator. */
  function PqcWeight(vs: seq<Text>): nat {
    if vs == [] then 0
    else PqcWeight(vs[..|vs| - 1]) + if vs[|vs| - 1] == "" then 0 else |vs[|vs| - 1]| + 10
  }

  lemma {:induction false} PqcWeightConcat(a: seq<Text>, b: seq<Text>)
    ensures PqcWeight(a + b) == PqcWeight(a) + PqcWeight(b)
    decreases |b|
  {
    if b == [] {
      assert a + b == a;
    } else {
      var n := |b| - 1;
      PqcWeightConcat(a, b[..n]);
      assert (a + b)[..|a + b| - 1] == a + b[..n];
    }
  }

  lemma PqcLineWeight(raw: Text)
    requires Classify(raw).Good? && FieldOf(Classify(raw).entry.key) == SigPqc
    ensures PqcWeight([Classify(raw).entry.value]) <= |raw| + 1
  {
    KeyOfSigPqc(Classify(raw).entry.key);
    hide FieldOf;
    var v := Classify(raw).entry.value;
    assert [v][..0] == [];
  }

  lemma KeyOfSigPqc(key: Text)
    requires FieldOf(key) == SigPqc
    ensures key == "Sig-PQC" && |key| == 7
  {
  }

  lemma {:induction false} PqcLinesWeight(ls: seq<Text>)
    ensures PqcWeight(Values(Entries(ls), SigPqc)) <= Weight(ls)
  {
    hide Classify, FieldOf, PqcWeight, Values;
    ValuesNothing();
    if ls != [] {
      var rest := Entries(ls[1..]);
      PqcLinesWeight(ls[1..]);
      if Classify(ls[0]).Good? {
        var e := Classify(ls[0]).entry;
        assert Entries(ls) == [e] + rest;
        ValuesConcat([e], rest, SigPqc);
        ValuesSingle(e);
        if FieldOf(e.key) == SigPqc {
          PqcLineWeight(ls[0]);
          PqcWeightConcat([e.value], Values(rest, SigPqc));
        } else {
          assert [] + Values(rest, SigPqc) == Values(rest, SigPqc);
        }
      } else {
        assert Entries(ls) == rest;
      }
    }
  }

  lemma ValuesNothing()
    ensures Values([], SigPqc) == [] && PqcWeight([]) == 0
  {
  }

  lemma ValuesSingle(e: Entry)
    ensures Values([e], SigPqc) == if FieldOf(e.key) == SigPqc then [e.value] else []
  {
    hide FieldOf;
    assert [e][1..] == [];
  }

  const PQC_ENTRY_OVERHEAD: nat := 4427

  /** How many entries of a list decode, under any name and with repetitions. */
  function Decodable(entries: seq<Text>): nat {
    if entries == [] then 0
    else Decodable(entries[..|entries| - 1]) + if DecodeSigPqc(entries[|entries| - 1]).Some? then 1 else 0
  }

  lemma DecodableLength(entry: Text)
    requires DecodeSigPqc(entry).Some?
    ensures |entry| + 10 >= PQC_ENTRY_OVERHEAD
  {
    hide DecodeSigPqc, Encode;
    var (name, algorithm, sig) := DecodeSigPqc(entry).value;
    SigPqcInverse(entry, name, algorithm, sig);
    assert |[ML_DSA_65_TAG] + sig| == 3310 && |Encode([ML_DSA_65_TAG] + sig)| == 4416;
  }

  lemma {:induction false} DecodableWeight(vs: seq<Text>)
    ensures Decodable(vs) * PQC_ENTRY_OVERHEAD <= PqcWeight(vs)
  {
    hide DecodeSigPqc;
    if vs != [] {
      var n := |vs| - 1;
      DecodableWeight(vs[..n]);
      if DecodeSigPqc(vs[n]).Some? { DecodableLength(vs[n]); }
    }
  }

  lemma {:induction false} DistinctDecodable(name: Text, vs: seq<Text>)
    ensures |Distinct(PostQuantum, name, vs)| <= Decodable(vs)
  {
    hide DecodeSigPqc;
    if vs != [] { DistinctDecodable(name, vs[..|vs| - 1]); }
  }

  /** A document within the cap has no room for more than 14 `Sig-PQC` entries that decode, over
      all names and counting repetitions; so no name has more than 14 candidates in it. */
  lemma AtMostFourteen(body: Text, name: Text)
    requires |body| <= MAX_NARINFO_BYTES && Parsed(body).Ok?
    ensures Decodable(Parsed(body).value.sigPqc) <= 14
    ensures |Distinct(PostQuantum, name, Parsed(body).value.sigPqc)| <= 14
  {
    LinesWeight(body);
    PqcLinesWeight(Lines(body));
    DecodableWeight(Parsed(body).value.sigPqc);
    DistinctDecodable(name, Parsed(body).value.sigPqc);
    hide Distinct, Decodable, PqcWeight, Weight, Lines, Entries, FirstError;
  }
}
