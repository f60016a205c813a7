/** `verify_hybrid`: does a key accept a document? Both halves must verify, each against the
    first 32 distinct well-formed signatures filed under the key's name. */
module HybridCheck {
  import opened ByteText
  import opened Base64
  import opened Hybrid
  import opened Keys

  const MAX_SIG_CANDIDATES: nat := 32

  datatype Half = Classical | PostQuantum

  datatype Failure = NoSig | NoSigPqc | SigNotVerified | SigPqcNotVerified

  /** The signature an entry offers for `name`, if it is filed under that name and well-formed. */
  function Candidate(half: Half, name: Text, entry: Text): Option<Bytes> {
    if !StartsWith(entry, name + ":") then None
    else match half
      case Classical =>
        (match ParseSigEntry(entry)
         case None => None
         case Some((_, bytes)) => if |bytes| == ED25519_SIGNATURE_LEN then Some(bytes) else None)
      case PostQuantum =>
        (match DecodeSigPqc(entry)
         case None => None
         case Some((_, _, sig)) => Some(sig))
  }

  function Spelling(half: Half, name: Text, sig: Bytes): Text {
    if half == Classical then SigEntry(name, sig) else EncodeSigPqc(name, sig)
  }

  function SigLength(half: Half): nat {
    if half == Classical then ED25519_SIGNATURE_LEN else ML_DSA_65_SIGNATURE_LEN
  }

  /** An entry counts for a name exactly when it is the one spelling of a signature of the right
      length under that very name: filtering by prefix never lets in another name's entry. */
  lemma CandidateExact(half: Half, name: Text, entry: Text, sig: Bytes)
    ensures Candidate(half, name, entry) == Some(sig) <==>
      entry == Spelling(half, name, sig) && ':' !in name && |sig| == SigLength(half)
  {
    hide SigEntry, ParseSigEntry, EncodeSigPqc, DecodeSigPqc;
    SigEntryInverse(entry, name, sig);
    SigPqcInverse(entry, name, MlDsa65, sig);
    if entry == Spelling(half, name, sig) && ':' !in name && |sig| == SigLength(half) {
      SpellingPrefix(half, name, sig);
    }
    if Candidate(half, name, entry) == Some(sig) {
      CandidateName(half, name, entry);
      if half == PostQuantum { OneAlgorithm(DecodeSigPqc(entry).value.1); }
    }
  }

  lemma OneAlgorithm(a: Algorithm)
    ensures a == MlDsa65
  {
  }

  lemma SpellingPrefix(half: Half, name: Text, sig: Bytes)
    ensures StartsWith(Spelling(half, name, sig), name + ":")
  {
    hide Encode;
    assert Spelling(half, name, sig)[..|name| + 1] == name + ":";
  }

  /** What stands after the first colon is base64, which has no colon; so the name in front of
      it is the whole prefix. */
  lemma CandidateName(half: Half, name: Text, entry: Text)
    requires Candidate(half, name, entry).Some?
    ensures ':' !in name
    ensures half == Classical ==> ParseSigEntry(entry).Some? && ParseSigEntry(entry).value.0 == name
    ensures half == PostQuantum ==> DecodeSigPqc(entry).Some? && DecodeSigPqc(entry).value.0 == name
  {
    hide Encode, Decode;
    var (n, b64) := SplitOnce(entry, ':').value;
    EncodeDecode(b64);
    EncodeSymbols(Decode(b64).value);
    assert !IsSymbol(':') && ':' !in b64;
    assert entry[|name|] == (name + ":")[|name|] == ':';
    assert entry == n + [':'] + b64;
    assert |name| == |n|;
    assert name == entry[..|name|] && n == entry[..|n|];
  }

  /** Every candidate once, in order of first appearance. */
  function Distinct(half: Half, name: Text, entries: seq<Text>): seq<Bytes> {
    if entries == [] then []
    else
      var n := |entries| - 1;
      var d, s := Distinct(half, name, entries[..n]), Candidate(half, name, entries[n]);
      if s.Some? && s.value !in d then d + [s.value] else d
  }

  function Capped(d: seq<Bytes>): seq<Bytes> {
    if |d| <= MAX_SIG_CANDIDATES then d else d[..MAX_SIG_CANDIDATES]
  }

  predicate HalfVerifies(c: Scheme, half: Half, keys: VerifyingKeys, message: Text, sig: Bytes) {
    match half
    case Classical => VerifyEd25519(c, keys.ed25519, message, sig)
    case PostQuantum => VerifyMlDsa(c, keys.mlDsa, message, sig)
  }

  predicate AnyVerifies(c: Scheme, half: Half, keys: VerifyingKeys, message: Text, sigs: seq<Bytes>) {
    exists s :: s in sigs && HalfVerifies(c, half, keys, message, s)
  }

  function Checked(c: Scheme, sigs: seq<Text>, sigPqc: seq<Text>, fingerprint: Text, name: Text, keys: VerifyingKeys)
    : Result<(), Failure>
  {
    var ed := Capped(Distinct(Classical, name, sigs));
    var ml := Capped(Distinct(PostQuantum, name, sigPqc));
    if ed == [] then Err(NoSig)
    else if ml == [] then Err(NoSigPqc)
    else if !AnyVerifies(c, Classical, keys, fingerprint, ed) then Err(SigNotVerified)
    else if !AnyVerifies(c, PostQuantum, keys, fingerprint, ml) then Err(SigPqcNotVerified)
    else Ok(())
  }

  // ----- the program

  method CollectCandidates(half: Half, name: Text, entries: seq<Text>) returns (candidates: seq<Bytes>)
    ensures candidates == Capped(Distinct(half, name, entries))
  {
    hide Candidate;
    candidates := [];
    var seen: set<Bytes> := {};
    var i := 0;
    assert entries[..0] == [];
    while i < |entries| && |candidates| < MAX_SIG_CANDIDATES
      invariant i <= |entries|
      invariant |candidates| <= MAX_SIG_CANDIDATES
      invariant candidates == Distinct(half, name, entries[..i])
      invariant forall s :: s in seen <==> s in candidates
    {
      assert entries[..i + 1][..i] == entries[..i];
      var s := Candidate(half, name, entries[i]);
      if s.Some? && s.value !in seen {
        seen := seen + {s.value};
        candidates := candidates + [s.value];
      }
      i := i + 1;
    }
    assert entries[..i] + entries[i..] == entries;
    DistinctGrows(half, name, entries[..i], entries[i..]);
    assert i == |entries| ==> entries[..i] == entries;
    CapReached(candidates, Distinct(half, name, entries));
  }

  lemma CapReached(a: seq<Bytes>, d: seq<Bytes>)
    requires a <= d && |a| <= MAX_SIG_CANDIDATES
    ensures |a| == MAX_SIG_CANDIDATES || a == d ==> a == Capped(d)
  {
  }

  method AnyOf(c: Scheme, half: Half, keys: VerifyingKeys, message: Text, sigs: seq<Bytes>) returns (ok: bool)
    ensures ok == AnyVerifies(c, half, keys, message, sigs)
  {
    for i := 0 to |sigs|
      invariant forall j :: 0 <= j < i ==> !HalfVerifies(c, half, keys, message, sigs[j])
    {
      if HalfVerifies(c, half, keys, message, sigs[i]) {
        return true;
      }
    }
    return false;
  }

  method VerifyHybrid(c: Scheme, sigs: seq<Text>, sigPqc: seq<Text>, fingerprint: Text, name: Text, keys: VerifyingKeys)
    returns (r: Result<(), Failure>)
    ensures r == Checked(c, sigs, sigPqc, fingerprint, name, keys)
  {
    var edCandidates := CollectCandidates(Classical, name, sigs);
    if edCandidates == [] {
      return Err(NoSig);
    }
    var pqcCandidates := CollectCandidates(PostQuantum, name, sigPqc);
    if pqcCandidates == [] {
      return Err(NoSigPqc);
    }
    var edOk := AnyOf(c, Classical, keys, fingerprint, edCandidates);
    if !edOk {
      return Err(SigNotVerified);
    }
    var pqcOk := AnyOf(c, PostQuantum, keys, fingerprint, pqcCandidates);
    if !pqcOk {
      return Err(SigPqcNotVerified);
    }
    return Ok(());
  }

  // ----- the candidate list

  lemma {:induction false} DistinctGrows(half: Half, name: Text, a: seq<Text>, b: seq<Text>)
    ensures Distinct(half, name, a) <= Distinct(half, name, a + b)
    decreases |b|
  {
    hide Candidate;
    if b == [] {
      assert a + b == a;
    } else {
      var n := |b| - 1;
      DistinctGrows(half, name, a, b[..n]);
      assert (a + b)[..|a + b| - 1] == a + b[..n];
    }
  }

  function Offered(half: Half, name: Text, entries: seq<Text>): set<Bytes> {
    set e | e in entries && Candidate(half, name, e).Some? :: Candidate(half, name, e).value
  }

  lemma OfferedMore(half: Half, name: Text, entries: seq<Text>, e: Text)
    ensures Offered(half, name, entries + [e]) == Offered(half, name, entries)
      + if Candidate(half, name, e).Some? then {Candidate(half, name, e).value} else {}
  {
    hide Candidate;
  }

  /** The list names each offered signature exactly once. */
  lemma {:induction false} DistinctIsOffered(half: Half, name: Text, entries: seq<Text>)
    ensures forall s :: s in Distinct(half, name, entries) <==> s in Offered(half, name, entries)
    ensures |Distinct(half, name, entries)| == |Offered(half, name, entries)|
    ensures forall i, j :: 0 <= i < j < |Distinct(half, name, entries)| ==>
      Distinct(half, name, entries)[i] != Distinct(half, name, entries)[j]
  {
    hide Candidate, Offered;
    if entries == [] {
      OfferedNothing(half, name);
    } else {
      var n := |entries| - 1;
      DistinctIsOffered(half, name, entries[..n]);
      OfferedMore(half, name, entries[..n], entries[n]);
      assert entries == entries[..n] + [entries[n]];
    }
  }

  lemma OfferedNothing(half: Half, name: Text)
    ensures Offered(half, name, []) == {}
  {
  }

  /** At most 32 signatures per half are verified, and no signature twice. */
  lemma WorkIsBounded(half: Half, name: Text, entries: seq<Text>)
    ensures var tried := Capped(Distinct(half, name, entries));
      && |tried| <= 32
      && (forall i, j :: 0 <= i < j < |tried| ==> tried[i] != tried[j])
      && (|Offered(half, name, entries)| <= 32 ==> forall s :: s in Offered(half, name, entries) ==> s in tried)
  {
    DistinctIsOffered(half, name, entries);
    hide Distinct, Offered;
  }

  lemma {:induction false} DistinctAfter(half: Half, name: Text, a: seq<Text>, b: seq<Text>, rest: seq<Text>)
    requires Distinct(half, name, a) == Distinct(half, name, b)
    ensures Distinct(half, name, a + rest) == Distinct(half, name, b + rest)
    decreases |rest|
  {
    hide Candidate;
    if rest == [] {
      assert a + rest == a && b + rest == b;
    } else {
      var n := |rest| - 1;
      DistinctAfter(half, name, a, b, rest[..n]);
      assert (a + rest)[..|a + rest| - 1] == a + rest[..n];
      assert (b + rest)[..|b + rest| - 1] == b + rest[..n];
    }
  }

  /** Noise has no influence: an entry of another name, malformed, of the wrong length or
      algorithm, or offering a signature already seen, can be dropped or inserted anywhere. */
  lemma NoiseIgnored(half: Half, name: Text, before: seq<Text>, entry: Text, after: seq<Text>)
    requires var s := Candidate(half, name, entry); s.None? || s.value in Offered(half, name, before)
    ensures Distinct(half, name, before + [entry] + after) == Distinct(half, name, before + after)
  {
    DistinctIsOffered(half, name, before);
    hide Candidate, Offered;
    assert (before + [entry])[..|before|] == before;
    DistinctAfter(half, name, before + [entry], before, after);
  }

  // ----- the verdict against its specification

  /** Some entry of each half, under the same name, forms a valid hybrid signature. */
  ghost predicate SomePairVerifies(c: Scheme, sigs: seq<Text>, sigPqc: seq<Text>, fingerprint: Text, name: Text, keys: VerifyingKeys) {
    exists e, p :: e in sigs && p in sigPqc
      && Candidate(Classical, name, e).Some? && Candidate(PostQuantum, name, p).Some?
      && Verify(c, keys, fingerprint, Signature(Candidate(Classical, name, e).value, Candidate(PostQuantum, name, p).value))
  }

  /** A verifying entry in front of which fewer than 32 different signatures are offered. */
  ghost predicate InReach(c: Scheme, half: Half, entries: seq<Text>, fingerprint: Text, name: Text, keys: VerifyingKeys) {
    exists i :: 0 <= i < |entries|
      && Candidate(half, name, entries[i]).Some?
      && HalfVerifies(c, half, keys, fingerprint, Candidate(half, name, entries[i]).value)
      && |Offered(half, name, entries[..i])| < MAX_SIG_CANDIDATES
  }

  /** Where a candidate first appeared. */
  lemma {:induction false} FirstOffer(half: Half, name: Text, entries: seq<Text>, k: nat) returns (i: nat)
    requires k < |Distinct(half, name, entries)|
    ensures i < |entries| && Candidate(half, name, entries[i]) == Some(Distinct(half, name, entries)[k])
    ensures |Distinct(half, name, entries[..i])| == k
  {
    hide Candidate;
    var n := |entries| - 1;
    if k < |Distinct(half, name, entries[..n])| {
      i := FirstOffer(half, name, entries[..n], k);
      assert entries[..n][..i] == entries[..i];
    } else {
      i := n;
    }
  }

  lemma DistinctStep(half: Half, name: Text, entries: seq<Text>, i: nat)
    requires i < |entries| && Candidate(half, name, entries[i]).Some?
    ensures Candidate(half, name, entries[i]).value in Distinct(half, name, entries[..i + 1])
    ensures |Distinct(half, name, entries[..i + 1])| <= |Distinct(half, name, entries[..i])| + 1
  {
    hide Candidate;
    assert entries[..i + 1][..i] == entries[..i];
  }

  lemma PrefixInCapped(a: seq<Bytes>, d: seq<Bytes>)
    requires a <= d && |a| <= MAX_SIG_CANDIDATES
    ensures forall s :: s in a ==> s in Capped(d)
  {
    assert a <= Capped(d);
  }

  lemma ReachedIsCollected(half: Half, entries: seq<Text>, name: Text, i: nat)
    requires i < |entries| && Candidate(half, name, entries[i]).Some?
    requires |Offered(half, name, entries[..i])| < MAX_SIG_CANDIDATES
    ensures Candidate(half, name, entries[i]).value in Capped(Distinct(half, name, entries))
  {
    hide Candidate, Offered, Distinct, Capped;
    DistinctIsOffered(half, name, entries[..i]);
    DistinctStep(half, name, entries, i);
    DistinctGrows(half, name, entries[..i + 1], entries[i + 1..]);
    assert entries[..i + 1] + entries[i + 1..] == entries;
    PrefixInCapped(Distinct(half, name, entries[..i + 1]), Distinct(half, name, entries));
  }

  lemma ReachIsCollected(c: Scheme, half: Half, entries: seq<Text>, fingerprint: Text, name: Text, keys: VerifyingKeys)
    ensures InReach(c, half, entries, fingerprint, name, keys) <==>
      AnyVerifies(c, half, keys, fingerprint, Capped(Distinct(half, name, entries)))
  {
    hide Candidate, HalfVerifies, Offered, Distinct;
    var d := Distinct(half, name, entries);
    if InReach(c, half, entries, fingerprint, name, keys) {
      var i :| 0 <= i < |entries|
        && Candidate(half, name, entries[i]).Some?
        && HalfVerifies(c, half, keys, fingerprint, Candidate(half, name, entries[i]).value)
        && |Offered(half, name, entries[..i])| < MAX_SIG_CANDIDATES;
      ReachedIsCollected(half, entries, name, i);
    }
    if AnyVerifies(c, half, keys, fingerprint, Capped(d)) {
      var s :| s in Capped(d) && HalfVerifies(c, half, keys, fingerprint, s);
      var k :| 0 <= k < |Capped(d)| && Capped(d)[k] == s;
      var i := FirstOffer(half, name, entries, k);
      DistinctIsOffered(half, name, entries[..i]);
    }
  }

  /** The exact condition for acceptance: each half has a verifying entry in reach of the cap. */
  lemma AcceptsExactly(c: Scheme, sigs: seq<Text>, sigPqc: seq<Text>, fingerprint: Text, name: Text, keys: VerifyingKeys)
    ensures Checked(c, sigs, sigPqc, fingerprint, name, keys).Ok? <==>
      && InReach(c, Classical, sigs, fingerprint, name, keys)
      && InReach(c, PostQuantum, sigPqc, fingerprint, name, keys)
  {
    hide HalfVerifies, Distinct, InReach;
    ReachIsCollected(c, Classical, sigs, fingerprint, name, keys);
    ReachIsCollected(c, PostQuantum, sigPqc, fingerprint, name, keys);
  }

  lemma WhoOffered(half: Half, name: Text, entries: seq<Text>, s: Bytes) returns (e: Text)
    requires s in Offered(half, name, entries)
    ensures e in entries && Candidate(half, name, e) == Some(s)
  {
    e :| e in entries && Candidate(half, name, e).Some? && Candidate(half, name, e).value == s;
  }

  /** The linear check never accepts more than the all-pairs definition, and accepts the same
      whenever neither half offers more than 32 different signatures. */
  lemma RefinesAllPairs(c: Scheme, sigs: seq<Text>, sigPqc: seq<Text>, fingerprint: Text, name: Text, keys: VerifyingKeys)
    ensures Checked(c, sigs, sigPqc, fingerprint, name, keys).Ok? ==>
      SomePairVerifies(c, sigs, sigPqc, fingerprint, name, keys)
    ensures
      (&& |Offered(Classical, name, sigs)| <= MAX_SIG_CANDIDATES
       && |Offered(PostQuantum, name, sigPqc)| <= MAX_SIG_CANDIDATES
       && SomePairVerifies(c, sigs, sigPqc, fingerprint, name, keys)) ==>
      Checked(c, sigs, sigPqc, fingerprint, name, keys).Ok?
  {
    var ed, ml := Distinct(Classical, name, sigs), Distinct(PostQuantum, name, sigPqc);
    DistinctIsOffered(Classical, name, sigs);
    DistinctIsOffered(PostQuantum, name, sigPqc);
    hide Candidate, Distinct, VerifyEd25519, VerifyMlDsa;
    if Checked(c, sigs, sigPqc, fingerprint, name, keys).Ok? {
      var a :| a in Capped(ed) && HalfVerifies(c, Classical, keys, fingerprint, a);
      var b :| b in Capped(ml) && HalfVerifies(c, PostQuantum, keys, fingerprint, b);
      var e := WhoOffered(Classical, name, sigs, a);
      var p := WhoOffered(PostQuantum, name, sigPqc, b);
      assert Verify(c, keys, fingerprint, Signature(a, b));
    }
    if SomePairVerifies(c, sigs, sigPqc, fingerprint, name, keys)
      && |ed| <= MAX_SIG_CANDIDATES && |ml| <= MAX_SIG_CANDIDATES
    {
      var e, p :| e in sigs && p in sigPqc
        && Candidate(Classical, name, e).Some? && Candidate(PostQuantum, name, p).Some?
        && Verify(c, keys, fingerprint, Signature(Candidate(Classical, name, e).value, Candidate(PostQuantum, name, p).value));
      var a, b := Candidate(Classical, name, e).value, Candidate(PostQuantum, name, p).value;
      assert a in ed && b in ml;
      assert HalfVerifies(c, Classical, keys, fingerprint, a) && HalfVerifies(c, PostQuantum, keys, fingerprint, b);
    }
  }

  /** Once the cap is reached, nothing that is added comes into reach. */
  lemma ReachBeyondCap(c: Scheme, half: Half, entries: seq<Text>, more: seq<Text>, fingerprint: Text, name: Text, keys: VerifyingKeys)
    requires |Offered(half, name, entries)| >= MAX_SIG_CANDIDATES
    ensures InReach(c, half, entries + more, fingerprint, name, keys) ==> InReach(c, half, entries, fingerprint, name, keys)
  {
    hide Candidate, HalfVerifies, Offered;
    var all := entries + more;
    if InReach(c, half, all, fingerprint, name, keys) {
      var i :| 0 <= i < |all|
        && Candidate(half, name, all[i]).Some?
        && HalfVerifies(c, half, keys, fingerprint, Candidate(half, name, all[i]).value)
        && |Offered(half, name, all[..i])| < MAX_SIG_CANDIDATES;
      if i < |entries| {
        assert all[i] == entries[i] && all[..i] == entries[..i];
      } else {
        OfferedGrows(half, name, entries, all[..i]);
      }
    }
  }

  lemma OfferedGrows(half: Half, name: Text, a: seq<Text>, b: seq<Text>)
    requires a <= b
    ensures |Offered(half, name, a)| <= |Offered(half, name, b)|
  {
    hide Candidate;
    var s, t := Offered(half, name, a), Offered(half, name, b);
    assert s <= t;
    assert |t - s| == |t| - |s|;
  }

  /** Further entries never turn acceptance into rejection. */
  lemma AppendKeepsAcceptance(c: Scheme, sigs: seq<Text>, sigPqc: seq<Text>, fingerprint: Text, name: Text, keys: VerifyingKeys,
                              moreSigs: seq<Text>, morePqc: seq<Text>)
    requires Checked(c, sigs, sigPqc, fingerprint, name, keys).Ok?
    ensures Checked(c, sigs + moreSigs, sigPqc + morePqc, fingerprint, name, keys).Ok?
  {
    hide HalfVerifies, Distinct;
    DistinctGrows(Classical, name, sigs, moreSigs);
    DistinctGrows(PostQuantum, name, sigPqc, morePqc);
    var ed, ed' := Capped(Distinct(Classical, name, sigs)), Capped(Distinct(Classical, name, sigs + moreSigs));
    var ml, ml' := Capped(Distinct(PostQuantum, name, sigPqc)), Capped(Distinct(PostQuantum, name, sigPqc + morePqc));
    assert forall s :: s in ed ==> s in ed';
    assert forall s :: s in ml ==> s in ml';
  }

  lemma OfferedPermuted(half: Half, name: Text, a: seq<Text>, b: seq<Text>)
    requires multiset(a) == multiset(b)
    ensures Offered(half, name, a) == Offered(half, name, b)
  {
    hide Candidate;
    assert forall e :: e in a <==> e in multiset(a);
    assert forall e :: e in b <==> e in multiset(b);
  }

  /** While the cap is not exceeded, the order of the entries plays no role, not even for the
      kind of failure reported. */
  lemma OrderIrrelevant(c: Scheme, sigs: seq<Text>, sigPqc: seq<Text>, sigs': seq<Text>, sigPqc': seq<Text>,
                        fingerprint: Text, name: Text, keys: VerifyingKeys)
    requires multiset(sigs) == multiset(sigs') && multiset(sigPqc) == multiset(sigPqc')
    requires |Offered(Classical, name, sigs)| <= MAX_SIG_CANDIDATES
    requires |Offered(PostQuantum, name, sigPqc)| <= MAX_SIG_CANDIDATES
    ensures Checked(c, sigs, sigPqc, fingerprint, name, keys) == Checked(c, sigs', sigPqc', fingerprint, name, keys)
  {
    OfferedPermuted(Classical, name, sigs, sigs');
    OfferedPermuted(PostQuantum, name, sigPqc, sigPqc');
    DistinctIsOffered(Classical, name, sigs);
    DistinctIsOffered(Classical, name, sigs');
    DistinctIsOffered(PostQuantum, name, sigPqc);
    DistinctIsOffered(PostQuantum, name, sigPqc');
    hide HalfVerifies, Distinct, Offered;
    SameEmptiness(Distinct(Classical, name, sigs), Distinct(Classical, name, sigs'));
    SameEmptiness(Distinct(PostQuantum, name, sigPqc), Distinct(PostQuantum, name, sigPqc'));
  }

  lemma SameEmptiness(a: seq<Bytes>, b: seq<Bytes>)
    requires forall s :: s in a <==> s in b
    ensures a == [] <==> b == []
  {
    assert a != [] ==> a[0] in b;
    assert b != [] ==> b[0] in a;
  }

  // ----- what the cap costs

  function SigEntries(name: Text, sigs: seq<Bytes>): seq<Text> {
    seq(|sigs|, i requires 0 <= i < |sigs| => SigEntry(name, sigs[i]))
  }

  lemma CandidateOfEntry(name: Text, sig: Bytes)
    requires ':' !in name && |sig| == ED25519_SIGNATURE_LEN
    ensures Candidate(Classical, name, SigEntry(name, sig)) == Some(sig)
  {
    SigEntryInverse(SigEntry(name, sig), name, sig);
    assert SigEntry(name, sig)[..|name| + 1] == name + ":";
    hide SigEntry, ParseSigEntry;
  }

  lemma CandidateOfPqcEntry(name: Text, sig: Bytes)
    requires ':' !in name && |sig| == ML_DSA_65_SIGNATURE_LEN
    ensures Candidate(PostQuantum, name, EncodeSigPqc(name, sig)) == Some(sig)
  {
    SigPqcInverse(EncodeSigPqc(name, sig), name, MlDsa65, sig);
    assert EncodeSigPqc(name, sig)[..|name| + 1] == name + ":";
    hide EncodeSigPqc, DecodeSigPqc;
  }

  lemma {:induction false} DistinctOfEntries(name: Text, sigs: seq<Bytes>)
    requires ':' !in name
    requires forall s :: s in sigs ==> |s| == ED25519_SIGNATURE_LEN
    requires forall i, j :: 0 <= i < j < |sigs| ==> sigs[i] != sigs[j]
    ensures Distinct(Classical, name, SigEntries(name, sigs)) == sigs
  {
    hide Candidate, SigEntry;
    if sigs != [] {
      var n := |sigs| - 1;
      DistinctOfEntries(name, sigs[..n]);
      assert SigEntries(name, sigs)[..n] == SigEntries(name, sigs[..n]);
      assert sigs[n] in sigs;
      CandidateOfEntry(name, sigs[n]);
      assert sigs == sigs[..n] + [sigs[n]];
    }
  }

  /** Beyond the cap the two definitions part: any 32 different signatures that do not verify,
      filed in front under the same name, hide a valid one from the check. */
  lemma CapHidesValidPair(c: Scheme, name: Text, keys: VerifyingKeys, fingerprint: Text,
                          decoys: seq<Bytes>, sig: Signature)
    requires ':' !in name && |decoys| == MAX_SIG_CANDIDATES
    requires forall s :: s in decoys ==> |s| == ED25519_SIGNATURE_LEN && !VerifyEd25519(c, keys.ed25519, fingerprint, s)
    requires forall i, j :: 0 <= i < j < |decoys| ==> decoys[i] != decoys[j]
    requires Verify(c, keys, fingerprint, sig)
    ensures var sigs := SigEntries(name, decoys + [sig.ed25519]);
      var sigPqc := [EncodeSigPqc(name, sig.mlDsa)];
      && SomePairVerifies(c, sigs, sigPqc, fingerprint, name, keys)
      && Checked(c, sigs, sigPqc, fingerprint, name, keys) == Err(SigNotVerified)
  {
    VerifyLengths(c, keys, fingerprint, sig);
    CandidateOfPqcEntry(name, sig.mlDsa);
    CandidateOfEntry(name, sig.ed25519);
    CapHidesLast(name, decoys, sig.ed25519);
    hide Candidate, SigEntry, EncodeSigPqc, VerifyEd25519, VerifyMlDsa, Distinct, SigEntries, Capped;
    var e, p := SigEntry(name, sig.ed25519), EncodeSigPqc(name, sig.mlDsa);
    DistinctOfOne(PostQuantum, name, p, sig.mlDsa);
    assert p in [p] && decoys[0] in decoys;
    assert !AnyVerifies(c, Classical, keys, fingerprint, decoys);
  }

  lemma DistinctOfOne(half: Half, name: Text, e: Text, s: Bytes)
    requires Candidate(half, name, e) == Some(s)
    ensures Distinct(half, name, [e]) == [s] && Capped([s]) == [s]
  {
    hide Candidate;
    assert [e][..0] == [];
  }

  lemma CapHidesLast(name: Text, decoys: seq<Bytes>, last: Bytes)
    requires ':' !in name && |decoys| == MAX_SIG_CANDIDATES && last !in decoys && |last| == ED25519_SIGNATURE_LEN
    requires forall s :: s in decoys ==> |s| == ED25519_SIGNATURE_LEN
    requires forall i, j :: 0 <= i < j < |decoys| ==> decoys[i] != decoys[j]
    ensures Capped(Distinct(Classical, name, SigEntries(name, decoys + [last]))) == decoys
    ensures SigEntry(name, last) in SigEntries(name, decoys + [last])
  {
    hide Distinct, SigEntry;
    DistinctOfEntries(name, decoys + [last]);
    assert SigEntries(name, decoys + [last])[|decoys|] == SigEntry(name, last);
  }

  lemma VerifyLengths(c: Scheme, keys: VerifyingKeys, fingerprint: Text, sig: Signature)
    requires Verify(c, keys, fingerprint, sig)
    ensures |sig.ed25519| == ED25519_SIGNATURE_LEN && |sig.mlDsa| == ML_DSA_65_SIGNATURE_LEN
  {
  }

  function Constant(b: Byte, length: nat): Bytes { seq(length, _ => b) }

  /** A toy scheme that accepts the all-zero signature only. */
  const PICKY := Scheme(
    (sk: Bytes) => Constant(0, 32), (sk: Bytes, m: Text, r: nat) => Constant(0, 64),
    (pk: Bytes, m: Text, s: Bytes) => s == Constant(0, 64),
    (sk: Bytes) => Constant(0, 1952), (sk: Bytes, m: Text, r: nat) => Constant(0, 3309),
    (pk: Bytes, m: Text, s: Bytes) => true)

  /** A concrete document on which the check and the all-pairs definition disagree. */
  lemma CapExample()
    ensures var keys := VerifyingKeys(Constant(0, 32), Constant(0, 1952));
      var decoys := seq(32, i requires 0 <= i < 32 => Constant(i + 1, 64));
      var sigs := SigEntries("k", decoys + [Constant(0, 64)]);
      var sigPqc := [EncodeSigPqc("k", Constant(0, 3309))];
      && SomePairVerifies(PICKY, sigs, sigPqc, "m", "k", keys)
      && Checked(PICKY, sigs, sigPqc, "m", "k", keys) == Err(SigNotVerified)
  {
    var decoys: seq<Bytes> := seq(32, i requires 0 <= i < 32 => Constant(i + 1, 64));
    assert Constant(0, 64)[0] == 0;
    forall i | 0 <= i < 32
      ensures decoys[i][0] == i + 1 && |decoys[i]| == 64
    {
    }
    hide Constant, SomePairVerifies, Checked, SigEntries, EncodeSigPqc;
    assert |Constant(0, 64)| == 64 && |Constant(0, 32)| == 32 && |Constant(0, 1952)| == 1952 && |Constant(0, 3309)| == 3309 by {
      ConstantLengths();
    }
    CapHidesValidPair(PICKY, "k", VerifyingKeys(Constant(0, 32), Constant(0, 1952)), "m", decoys,
                      Signature(Constant(0, 64), Constant(0, 3309)));
  }

  lemma ConstantLengths()
    ensures forall b: Byte, n: nat :: |Constant(b, n)| == n
  {
  }
}
