/** `sign`: re-signing every `.narinfo` file of a cache directory, again and again, with one
    key or several. */
module Signing {
  import opened ByteText
  import opened Base64
  import opened NarInfos
  import opened RoundTrip
  import opened Fingerprints
  import opened Hybrid
  import opened Keys
  import opened HybridCheck
  import opened Utf8
  import opened Endorsement

  datatype SignError =
    | BadKey(keyError: KeyError)
    | ReadFailed
    | NotUtf8
    | BadNarinfo(parseError: ParseError)
    | NoStoreDir
    | WriteFailed

  // ----- keeping some entries of a list (`retain`)

  function Filter(es: seq<Text>, keep: Text -> bool): seq<Text> {
    if es == [] then []
    else
      var n := |es| - 1;
      if keep(es[n]) then Filter(es[..n], keep) + [es[n]] else Filter(es[..n], keep)
  }

  /** The entries filed under a name, and those filed under none of some names. */
  function Own(name: Text): Text -> bool {
    (e: Text) => StartsWith(e, name + ":")
  }

  function NotOwn(name: Text): Text -> bool {
    (e: Text) => !StartsWith(e, name + ":")
  }

  function Foreign(names: set<Text>): Text -> bool {
    (e: Text) => forall n :: n in names ==> !StartsWith(e, n + ":")
  }

  lemma {:induction false} FilterFilter(es: seq<Text>, f: Text -> bool, g: Text -> bool, both: Text -> bool)
    requires forall e :: both(e) <==> f(e) && g(e)
    ensures Filter(Filter(es, f), g) == Filter(es, both)
  {
    if es != [] {
      var n := |es| - 1;
      FilterFilter(es[..n], f, g, both);
      var kept := Filter(es[..n], f);
      assert (kept + [es[n]])[..|kept|] == kept;
    }
  }

  lemma FilterPush(es: seq<Text>, e: Text, keep: Text -> bool)
    ensures Filter(es + [e], keep) == if keep(e) then Filter(es, keep) + [e] else Filter(es, keep)
  {
    assert (es + [e])[..|es|] == es;
  }

  lemma {:induction false} FilterNone(es: seq<Text>, keep: Text -> bool)
    requires forall e :: e in es ==> !keep(e)
    ensures Filter(es, keep) == []
  {
    if es != [] {
      assert es[|es| - 1] in es;
      FilterNone(es[..|es| - 1], keep);
    }
  }

  lemma {:induction false} FilterSubset(es: seq<Text>, keep: Text -> bool)
    ensures forall e :: e in Filter(es, keep) ==> e in es && keep(e)
  {
    if es != [] { FilterSubset(es[..|es| - 1], keep); }
  }

  // ----- one document

  /** Drops this name's entries and appends the new one. */
  function Replaced(es: seq<Text>, name: Text, e: Text): seq<Text> {
    Filter(es, NotOwn(name)) + [e]
  }

  function Dropped(info: NarInfo, name: Text): NarInfo {
    info.(sigs := Filter(info.sigs, NotOwn(name)), sigPqc := Filter(info.sigPqc, NotOwn(name)))
  }

  function Resigned(c: Scheme, key: SecretKey, coin: nat, fingerprint: Text, info: NarInfo): NarInfo {
    Endorse(c, key, coin, fingerprint, Dropped(info, key.name))
  }

  function SignText(c: Scheme, key: SecretKey, coin: nat, text: Text): Result<Text, SignError> {
    if !ValidUtf8(text) then Err(NotUtf8)
    else match Parsed(text)
      case Err(e) => Err(BadNarinfo(e))
      case Ok(info) =>
        match FingerprintOf(info)
        case None => Err(NoStoreDir)
        case Some(fingerprint) => Ok(Printed(Resigned(c, key, coin, fingerprint, info)))
  }

  // ----- the directory

  type Path = Text

  datatype Fault = NoFault | EntryFault | WriteFault

  /** One entry the directory scan yields, with the coin used for it and what goes wrong. That a
      failed write leaves the document as it was is `SigningWrites.VisitIsWrite`. */
  datatype Visit = Visit(path: Path, coin: nat, fault: Fault)

  /** `extension() == "narinfo"` on a file name. */
  predicate IsNarinfo(path: Path) { EndsWith(path, ".narinfo") && |path| > 8 }

  function VisitFile(c: Scheme, key: SecretKey, v: Visit, files: map<Path, Text>): Result<map<Path, Text>, SignError> {
    if v.fault == EntryFault then Err(ReadFailed)
    else if !IsNarinfo(v.path) then Ok(files)
    else if v.path !in files then Err(ReadFailed)
    else match SignText(c, key, v.coin, files[v.path])
      case Err(e) => Err(e)
      case Ok(text) => if v.fault == WriteFault then Err(WriteFailed) else Ok(files[v.path := text])
  }

  /** The directory after a run and what the run reports: the number of files signed, or the
      error that ended it. */
  function SignVisits(c: Scheme, key: SecretKey, visits: seq<Visit>, files: map<Path, Text>, count: nat)
    : (map<Path, Text>, Result<nat, SignError>)
  {
    if visits == [] then (files, Ok(count))
    else match VisitFile(c, key, visits[0], files)
      case Err(e) => (files, Err(e))
      case Ok(files') =>
        SignVisits(c, key, visits[1..], files', if IsNarinfo(visits[0].path) then count + 1 else count)
  }

  function SignRun(c: Scheme, keyFile: Text, visits: seq<Visit>, files: map<Path, Text>): (map<Path, Text>, Result<nat, SignError>) {
    match LoadSecret(keyFile)
    case Err(e) => (files, Err(BadKey(e)))
    case Ok(key) => SignVisits(c, key, visits, files, 0)
  }

  class CacheDir {
    var files: map<Path, Text>

    method Sign(c: Scheme, keyFile: Text, visits: seq<Visit>) returns (r: Result<nat, SignError>)
      modifies this
      ensures (files, r) == SignRun(c, keyFile, visits, old(files))
    {
      hide SignText, Parsed, Printed, FingerprintOf, ValidUtf8, IsNarinfo, LoadSecret;
      var loaded := LoadSecret(keyFile);
      if loaded.Err? {
        return Err(BadKey(loaded.error));
      }
      var secret := loaded.value;
      var count := 0;
      assert visits[0..] == visits;
      for i := 0 to |visits|
        invariant SignVisits(c, secret, visits, old(files), 0) == SignVisits(c, secret, visits[i..], files, count)
      {
        var v := visits[i];
        assert visits[i..][0] == v && visits[i..][1..] == visits[i + 1..];
        if v.fault == EntryFault {
          return Err(ReadFailed);
        }
        if !IsNarinfo(v.path) {
          continue;
        }
        if v.path !in files {
          return Err(ReadFailed);
        }
        var signed := SignDocument(c, secret, v.coin, files[v.path]);
        if signed.Err? {
          return Err(signed.error);
        }
        if v.fault == WriteFault {
          return Err(WriteFailed);
        }
        files := files[v.path := signed.value];
        count := count + 1;
      }
      assert visits[|visits|..] == [];
      return Ok(count);
    }

    /** The part of the loop that works on the text of one file. */
    static method SignDocument(c: Scheme, secret: SecretKey, coin: nat, text: Text) returns (r: Result<Text, SignError>)
      ensures r == SignText(c, secret, coin, text)
    {
      hide Parsed, Printed, FingerprintOf, ValidUtf8, NotOwn, Filter;
      if !ValidUtf8(text) {
        return Err(NotUtf8);
      }
      var parsed := Parse(text);
      if parsed.Err? {
        return Err(BadNarinfo(parsed.error));
      }
      var info := parsed.value;
      var fingerprint := Fingerprint(info);
      if fingerprint.None? {
        return Err(NoStoreDir);
      }
      var kept := Retain(info.sigs, NotOwn(secret.name));
      info := info.(sigs := kept);
      kept := Retain(info.sigPqc, NotOwn(secret.name));
      info := info.(sigPqc := kept);
      info := info.(sigs := info.sigs + [NewSig(c, secret, coin, fingerprint.value)]);
      info := info.(sigPqc := info.sigPqc + [NewSigPqc(c, secret, coin, fingerprint.value)]);
      var out := ToText(info);
      return Ok(out);
    }

    static method Retain(es: seq<Text>, keep: Text -> bool) returns (kept: seq<Text>)
      ensures kept == Filter(es, keep)
    {
      kept := [];
      assert es[..0] == [];
      for i := 0 to |es|
        invariant kept == Filter(es[..i], keep)
      {
        assert es[..i + 1][..i] == es[..i];
        if keep(es[i]) {
          kept := kept + [es[i]];
        }
      }
      assert es[..|es|] == es;
    }
  }

  // ----- what replacing does to the entries of each name

  lemma NamesExclude(e: Text, a: Text, b: Text)
    requires ':' !in a && ':' !in b && StartsWith(e, a + ":") && StartsWith(e, b + ":")
    ensures a == b
  {
    PrefixIsName(e, a);
    PrefixIsName(e, b);
  }

  lemma EntryIsOwn(name: Text, bytes: Bytes)
    ensures StartsWith(SigEntry(name, bytes), name + ":")
  {
    hide Encode;
    assert SigEntry(name, bytes)[..|name| + 1] == name + ":";
  }

  /** The signer's name gets exactly the new entry. */
  lemma ReplacedOwn(es: seq<Text>, name: Text, e: Text)
    requires StartsWith(e, name + ":")
    ensures Filter(Replaced(es, name, e), Own(name)) == [e]
  {
    hide StartsWith;
    var kept := Filter(es, NotOwn(name));
    FilterSubset(es, NotOwn(name));
    FilterNone(kept, Own(name));
    FilterPush(kept, e, Own(name));
  }

  /** Every other name keeps its entries as they were. */
  lemma ReplacedOther(es: seq<Text>, name: Text, e: Text, other: Text)
    requires ':' !in name && ':' !in other && name != other && StartsWith(e, name + ":")
    ensures Filter(Replaced(es, name, e), Own(other)) == Filter(es, Own(other))
  {
    forall x | StartsWith(x, other + ":")
      ensures !StartsWith(x, name + ":")
    {
      if StartsWith(x, name + ":") { NamesExclude(x, name, other); }
    }
    hide StartsWith;
    FilterFilter(es, NotOwn(name), Own(other), Own(other));
    FilterPush(Filter(es, NotOwn(name)), e, Own(other));
  }

  /** Entries of names outside a set that holds the signer's are not touched. */
  lemma ReplacedForeign(es: seq<Text>, name: Text, e: Text, names: set<Text>)
    requires name in names && StartsWith(e, name + ":")
    ensures Filter(Replaced(es, name, e), Foreign(names)) == Filter(es, Foreign(names))
  {
    hide StartsWith;
    FilterFilter(es, NotOwn(name), Foreign(names), Foreign(names));
    FilterPush(Filter(es, NotOwn(name)), e, Foreign(names));
  }

  lemma ForeignMore(es: seq<Text>, names: set<Text>, name: Text)
    ensures Filter(es, Foreign(names + {name})) == Filter(Filter(es, Foreign(names)), NotOwn(name))
  {
    hide StartsWith;
    FilterFilter(es, Foreign(names), NotOwn(name), Foreign(names + {name}));
  }

  /** Candidates come from the own entries only. */
  lemma {:induction false} DistinctOfOwn(half: Half, name: Text, es: seq<Text>)
    ensures Distinct(half, name, es) == Distinct(half, name, Filter(es, Own(name)))
  {
    if es != [] {
      var n := |es| - 1;
      DistinctOfOwn(half, name, es[..n]);
      if !Own(name)(es[n]) {
        assert Candidate(half, name, es[n]).None?;
      }
      hide Candidate;
      var kept := Filter(es[..n], Own(name));
      assert (kept + [es[n]])[..|kept|] == kept;
    }
  }

  // ----- one signing

  lemma DroppedWellFormed(info: NarInfo, name: Text)
    requires WellFormed(info)
    ensures WellFormed(Dropped(info, name))
  {
    FilterSubset(info.sigs, NotOwn(name));
    FilterSubset(info.sigPqc, NotOwn(name));
    hide Filter, LineEnd, RefsOk, ExtraOk, OptionalLineEnd;
  }

  lemma ResignedFingerprint(c: Scheme, key: SecretKey, coin: nat, fingerprint: Text, info: NarInfo)
    ensures FingerprintOf(Resigned(c, key, coin, fingerprint, info)) == FingerprintOf(info)
  {
    hide FindLast, Sorted, Qualified, Join, Filter;
  }

  /** A signed document reads as the record it was printed from. */
  lemma SignedIsRead(c: Scheme, key: SecretKey, coin: nat, text: Text)
    requires ValidKeyName(key.name) && SignText(c, key, coin, text).Ok?
    ensures ValidUtf8(text) && Parsed(text).Ok? && FingerprintOf(Parsed(text).value).Some?
    ensures var info, fingerprint := Parsed(text).value, FingerprintOf(Parsed(text).value).value;
      var out := Resigned(c, key, coin, fingerprint, info);
      && SignText(c, key, coin, text).value == Printed(out)
      && Parsed(Printed(out)) == Ok(out)
      && FingerprintOf(out) == Some(fingerprint)
  {
    hide ValidUtf8, Parsed, Printed, FingerprintOf, WellFormed, Endorse, Dropped;
    ParsedWellFormed(text);
    var info := Parsed(text).value;
    DroppedWellFormed(info, key.name);
    EndorseWellFormed(c, key, coin, FingerprintOf(info).value, Dropped(info, key.name));
    PrintThenParse(Resigned(c, key, coin, FingerprintOf(info).value, info));
    ResignedFingerprint(c, key, coin, FingerprintOf(info).value, info);
  }

  lemma ResignedValidUtf8(c: Scheme, key: SecretKey, coin: nat, fingerprint: Text, info: NarInfo)
    requires ValidKeyName(key.name) && ValidInfo(info)
    ensures ValidInfo(Resigned(c, key, coin, fingerprint, info))
  {
    FilterSubset(info.sigs, NotOwn(key.name));
    FilterSubset(info.sigPqc, NotOwn(key.name));
    var sig := Sign(c, key.signer, fingerprint, coin);
    EntryValidUtf8(key.name, sig.ed25519);
    EntryValidUtf8(key.name, [ML_DSA_65_TAG] + sig.mlDsa);
    hide ValidUtf8, ValidEntry, Filter, SigEntry, Sign;
  }

  /** Whatever has been signed can be signed again by anyone. */
  lemma SignedIsSignable(c: Scheme, key: SecretKey, coin: nat, text: Text, key': SecretKey, coin': nat)
    requires ValidKeyName(key.name) && SignText(c, key, coin, text).Ok?
    ensures SignText(c, key', coin', SignText(c, key, coin, text).value).Ok?
  {
    SignedIsRead(c, key, coin, text);
    ParsedValid(text);
    var info := Parsed(text).value;
    var fingerprint := FingerprintOf(info).value;
    ResignedValidUtf8(c, key, coin, fingerprint, info);
    PrintedValid(Resigned(c, key, coin, fingerprint, info));
    hide ValidUtf8, Parsed, Printed, FingerprintOf, Resigned, ValidInfo;
  }

  lemma DropTwice(es: seq<Text>, name: Text, e: Text)
    requires StartsWith(e, name + ":")
    ensures Filter(Replaced(es, name, e), NotOwn(name)) == Filter(es, NotOwn(name))
  {
    hide StartsWith;
    FilterFilter(es, NotOwn(name), NotOwn(name), NotOwn(name));
    FilterPush(Filter(es, NotOwn(name)), e, NotOwn(name));
  }

  /** Signing twice with one key is signing once with the second coin: nothing accumulates. */
  lemma SignAgainReplaces(c: Scheme, key: SecretKey, coin: nat, coin': nat, text: Text)
    requires ValidKeyName(key.name) && SignText(c, key, coin, text).Ok?
    ensures SignText(c, key, coin', SignText(c, key, coin, text).value) == SignText(c, key, coin', text)
  {
    SignedIsRead(c, key, coin, text);
    SignedIsSignable(c, key, coin, text, key, coin');
    var info := Parsed(text).value;
    var fingerprint := FingerprintOf(info).value;
    var once := Resigned(c, key, coin, fingerprint, info);
    var sig := Sign(c, key.signer, fingerprint, coin);
    EntryIsOwn(key.name, sig.ed25519);
    EntryIsOwn(key.name, [ML_DSA_65_TAG] + sig.mlDsa);
    DropTwice(info.sigs, key.name, NewSig(c, key, coin, fingerprint));
    DropTwice(info.sigPqc, key.name, NewSigPqc(c, key, coin, fingerprint));
    hide ValidUtf8, Parsed, Printed, FingerprintOf, Filter, NewSig, NewSigPqc;
    assert Dropped(once, key.name) == Dropped(info, key.name);
  }
}
