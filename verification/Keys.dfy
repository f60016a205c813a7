/** Key names, signature entries and the text forms of keys. */
module Keys {
  import opened ByteText
  import opened Base64
  import opened Hybrid
  import opened Utf8

  // ----- key names

  const MAX_NAME: nat := 128

  predicate NameChar(c: char) {
    'a' <= c <= 'z' || 'A' <= c <= 'Z' || '0' <= c <= '9' || c == '.' || c == '_' || c == '-'
  }

  predicate ValidKeyName(name: Text) {
    && name != ""
    && |name| <= MAX_NAME
    && name != "." && name != ".."
    && forall c :: c in name ==> NameChar(c)
  }

  lemma ValidNamePlain(name: Text)
    requires ValidKeyName(name)
    ensures ':' !in name && LineEnd(name)
  {
    assert !NameChar(':') && !NameChar('\n') && !NameChar('\r');
  }

  // ----- signature entries

  /** `name:base64`, split at the first colon. */
  function ParseSigEntry(entry: Text): Option<(Text, Bytes)> {
    match SplitOnce(entry, ':')
    case None => None
    case Some((name, b64)) =>
      match Decode(b64)
      case None => None
      case Some(bytes) => Some((name, bytes))
  }

  function SigEntry(name: Text, bytes: Bytes): Text { name + ":" + Encode(bytes) }

  /** An entry is read as `(name, bytes)` exactly when it is the one spelling of that pair. */
  lemma SigEntryInverse(entry: Text, name: Text, bytes: Bytes)
    ensures ParseSigEntry(entry) == Some((name, bytes)) <==> entry == SigEntry(name, bytes) && ':' !in name
  {
    hide Encode, Decode;
    if entry == SigEntry(name, bytes) && ':' !in name {
      SplitOnceAt(name, ':', Encode(bytes));
      DecodeEncode(bytes);
    }
    if ParseSigEntry(entry) == Some((name, bytes)) {
      EncodeDecode(SplitOnce(entry, ':').value.1);
    }
  }

  /** For a name without a colon the prefix test picks out exactly the entries of that name. */
  lemma PrefixIsName(entry: Text, name: Text)
    requires ':' !in name
    ensures StartsWith(entry, name + ":") <==> SplitOnce(entry, ':').Some? && SplitOnce(entry, ':').value.0 == name
  {
    if StartsWith(entry, name + ":") {
      var rest := entry[|name| + 1..];
      assert entry[..|name| + 1] == name + ":" && entry == entry[..|name| + 1] + rest;
      assert entry == name + [':'] + rest;
      SplitOnceAt(name, ':', rest);
    }
  }

  datatype Algorithm = MlDsa65

  const ML_DSA_65_TAG: Byte := 1

  function FromTag(tag: Byte): Option<Algorithm> {
    if tag == ML_DSA_65_TAG then Some(MlDsa65) else None
  }

  function EncodeSigPqc(name: Text, sig: Bytes): Text {
    SigEntry(name, [ML_DSA_65_TAG] + sig)
  }

  function DecodeSigPqc(entry: Text): Option<(Text, Algorithm, Bytes)> {
    match ParseSigEntry(entry)
    case None => None
    case Some((name, bytes)) =>
      if bytes == [] then None
      else match FromTag(bytes[0])
        case None => None
        case Some(algorithm) =>
          if |bytes[1..]| != ML_DSA_65_SIGNATURE_LEN then None
          else Some((name, algorithm, bytes[1..]))
  }

  /** The `Sig-PQC` codec in both directions. */
  lemma SigPqcInverse(entry: Text, name: Text, algorithm: Algorithm, sig: Bytes)
    ensures DecodeSigPqc(entry) == Some((name, algorithm, sig)) <==>
      entry == EncodeSigPqc(name, sig) && ':' !in name && |sig| == ML_DSA_65_SIGNATURE_LEN
  {
    hide ParseSigEntry, SigEntry;
    var tagged := [ML_DSA_65_TAG] + sig;
    assert tagged[1..] == sig;
    SigEntryInverse(entry, name, tagged);
    if DecodeSigPqc(entry) == Some((name, algorithm, sig)) {
      var bytes := ParseSigEntry(entry).value.1;
      assert bytes == [bytes[0]] + bytes[1..];
    }
  }

  lemma SigEntryLineEnd(name: Text, bytes: Bytes)
    requires '\n' !in name
    ensures LineEnd(SigEntry(name, bytes))
  {
    hide Encode;
    EncodeSymbols(bytes);
    var e, s := Encode(bytes), SigEntry(name, bytes);
    assert !IsSymbol('\n') && !IsSymbol('\r');
    assert s[|s| - 1] == if e == "" then ':' else e[|e| - 1];
    assert e != "" ==> e[|e| - 1] in e;
  }

  /** One classical entry against one configured key; the name is compared before anything is
      decoded from the key. */
  predicate VerifySigEntry(c: Scheme, fingerprint: Text, entry: Text, expected: Option<Text>, pubkey: Text) {
    match ParseSigEntry(entry)
    case None => false
    case Some((name, sig)) =>
      && (expected.Some? ==> name == expected.value)
      && |sig| == ED25519_SIGNATURE_LEN
      && Decode(pubkey).Some?
      && |Decode(pubkey).value| == ED25519_PUBLIC_KEY_LEN
      && c.edVerify(Decode(pubkey).value, fingerprint, sig)
  }

  /** The entry must be the one spelling of a pair, and the key text the one spelling of a key. */
  lemma VerifySigEntryExact(c: Scheme, fingerprint: Text, entry: Text, expected: Option<Text>, pubkey: Text)
    ensures VerifySigEntry(c, fingerprint, entry, expected, pubkey) <==>
      exists name: Text, sig: Bytes, pk: Bytes ::
        && entry == SigEntry(name, sig) && ':' !in name && (expected.Some? ==> name == expected.value)
        && pubkey == Encode(pk) && VerifyEd25519(c, pk, fingerprint, sig)
  {
    hide SigEntry, ParseSigEntry, Encode, Decode;
    if VerifySigEntry(c, fingerprint, entry, expected, pubkey) {
      var (name, sig) := ParseSigEntry(entry).value;
      SigEntryInverse(entry, name, sig);
      EncodeDecode(pubkey);
      assert VerifyEd25519(c, Decode(pubkey).value, fingerprint, sig);
    }
    forall name: Text, sig: Bytes, pk: Bytes |
        && entry == SigEntry(name, sig) && ':' !in name && (expected.Some? ==> name == expected.value)
        && pubkey == Encode(pk) && VerifyEd25519(c, pk, fingerprint, sig)
      ensures VerifySigEntry(c, fingerprint, entry, expected, pubkey)
    {
      SigEntryInverse(entry, name, sig);
      DecodeEncode(pk);
    }
  }

  function ParseNamedPubkey(s: Text): (Option<Text>, Text) {
    match SplitOnce(s, ':')
    case Some((name, key)) => (Some(name), key)
    case None => (None, s)
  }

  // ----- key files

  datatype SecretKey = SecretKey(name: Text, signer: Signer)

  datatype PublicKey = PublicKey(name: Text, keys: VerifyingKeys)

  datatype KeyError = Unreadable | EmptyFile | BadName | MissingLine | BadPrefix | BadBase64 | BadLength

  function PublicOf(c: Scheme, k: SecretKey): PublicKey {
    PublicKey(k.name, Public(c, k.signer))
  }

  function SecretText(k: SecretKey): Text {
    k.name + "\n" + Encode(ToBytes(k.signer)) + "\n"
  }

  function LoadSecret(text: Text): Result<SecretKey, KeyError> {
    var lines := Lines(text);
    if !ValidUtf8(text) then Err(Unreadable)
    else if |lines| == 0 then Err(EmptyFile)
    else if !ValidKeyName(lines[0]) then Err(BadName)
    else if |lines| == 1 then Err(MissingLine)
    else match Decode(lines[1])
      case None => Err(BadBase64)
      case Some(bytes) =>
        match FromBytes(bytes)
        case None => Err(BadLength)
        case Some(signer) => Ok(SecretKey(lines[0], signer))
  }

  const ED_PREFIX := "ed25519:"
  const ML_PREFIX := "ml-dsa-65:"

  function PublicText(k: PublicKey): Text {
    k.name + "\n" + (ED_PREFIX + Encode(k.keys.ed25519)) + "\n" + (ML_PREFIX + Encode(k.keys.mlDsa)) + "\n"
  }

  function LoadPublic(text: Text): Result<PublicKey, KeyError> {
    var lines := Lines(text);
    if !ValidUtf8(text) then Err(Unreadable)
    else if |lines| == 0 then Err(EmptyFile)
    else if !ValidKeyName(lines[0]) then Err(BadName)
    else if |lines| < 3 then Err(MissingLine)
    else if !StartsWith(lines[1], ED_PREFIX) || !StartsWith(lines[2], ML_PREFIX) then Err(BadPrefix)
    else
      var ed, ml := Decode(lines[1][|ED_PREFIX|..]), Decode(lines[2][|ML_PREFIX|..]);
      if ed.None? then Err(BadBase64)
      else if |ed.value| != ED25519_PUBLIC_KEY_LEN then Err(BadLength)
      else if ml.None? then Err(BadBase64)
      else if |ml.value| != ML_DSA_65_PUBLIC_KEY_LEN then Err(BadLength)
      else Ok(PublicKey(lines[0], VerifyingKeys(ed.value, ml.value)))
  }

  lemma EncodedLineEnd(prefix: Text, bytes: Bytes)
    requires LineEnd(prefix)
    ensures LineEnd(prefix + Encode(bytes))
  {
    hide Encode;
    EncodeSymbols(bytes);
    var e, s := Encode(bytes), prefix + Encode(bytes);
    assert !IsSymbol('\n') && !IsSymbol('\r');
    assert s != "" ==> s[|s| - 1] == if e == "" then prefix[|prefix| - 1] else e[|e| - 1];
    assert e != "" ==> e[|e| - 1] in e;
  }

  lemma NameValidUtf8(name: Text)
    requires ValidKeyName(name)
    ensures ValidUtf8(name)
  {
    AsciiValid(name);
  }

  lemma EncodeValidUtf8(prefix: Text, bytes: Bytes)
    requires forall c :: c in prefix ==> c as int < 0x80
    ensures ValidUtf8(prefix + Encode(bytes))
  {
    EncodeSymbols(bytes);
    hide Encode;
    AsciiValid(prefix + Encode(bytes));
  }

  lemma EntryValidUtf8(name: Text, bytes: Bytes)
    requires ValidKeyName(name)
    ensures ValidUtf8(SigEntry(name, bytes))
  {
    hide Encode, ValidUtf8;
    NameValidUtf8(name);
    EncodeValidUtf8(":", bytes);
    ValidConcat(name, ":" + Encode(bytes));
    assert name + (":" + Encode(bytes)) == SigEntry(name, bytes);
  }

  /** A secret key file is accepted for its first two lines alone, which must be a valid name
      and the one spelling of 64 secret bytes. */
  lemma LoadSecretExact(text: Text, k: SecretKey)
    ensures LoadSecret(text) == Ok(k) <==>
      && ValidUtf8(text) && |Lines(text)| >= 2 && Lines(text)[0] == k.name && ValidKeyName(k.name)
      && |k.signer.ed| == 32 && |k.signer.ml| == 32 && Lines(text)[1] == Encode(k.signer.ed + k.signer.ml)
  {
    assert ToBytes(k.signer) == k.signer.ed + k.signer.ml;
    hide Encode, Decode, Lines, FromBytes, ToBytes, ValidKeyName, ValidUtf8;
    var lines := Lines(text);
    if LoadSecret(text) == Ok(k) {
      EncodeDecode(lines[1]);
      FromBytesInverse(Decode(lines[1]).value, k.signer);
    }
    if |lines| >= 2 && k.signer.Valid() && lines[1] == Encode(ToBytes(k.signer)) {
      DecodeEncode(ToBytes(k.signer));
      FromBytesInverse(ToBytes(k.signer), k.signer);
    }
  }

  /** The same for a public key file and its first three lines. */
  lemma LoadPublicExact(text: Text, k: PublicKey)
    ensures LoadPublic(text) == Ok(k) <==>
      && ValidUtf8(text) && |Lines(text)| >= 3 && Lines(text)[0] == k.name && ValidKeyName(k.name)
      && |k.keys.ed25519| == 32 && Lines(text)[1] == "ed25519:" + Encode(k.keys.ed25519)
      && |k.keys.mlDsa| == 1952 && Lines(text)[2] == "ml-dsa-65:" + Encode(k.keys.mlDsa)
  {
    hide Encode, Decode, Lines, ValidKeyName, ValidUtf8;
    var lines := Lines(text);
    if LoadPublic(text) == Ok(k) {
      EncodeDecode(lines[1][|ED_PREFIX|..]);
      EncodeDecode(lines[2][|ML_PREFIX|..]);
      assert lines[1] == lines[1][..|ED_PREFIX|] + lines[1][|ED_PREFIX|..];
      assert lines[2] == lines[2][..|ML_PREFIX|] + lines[2][|ML_PREFIX|..];
    }
    if |lines| >= 3 && lines[1] == ED_PREFIX + Encode(k.keys.ed25519) && lines[2] == ML_PREFIX + Encode(k.keys.mlDsa) {
      assert lines[1][|ED_PREFIX|..] == Encode(k.keys.ed25519) && lines[2][|ML_PREFIX|..] == Encode(k.keys.mlDsa);
      assert lines[1][..|ED_PREFIX|] == ED_PREFIX && lines[2][..|ML_PREFIX|] == ML_PREFIX;
      DecodeEncode(k.keys.ed25519);
      DecodeEncode(k.keys.mlDsa);
    }
  }

  /** What is wrong with a secret key file: the first of these that applies. */
  lemma SecretErrors(text: Text)
    ensures var r, lines := LoadSecret(text), Lines(text);
      && (r == Err(Unreadable) <==> !ValidUtf8(text))
      && (r == Err(EmptyFile) <==> ValidUtf8(text) && text == "")
      && (r == Err(BadName) <==> ValidUtf8(text) && text != "" && !ValidKeyName(lines[0]))
      && (r == Err(MissingLine) <==> ValidUtf8(text) && |lines| == 1 && ValidKeyName(lines[0]))
      && (r == Err(BadBase64) <==> ValidUtf8(text) && |lines| >= 2 && ValidKeyName(lines[0]) && forall b :: lines[1] != Encode(b))
      && (r == Err(BadLength) <==>
          ValidUtf8(text) && |lines| >= 2 && ValidKeyName(lines[0]) && exists b :: lines[1] == Encode(b) && |b| != 64)
  {
    hide Encode, Decode, Lines, ValidKeyName, ValidUtf8;
    NoLines(text);
    if |Lines(text)| >= 2 { Decodes(Lines(text)[1]); }
  }

  lemma NoLines(text: Text)
    ensures Lines(text) == [] <==> text == ""
  {
  }

  lemma Decodes(s: Text)
    ensures Decode(s).None? <==> forall b :: s != Encode(b)
    ensures forall b :: s == Encode(b) ==> Decode(s) == Some(b)
  {
    hide Encode, Decode;
    if Decode(s).Some? { EncodeDecode(s); }
    forall b | s == Encode(b)
      ensures Decode(s) == Some(b)
    {
      DecodeEncode(b);
    }
  }

  /** What is wrong with the lines of a public key file, in the order of the tests. */
  lemma PublicErrors(text: Text)
    ensures var r, lines := LoadPublic(text), Lines(text);
      && (r == Err(Unreadable) <==> !ValidUtf8(text))
      && (r == Err(EmptyFile) <==> ValidUtf8(text) && text == "")
      && (r == Err(BadName) <==> ValidUtf8(text) && text != "" && !ValidKeyName(lines[0]))
      && (r == Err(MissingLine) <==> ValidUtf8(text) && 1 <= |lines| <= 2 && ValidKeyName(lines[0]))
      && (r == Err(BadPrefix) <==>
          ValidUtf8(text) && |lines| >= 3 && ValidKeyName(lines[0]) && !("ed25519:" <= lines[1] && "ml-dsa-65:" <= lines[2]))
      && (r == Err(BadBase64) <==>
          && ValidUtf8(text) && |lines| >= 3 && ValidKeyName(lines[0]) && "ed25519:" <= lines[1] && "ml-dsa-65:" <= lines[2]
          && (Undecodable("ed25519:", lines[1])
              || (Undecodable("ml-dsa-65:", lines[2]) && exists b: Bytes :: |b| == 32 && lines[1] == "ed25519:" + Encode(b))))
  {
    hide Encode, Decode, Lines, ValidKeyName, ValidUtf8, Undecodable;
    NoLines(text);
    var lines := Lines(text);
    if |lines| >= 3 && ED_PREFIX <= lines[1] && ML_PREFIX <= lines[2] {
      Behind(ED_PREFIX, lines[1]);
      Behind(ML_PREFIX, lines[2]);
    }
  }

  /** The line is not this prefix with the spelling of some bytes behind it. */
  ghost predicate Undecodable(prefix: Text, line: Text) { forall b: Bytes :: line != prefix + Encode(b) }

  lemma Behind(prefix: Text, line: Text)
    requires prefix <= line
    ensures Undecodable(prefix, line) <==> Decode(line[|prefix|..]).None?
    ensures forall b: Bytes :: line == prefix + Encode(b) <==> Decode(line[|prefix|..]) == Some(b)
  {
    hide Encode, Decode;
    var rest := line[|prefix|..];
    Decodes(rest);
    assert line == prefix + rest;
    forall b: Bytes
      ensures line == prefix + Encode(b) <==> Decode(rest) == Some(b)
    {
      if line == prefix + Encode(b) { assert rest == Encode(b); }
      if Decode(rest) == Some(b) { EncodeDecode(rest); }
    }
  }

  /** A secret key survives its file exactly when its name is valid: saving checks nothing,
      loading does. */
  lemma SecretFileRoundTrip(k: SecretKey)
    requires k.signer.Valid()
    ensures LoadSecret(SecretText(k)) == Ok(k) <==> ValidKeyName(k.name)
  {
    hide Encode, Decode, Lines, FromBytes, ToBytes, ValidUtf8;
    if ValidKeyName(k.name) {
      NameValidUtf8(k.name);
      EncodeValidUtf8("", ToBytes(k.signer));
      var b64 := Encode(ToBytes(k.signer));
      var lines := [k.name, b64];
      ValidNamePlain(k.name);
      EncodedLineEnd("", ToBytes(k.signer));
      assert "" + b64 == b64;
      assert Unlines([]) == "" && lines[1..] == [b64] && lines[1..][1..] == [];
      assert Unlines([b64]) == b64 + "\n" + Unlines([]);
      assert Unlines(lines) == k.name + "\n" + (b64 + "\n" + "") == SecretText(k);
      UnlinesValid(lines);
      LinesUnlines(lines);
      DecodeEncode(ToBytes(k.signer));
      FromBytesInverse(ToBytes(k.signer), k.signer);
    }
  }

  lemma PublicFileRoundTrip(k: PublicKey)
    requires |k.keys.ed25519| == ED25519_PUBLIC_KEY_LEN && |k.keys.mlDsa| == ML_DSA_65_PUBLIC_KEY_LEN
    ensures LoadPublic(PublicText(k)) == Ok(k) <==> ValidKeyName(k.name)
  {
    hide Encode, Decode, Lines, ValidUtf8;
    if ValidKeyName(k.name) {
      NameValidUtf8(k.name);
      EncodeValidUtf8(ED_PREFIX, k.keys.ed25519);
      EncodeValidUtf8(ML_PREFIX, k.keys.mlDsa);
      var ed, ml := ED_PREFIX + Encode(k.keys.ed25519), ML_PREFIX + Encode(k.keys.mlDsa);
      var lines := [k.name, ed, ml];
      ValidNamePlain(k.name);
      EncodedLineEnd(ED_PREFIX, k.keys.ed25519);
      EncodedLineEnd(ML_PREFIX, k.keys.mlDsa);
      assert Unlines([]) == "" && lines[1..] == [ed, ml] && [ed, ml][1..] == [ml] && [ml][1..] == [];
      assert Unlines([ml]) == ml + "\n" + Unlines([]);
      assert Unlines([ed, ml]) == ed + "\n" + Unlines([ml]);
      assert Unlines(lines) == k.name + "\n" + (ed + "\n" + (ml + "\n" + "")) == PublicText(k);
      UnlinesValid(lines);
      LinesUnlines(lines);
      assert ed[|ED_PREFIX|..] == Encode(k.keys.ed25519) && ml[|ML_PREFIX|..] == Encode(k.keys.mlDsa);
      assert ed[..|ED_PREFIX|] == ED_PREFIX && ml[..|ML_PREFIX|] == ML_PREFIX;
      DecodeEncode(k.keys.ed25519);
      DecodeEncode(k.keys.mlDsa);
    }
  }
}
