# Signed narinfo documents

This project models how `nix-pqc-cache-proxy` treats a Nix `.narinfo` document: text is read into
a record, the record yields a fingerprint, the fingerprint is signed with Ed25519 and ML-DSA-65,
both signatures are filed in the document under the signer's name, and other people decide from
the document whether to trust it. It proves properties of that pipeline over all documents, all
sequences of signing runs, all chains of proxies and all interleavings of file writers.

Text is kept as the sequence of its bytes, one `char` per byte, so lengths count bytes and order
is byte order; bodies and files must be well-formed UTF-8 before they are read as text. Raw
signatures and keys are sequences of numbers below 256. Base64 is defined concretely (section 4
of RFC 4648, padding required, trailing bits zero), and so are UTF-8 (section 4 of RFC 3629) and
u64 decimal numbers. The two signature schemes are a parameter, `Hybrid.Scheme`; signing takes a
coin, so nothing assumes that it is deterministic. `Hybrid.Correct` is the only hypothesis about
them: a fresh signature verifies under its own key, and keys and signatures have their fixed
lengths (section 4 of FIPS 204 for ML-DSA-65). Nothing is claimed about forgery.

Code that loops or updates state in the source is a method with loops, proved against a function;
the promises are lemmas about the functions. Lemmas whose names end in `Exactly` say what a function
does in literal bytes and numbers, without its own vocabulary. `Parsed`, the specification of `Parse`, is not the
line loop again but a description field by field: single-valued fields take their last value,
lists take all of theirs.

## Layout

| file | what it holds |
|---|---|
| `ByteText.dfy`, `Decimal.dfy`, `Base64.dfy`, `Utf8.dfy` | text, numbers and encodings as the program's libraries provide them |
| `NarInfos.dfy`, `RoundTrip.dfy`, `LineOrder.dfy`, `Documents.dfy` | reading and printing a document |
| `Fingerprints.dfy`, `Twins.dfy` | sorting, the text that is signed, and what it cannot tell apart |
| `Hybrid.dfy`, `Keys.dfy`, `HybridCheck.dfy` | the hybrid construction, signature entries and key files, `verify_hybrid` |
| `Endorsement.dfy`, `Acceptance.dfy` | adding a pair of signatures, shared by `sign` and the proxy; and when signatures are accepted, in terms of entries and bytes |
| `Proxy.dfy`, `ProxyChain.dfy`, `Serving.dfy` | one hop, and hops in a row |
| `Signing.dfy`, `SigningSteps.dfy`, `SigningRuns.dfy`, `Verifying.dfy`, `Verdicts.dfy` | the `sign` and `verify` commands over directories and runs |
| `EndToEnd.dfy` | documents that are signed, served by proxies and verified |
| `AtomicWrite.dfy`, `WriteRuns.dfy`, `SigningWrites.dfy` | replacing a file through a temporary one, with concurrent processes, and signing on top of it |

## Main results

- `RoundTrip.PrintThenParse` and `Utf8.DocumentExactly`: printing loses nothing, and the
  records for which this holds are exactly the ones reading can produce.
- `LineOrder.ReadingByField`: only the order of lines within a field matters; and
  `Documents.LineMeans`: what each line does to the record.
- `Fingerprints.FingerprintCanonical` and `Twins.DocumentTwinExactly`: equal fingerprints mean
  equal path, hash, size and multiset of references, as long as nothing inside a field can be
  taken for a separator; and which documents have a twin with other references when it can.
- `Acceptance.AcceptedExactly` and `HybridCheck.RefinesAllPairs`: when the linear check accepts,
  exactly, in terms of the entries and the two signature schemes; and how it relates to trying all
  pairs. `Verdicts.SucceedsExactly` and `Serving.ServesExactly` say the same of `verify`, for every
  combination of its arguments, and of a proxy hop.
- `ProxyChain.ChainPreservesOrigin`, `ProxyChain.AtMostFifteenHops` and
  `Serving.FifteenHopsOccur`: what a chain of proxies preserves and how long it can be.
- `SigningRuns.RunsKeepEveryFile`, `SigningRuns.CompletedExactly` and `Verifying.SignThenVerify`:
  the state of every file after any sequence of runs, completed or aborted; when a run completes;
  and that what it signed with a saved key verifies.
- `EndToEnd.ChainKeepsVerdict` and `EndToEnd.SignChainVerify`: what passes verification passes it
  behind any chain of proxies, with one exception.
- `AtomicWrite.RunsAreAtomic`, `WriteRuns.AtomicExactly` and `WriteRuns.WholeExactly`: every
  interleaving of writers, failures and crashes is, for readers, a sequence of atomic writes, one
  for each call that reports success, if and only if no three calls with something to write share
  target and process id.

## Where the code does less than its documentation says

- "[S]ucceeds if any pairing verifies" (`src/keys.rs:306-312`) holds up to 32 different signatures
  per half; beyond that a valid pair can be hidden. `AcceptsExactly` has the exact condition,
  `CapHidesValidPair` the family of failing documents and `CapExample` one of them.
- The policy table of the RFC (`rfc/0000-hybrid-binary-cache-signatures.md:218-226`), read with the
  RFC's rule of pairing lines of one name (lines 215-217), trusts more than the command.
  `RfcDifference` gives the three families in which they differ and that there is no fourth: a
  hybrid signature that is not required is present but invalid; one that is not required is
  missing under the key's name while the document has a `Sig-PQC` line of another name (the
  command asks whether there is any such line at all); a valid pair is hidden by the cap.
  `ForeignPqcRefused` and `OtherNameRefused` are inputs of the first two, `CapRefused` of the
  third.
- The references are joined by commas without escaping, so documents with different references
  can be signed by one text. `Twins.DocumentTwinExactly` says which have such a twin: if the store
  directory holds a space none, since a space cannot occur in a reference; if not, those with two
  or more references, whose twin has a single reference that spells them all, and those with a
  single reference that holds a comma followed by the store directory and a slash, with the two
  parts in order. (`Twins.TwinExactly` is the same for records built in memory, where the space
  makes no difference.) Among records without such references, without semicolons in path and
  hash and without a comma in the store directory, fingerprints are faithful
  (`FingerprintCanonical`).
- With duplicate references the fingerprint is not Nix's set-based form (`AgreesWithNixSet`: it is
  exactly if there are none).

- "[A] reader never observes a partially-written file" (`src/keys.rs:200-202`) holds for calls of
  different processes and for two overlapping calls of one, not for three that overlap on one
  target: the second fails and deletes the first one's temporary file, the third creates it
  again, the first renames what the third has written so far (`WriteRuns.Tear`).
  `WriteRuns.WholeUnlessCrowded` is the exact condition for calls that write something,
  `WriteRuns.WholeExactly` for all.
- A document that passes `verify` can be refused behind a proxy: when it had no `Sig-PQC` line and
  a hybrid key was given without being required, the line the proxy adds turns the absence into a
  failure (`EndToEnd.ChainKeepsVerdict`, exactly; `EndToEnd.RefusedBehindProxies`).
- Two processes that sign one document at the same time leave one's signatures only, although
  both report success (`SigningWrites.SimultaneousSigners`).

An empty policy is refused, as `src/main.rs:167-175` promises (`NothingRequested`). What success
means for the others is `SuccessWithoutCheck`: something asked for was verified, unless only a
hybrid key was given, it was not required, and the document has no `Sig-PQC` line.

## Model

| member | source | states |
|---|---|---|
| ByteText.LinesUnlines | src/narinfo.rs:37-42 | lines without newline or trailing carriage return survive being written one per line and read with `lines()` |
| ByteText.JoinSplit | src/narinfo.rs:67 | joining what `split` returned gives the text back |
| ByteText.SplitJoin | src/narinfo.rs:109 | splitting a joined list gives exactly its parts when none contains the separator |
| Decimal.ParseShow | src/narinfo.rs:60-62 | every u64 is read back from its decimal form |
| Decimal.ParseU64Exactly | src/narinfo.rs:60-62 | a size is read exactly from decimal digits in positional notation, perhaps behind a plus sign, below 2^64; everything else is refused |
| Decimal.ShowExactly | src/narinfo.rs:104-108 | a number is written with its decimal digits and no superfluous zero |
| Base64.SymbolExactly | src/keys.rs:29-30 | the alphabet of RFC 4648, by character codes |
| Base64.EncodeThree | src/keys.rs:29-30 | three bytes are a number of 24 bits written as four symbols, the highest first |
| Base64.EncodeTwo | src/keys.rs:29-30 | two bytes at the end: zero bits and one padding character |
| Base64.EncodeOne | src/keys.rs:29-30 | one byte at the end: zero bits and two padding characters; nothing gives nothing |
| Base64.DecodeEncode | src/keys.rs:29-30 | decoding an encoding gives the bytes back |
| Base64.EncodeDecode | src/keys.rs:29-30 | a text that decodes is the one canonical encoding of the result |
| Utf8.EncodedIsValid | src/proxy.rs:182 | every sequence of Unicode scalar values is spelled by a well-formed text |
| Utf8.ValidIsEncoded | src/proxy.rs:182 | every well-formed text spells some sequence of Unicode scalar values |
| Utf8.ParsedValid | src/narinfo.rs:35-84 | all texts of a record read from well-formed UTF-8 are well-formed |
| Utf8.PrintedValid | src/narinfo.rs:96-126 | printing such a record gives well-formed UTF-8 |
| Utf8.DocumentExactly | src/narinfo.rs:35-84 | a record is well-formed with all texts UTF-8 if and only if some UTF-8 text is read as it |
| NarInfos.FieldOfName | src/narinfo.rs:55-75 | each of the twelve keys is recognised as its own field and no other |
| NarInfos.SplitLine | src/narinfo.rs:48-54 | an accepted line is key, separator and value with no separator inside the key, or a bare key with a final colon |
| NarInfos.Parse | src/narinfo.rs:35-84 | the line loop yields the record described field by field, or the first line's error, or the missing-field error |
| NarInfos.StoreEntry | src/narinfo.rs:55-75 | one entry changes the component of its field as the description demands, or reports a bad number |
| NarInfos.ToText | src/narinfo.rs:96-126 | the growing buffer ends as the rendering of all entries of the record in the fixed field order |
| RoundTrip.ReadBack | src/narinfo.rs:42-54 | a printable entry's line is read as that entry |
| RoundTrip.RefsReadBack | src/narinfo.rs:63-69 | a reference list survives joining and splitting unless it is the single empty reference |
| RoundTrip.PrintThenParse | src/narinfo.rs:86-126 | parse(to_text(info)) is exactly info for every well-formed record |
| RoundTrip.ParsedWellFormed | src/narinfo.rs:35-84 | every record read from any text is well-formed |
| RoundTrip.ParseThenPrint | src/narinfo.rs:86-95 | normalising a document keeps its record and is idempotent |
| LineOrder.LinesExactly | src/narinfo.rs:37 | a text is cut after each newline, which goes with one carriage return in front of it; a last line without one is kept as it is |
| LineOrder.ReadingByField | src/narinfo.rs:37-76 | texts with the same sequence of lines for each field, and a bad line in both or neither, have the same verdict and record |
| LineOrder.SwapLines | src/narinfo.rs:37-76 | neighbouring lines of different fields may be swapped |
| LineOrder.AddCarriageReturns | src/narinfo.rs:38-42 | carriage returns added before a newline are not seen |
| LineOrder.InsertBlankLine | src/narinfo.rs:43-45 | blank lines are not seen |
| Documents.SplitLineExactly | src/narinfo.rs:46-54 | a line is divided at its first colon and space, or, without one, at a colon at its end; otherwise it is refused |
| Documents.LineMeans | src/narinfo.rs:55-83 | what each of the twelve lines, letter by letter, does to the record read so far, with its errors |
| Documents.OtherLineMeans | src/narinfo.rs:74 | a line with any key but the twelve is kept in the extra list |
| Documents.BareLineMeans | src/narinfo.rs:47-53 | a bare key with its colon is read like one with an empty value |
| Documents.MalformedLineMeans | src/narinfo.rs:52 | the first undivided line ends the reading with its text, whatever follows |
| Documents.ShortestDocument | src/narinfo.rs:36 | a path line and a hash line are a document; everything else has its default |
| Documents.NoDocument | src/narinfo.rs:77-79 | the empty text is none |
| Documents.PrintedExactly | src/narinfo.rs:96-126 | the printed text, field by field and letter by letter |
| Fingerprints.LeExactly | src/narinfo.rs:150 | the order is ascending by the bytes at the first difference, a prefix first |
| Fingerprints.FingerprintExactly | src/narinfo.rs:129-160 | the signed text from any ascending arrangement of the references and the part in front of the last slash; none exactly without a slash |
| Fingerprints.LeTotal | src/narinfo.rs:150 | byte order is total |
| Fingerprints.LeAntisymmetric | src/narinfo.rs:150 | texts that precede each other are equal |
| Fingerprints.LeTransitive | src/narinfo.rs:150 | byte order is transitive |
| Fingerprints.OrderedUnique | src/narinfo.rs:149-150 | two ordered lists with the same elements are equal, so any sorting algorithm gives this result |
| Fingerprints.SortInPlace | src/narinfo.rs:149-150 | the array ends as the ordered arrangement of its elements |
| Fingerprints.SortedSorts | src/narinfo.rs:149-150 | that arrangement is ordered and a permutation |
| Fingerprints.StoreDirExact | src/narinfo.rs:129-135 | the store directory is exactly what precedes the last slash |
| Fingerprints.Fingerprint | src/narinfo.rs:139-160 | the method computes the specified fingerprint, or none without a slash in the store path |
| Fingerprints.FingerprintParts | src/narinfo.rs:137-160 | records without semicolons in path and hash that share a fingerprint agree on path, hash, size and the text of the references |
| Fingerprints.FingerprintCanonical | src/narinfo.rs:137-160 | records share a fingerprint exactly if path, hash, size and the multiset of references agree, given no semicolon in path and hash, no comma in the store directory, and no reference holding a comma, the store directory and a slash in a row |
| Twins.CommaIsAmbiguous | src/narinfo.rs:151-155 | a reference made of two in order, with a comma, the store directory and a slash between, gives the fingerprint of the two |
| Twins.TwinExactly | src/narinfo.rs:149-155 | a record in memory shares its fingerprint with one of other references exactly if it has several references, or a single one that can be cut like that |
| Twins.SpacedIsFaithful | src/narinfo.rs:63-69 | with a space in the store directory no two lists of references that documents can hold are confused |
| Twins.DocumentTwinExactly | src/narinfo.rs:35-160 | a document has another with the same fingerprint and other references exactly if its store directory has no space and it has several references, or a single one that can be cut like that; given that the greatest reference does not end in a carriage return |
| Fingerprints.SortFullPaths | src/narinfo.rs:141-155 | sorting base names and prefixing the directory equals sorting full paths |
| Fingerprints.AgreesWithNixSet | rfc/0000-hybrid-binary-cache-signatures.md:155-158 | for every record, the reference part equals Nix's ordered set of full paths exactly if the references have no duplicate |
| Hybrid.LenientIsCorrect | src/hybrid.rs:39-56 | the hypothesis about the schemes, with the lengths of keys and signatures, can be met |
| Hybrid.FromBytesInverse | src/hybrid.rs:120-142 | from_bytes accepts exactly the 64 bytes to_bytes writes, and restores the signer |
| Keys.SigEntryInverse | src/narinfo.rs:164-172 | an entry is read as a pair exactly if it is the one spelling of that pair with a colon-free name |
| Keys.PrefixIsName | src/keys.rs:347-354 | for a colon-free name the prefix test equals equality of the parsed name |
| Keys.SigPqcInverse | src/keys.rs:275-304 | decode_sig_pqc and encode_sig_pqc are inverse in both directions, with tag and length enforced |
| Keys.VerifySigEntryExact | src/narinfo.rs:182-213 | an entry verifies exactly if name, canonical spelling, lengths and the primitive all agree |
| Keys.LoadSecretExact | src/keys.rs:51-67 | which secret key files are accepted, and as what |
| Keys.LoadPublicExact | src/keys.rs:99-136 | which public key files are accepted, and as what |
| Keys.SecretErrors | src/keys.rs:51-67 | why a secret key file is refused, the first reason that applies |
| Keys.PublicErrors | src/keys.rs:99-136 | why a public key file is refused, in the order of the tests |
| Keys.SecretFileRoundTrip | src/keys.rs:46-67 | a saved secret key is loaded back exactly if its name is valid |
| Keys.PublicFileRoundTrip | src/keys.rs:89-136 | a saved public key is loaded back exactly if its name is valid |
| HybridCheck.CandidateExact | src/keys.rs:351-371 | an entry counts for a name exactly if it is the one spelling of a signature of the right length under that name |
| HybridCheck.CollectCandidates | src/keys.rs:350-373 | the loop with its seen-set collects the first 32 distinct candidates in order |
| HybridCheck.VerifyHybrid | src/keys.rs:341-401 | the verdict and the kind of failure are those of the specification |
| HybridCheck.WorkIsBounded | src/keys.rs:317-323 | at most 32 signatures per half are tried, all different, and all of them if no more than 32 are offered |
| HybridCheck.DistinctIsOffered | src/keys.rs:350-373 | deduplication keeps each offered signature exactly once |
| HybridCheck.NoiseIgnored | src/keys.rs:338-340 | undecodable, foreign or repeated entries can be dropped anywhere without effect |
| HybridCheck.AcceptsExactly | src/keys.rs:325-401 | acceptance holds exactly if each half has a verifying entry preceded by fewer than 32 distinct signatures |
| HybridCheck.RefinesAllPairs | src/keys.rs:329-337 | acceptance implies that some pair verifies, and conversely within the cap |
| HybridCheck.AppendKeepsAcceptance | src/keys.rs:347-373 | further entries never turn acceptance into rejection |
| HybridCheck.ReachBeyondCap | src/keys.rs:350-376 | once 32 different signatures are there, nothing that is added comes into reach |
| HybridCheck.OrderIrrelevant | src/keys.rs:341-401 | within the cap, permuting the entries changes nothing |
| HybridCheck.CapHidesValidPair | src/keys.rs:317-323 | beyond the cap, 32 non-verifying signatures in front hide a valid pair |
| HybridCheck.CapExample | src/keys.rs:317-323 | a concrete document on which that happens |
| Endorsement.EndorseWellFormed | src/proxy.rs:204-208 | adding a pair under a valid name keeps a record well-formed |
| Endorsement.AddedPairAccepted | src/proxy.rs:202-208 | a new pair is accepted exactly if the classical cap had room or an earlier entry in reach verifies |
| Endorsement.EndorseLength | src/proxy.rs:204-213 | a pair adds exactly 4522 + 2·name bytes to the printed document |
| Acceptance.NameExactly | src/keys.rs:163-183 | the accepted names: 1 to 128 letters, digits, `.`, `_`, `-`, not `.` or `..`; none holds a colon, slash, space or line end |
| Acceptance.SignerExactly | src/hybrid.rs:100-125 | what a signer publishes, saves and writes, byte by byte, with tag 1 in front of the ML-DSA signature |
| Acceptance.PublicTextExactly | src/keys.rs:89-97 | the three lines of a public key file |
| Acceptance.TrustedExactly | src/keys.rs:147-152 | a key given bare accepts an entry of any name, one given with a name only that name's, if the 64 bytes verify under the 32 |
| Acceptance.OfferedExactly | src/keys.rs:350-373 | what counts as a different signature of a name |
| Acceptance.AcceptedExactly | src/keys.rs:341-401 | verify_hybrid accepts exactly if each list has an entry of the name whose signature the scheme verifies, with fewer than 32 different ones in front |
| Acceptance.BothHalvesNeeded | src/hybrid.rs:180-185 | an accepted document holds a verifying Ed25519 and a verifying ML-DSA signature; one that does is accepted within the cap |
| Acceptance.FailureExactly | src/keys.rs:360-398 | which of the four failures is reported |
| Proxy.ReadCapped | src/proxy.rs:57-67 | the chunk loop returns the specified body or error |
| Proxy.ReadBodyExact | src/proxy.rs:52-67 | the body is returned, whole, exactly if no read failed and it fits the cap |
| Proxy.ChunkingIrrelevant | src/proxy.rs:57-67 | the result does not depend on how the body is cut |
| Proxy.HandleNarinfo | src/proxy.rs:181-215 | the handler computes the specified document step, with each error in its place |
| Proxy.ServedIsRead | src/proxy.rs:183-215 | a hop serves only what an upstream key signed, and its output is read as the input plus its own pair |
| Proxy.AtMostFourteen | src/proxy.rs:31-37 | a body within 64 KiB has at most 14 `Sig-PQC` entries that decode, over all names and counting repetitions, so at most 14 candidates for any name |
| Serving.BodyExactly | src/proxy.rs:57-67 | the body is the concatenation of its chunks |
| Serving.ServesExactly | src/proxy.rs:181-215 | a hop serves exactly if the body is whole, at most 65536 bytes, in order, and holds an entry trusted under the configured key; and what it serves |
| Serving.RefusesExactly | src/proxy.rs:57-67 | why it refuses, the first reason that applies |
| Serving.HopIsHandler | src/proxy.rs:181-215 | a hop of a chain is the handler, however the body is cut |
| Serving.ChainRefuses | src/proxy.rs:181-200 | a chain that does not serve gives the answer of the first hop that refuses |
| Serving.FifteenHopsServe | src/proxy.rs:31-37 | every document that prints to at most 2200 bytes passes a trusting chain of fifteen one-letter names |
| Serving.FifteenHopsOccur | src/proxy.rs:31-37 | for all keys there is such a document, so the bound of 15 is reached |
| Serving.FourteenFit | src/proxy.rs:31-37 | fourteen entries that decode fit into a body, so the bound of 14 is reached |
| ProxyChain.OwnPairAccepted | src/proxy.rs:202-208 | the served document is accepted under the proxy's own name exactly if fewer than 32 classical candidates had it or one in reach verifies |
| ProxyChain.ChainReads | src/proxy.rs:183-215 | the output of a chain is the print of the origin's record plus one pair per hop |
| ProxyChain.HopConvinced | src/proxy.rs:186-200 | each hop of a serving chain found a signature under its configured key |
| ProxyChain.ChainPreservesOrigin | src/proxy.rs:169-216 | a chain of any length keeps every other field, the fingerprint, all entries in order, and a verifying origin signature |
| ProxyChain.HopStaysAccepted | src/proxy.rs:202-208 | a hop's pair is accepted on the final document exactly if fewer than 32 classical candidates had its name when it signed or one in reach verified, whatever hops follow |
| ProxyChain.AtMostFifteenHops | src/proxy.rs:31-37 | no chain of more than 15 hops serves anything |
| ProxyChain.TrustingChainServes | src/proxy.rs:181-215 | a chain whose hops trust their predecessors serves exactly if the text reaching its last hop fits the cap |
| Signing.CacheDir.Sign | src/main.rs:120-159 | the loop over the directory leaves the specified files and reports the specified count or error |
| Signing.CacheDir.SignDocument | src/main.rs:131-151 | retain, push and print of one file give the specified text or error |
| SigningSteps.DocumentName | src/main.rs:128-130 | a run takes exactly the files with something in front of `.narinfo` |
| SigningSteps.CacheInfoIsNoDocument | src/main.rs:128-130 | the file that describes the cache is not taken |
| SigningSteps.SignTextExactly | src/main.rs:132-151 | what is written: others' entries in order, then one new entry of each kind, byte by byte |
| SigningSteps.SignTextErrors | src/main.rs:131-133 | why a text is not signed |
| SigningSteps.OneVisit | src/main.rs:126-152 | what one directory entry does to the files and to the result |
| SigningSteps.VisitsInTurn | src/main.rs:123-153 | a run goes on until the first entry that fails and stops there |
| SigningSteps.DocumentsExactly | src/main.rs:122-157 | the reported number is that of the entries that are documents |
| SigningSteps.MixedDirectory | src/main.rs:123-158 | among any other files, all documents are signed and counted and the others are as they were |
| Signing.SignedIsRead | src/main.rs:132-151 | a signed file is read as the intended record, with the fingerprint unchanged |
| Signing.SignedIsSignable | src/main.rs:136-141 | whatever was signed can be signed again with any key |
| Signing.SignAgainReplaces | src/main.rs:136-141 | signing twice with one key gives the text of the second signing alone |
| Signing.ReplacedOwn | src/main.rs:139-149 | afterwards the signer has exactly its new entry |
| Signing.ReplacedOther | src/main.rs:139-149 | every other colon-free name keeps its entries in order |
| SigningRuns.HistoryKeeps | src/main.rs:132-151 | after any signings by distinctly named keys: fields, fingerprint and foreign entries unchanged, one pair per signer |
| SigningRuns.PairAccepted | src/keys.rs:341-401 | a key that holds one pair passes the hybrid and the classical check |
| SigningRuns.RunOutcome | src/main.rs:123-153 | a run, however it ends, leaves each file untouched or signed once; if it succeeds, all visited documents are signed |
| SigningRuns.RunCounts | src/main.rs:122-157 | a successful run reports the number of documents it visited |
| SigningRuns.RunSucceedsExactly | src/main.rs:123-158 | a run succeeds exactly if nothing fails on the way and every document it comes across is there, is UTF-8, parses and has a fingerprint |
| SigningRuns.CompletedExactly | src/main.rs:120-159 | the same for one run among many, in terms of the files before all of them |
| SigningRuns.RunsKeepEveryFile | src/main.rs:120-159 | the state of every file after any sequence of runs, and acceptance for each signer |
| Verifying.CmdVerify | src/main.rs:161-221 | the sequential checks compute the specified verdict |
| Verdicts.SucceedsExactly | src/main.rs:161-221 | when verify succeeds, for every combination of the two keys and the flag |
| Verdicts.RequiredIsThere | src/main.rs:216-218 | success with the hybrid required means that a hybrid key was given and both signatures are there and verify |
| Verdicts.FailsExactly | src/main.rs:161-221 | why it fails, the first reason that applies |
| Verifying.SignedVerifies | src/main.rs:120-221 | a document that a completed run came across passes verification with that run's key, the hybrid required, whatever runs follow |
| Verifying.SignThenVerify | src/main.rs:120-221 | for a saved key and a scan of documents that can be signed, sign succeeds and verify with the key's named classical key and public file and the hybrid required succeeds, among any other runs |
| Verifying.SignOnceThenVerify | src/main.rs:120-221 | the same for one run and all of its documents |
| Verifying.SuccessWithoutCheck | src/main.rs:167-218 | success without any verified signature happens exactly with only a hybrid key, not required, and no Sig-PQC line |
| Verifying.UnsignedPasses | src/main.rs:198-220 | a concrete unsigned document that passes |
| Verifying.RfcDifference | rfc/0000-hybrid-binary-cache-signatures.md:215-227 | given both keys, the command trusts what the table trusts except in exactly three families: invalid and not required, missing under the key's name beside other names and not required, hidden by the cap |
| Verifying.ForeignPqcRefused | src/main.rs:205-213 | a document with one classical signature and one `Sig-PQC` line that is nothing to the hybrid key given is trusted by the table and refused by the command |
| Verifying.OtherNameRefused | src/main.rs:205-213 | every unsigned document, signed with one key and verified with its classical half and another's hybrid key, not required, is such a document |
| Verifying.CapRefused | src/main.rs:205-213 | a signer's valid pair behind 32 other signatures of its name is trusted by the table and refused by the command |
| EndToEnd.ChainKeepsVerdict | src/proxy.rs:181-215 | a document that passes verification passes it behind any chain exactly if no hybrid key is given, or it is required, or there was a Sig-PQC line, or that key accepts what the hops added |
| EndToEnd.RefusedBehindProxies | src/main.rs:205-213 | a document without Sig-PQC lines that passes with a hybrid key not required is refused behind any chain of other names |
| EndToEnd.SignChainVerify | src/main.rs:120-221 | signed with a saved key and served by any chain, a document passes verification with that key, the hybrid required |
| AtomicWrite.TempNameInjective | src/keys.rs:214-219 | a temporary name determines file and process |
| AtomicWrite.TempNameExactly | src/keys.rs:214-218 | the temporary name: a dot, the file name, `.tmp-` and the process id in decimal |
| AtomicWrite.TempIsNotNarinfo | src/main.rs:128-130 | a temporary file is never taken for a document |
| AtomicWrite.SameTemp | src/keys.rs:214-219 | two calls share a temporary file exactly if they have one target and one process id |
| AtomicWrite.DocumentsApart | src/keys.rs:214-219 | no document is a temporary file of another |
| AtomicWrite.OneTargetApart | src/keys.rs:214-219 | a single target is not its own temporary file |
| AtomicWrite.InvariantStays | src/keys.rs:221-244 | every step keeps: each call's own file holds what it has written; of two calls that share a temporary file at most one is busy; every other name leads to what was there or to a finished file |
| AtomicWrite.StepIsAtomic | src/keys.rs:221-244 | every step changes targets by whole renames only |
| AtomicWrite.RunsAreAtomic | src/keys.rs:200-245 | without three calls of one target and process id, every interleaving is a run of a register machine with atomic writes |
| AtomicWrite.ReadsAreWhole | src/keys.rs:200-202 | then every read returns the content of the last rename or the initial one |
| AtomicWrite.DoneExactly | src/keys.rs:239-244 | a call reports success exactly if its rename took place |
| AtomicWrite.OutcomesDecide | src/keys.rs:200-245 | a target holds the content of a call that succeeded, or is as it was if none did, whatever failed or crashed |
| WriteRuns.Tear | src/keys.rs:214-244 | any three calls of one target and process id have a run in which the first puts in place any beginning of the third's content |
| WriteRuns.AtomicExactly | src/keys.rs:200-245 | every run is one of the register machine if and only if no three calls share target and process id, or those that do write nothing |
| WriteRuns.WholeExactly | src/keys.rs:200-202 | every read in every run is whole if and only if no three calls share target and process id, or every part of what those write is some call's whole content |
| WriteRuns.WholeUnlessCrowded | src/keys.rs:200-202 | for calls that write something, every read in every run is whole if and only if no three share target and process id |
| WriteRuns.TwoAreNoCrowd | src/keys.rs:214-219 | different processes, or two calls of one, meet the condition |
| WriteRuns.AloneReplaces | src/keys.rs:193-245 | an undisturbed call of either variant, however its writes are cut, replaces the file and leaves no temporary |
| WriteRuns.FailedWrite | src/keys.rs:239-242 | a write that fails at any point takes its temporary file away, if that does not fail too |
| WriteRuns.LeftBehind | src/keys.rs:244 | a crash, and a rename that fails, leave the temporary file and nothing else |
| WriteRuns.NothingWritten | src/keys.rs:193-242 | a call that cannot create its file or finds its target changes nothing; one that finds its temporary name taken removes that file |
| WriteRuns.AloneOutcome | src/keys.rs:209-245 | a call that is alone replaces the file and leaves nothing else if it succeeds, and leaves at most its temporary file if not |
| WriteRuns.FreshRefuses | src/keys.rs:193-198 | the refusing variant never changes an existing file that no other writer targets |
| SigningWrites.VisitIsWrite | src/main.rs:151 | every ended run of the write call is one of the two outcomes of a visit, and an untouched document if it is not done |
| SigningWrites.SimultaneousSigners | src/main.rs:131-151 | two processes signing one document at once leave it untorn, but with the new entries of only one of them |

## Left out

- The policy evaluator, registries, receipts and enforcement modes described in the repository's README: their source is not part of this model.
- The mathematics of Ed25519 and ML-DSA-65, key generation and randomness: they are the parameter `Hybrid.Scheme`; unforgeability is not claimed.
- HTTP routing, status codes, streamed NAR bodies, `nix-cache-info`, timeouts, the async runtime, command-line parsing and printed messages.
- File permissions, fsync, directories, and file names that are not valid UTF-8; a directory is a map from names to contents, a scan is any sequence of its entries.
- Temporary files left in a cache directory after a crash or a failed rename appear in `AtomicWrite` but not in the map of `Signing.CacheDir`; no scan would take them for documents.
- A no-overwrite guarantee under races: the code calls its check best-effort, and `WriteRuns.FreshRefuses` is stated for a target with one writer.
- `SigPqcAlgorithm` has one variant; further algorithms are not modelled.
- The growing buffers of `to_bytes` and `encode_sig_pqc` are written as concatenations.
- Benches, test vectors, the example generator and the sync script.
- Twins.DocumentTwinExactly: does not cover documents of several references whose greatest one in byte order ends in a carriage return and whose store directory has no space, because the twin that spells them all cannot be written as a line; `Twins.SpacedIsFaithful` has no such condition.
- In `AtomicWrite` no target is the temporary name of another call (`Apart`), as for documents and for calls on one file.
