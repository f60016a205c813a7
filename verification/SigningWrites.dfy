/** `sign` on top of the write protocol: what a visit to a document assumes about writing it, and
    what two signers at work on one document do to each other. */
module SigningWrites {
  import opened ByteText
  import opened NarInfos
  import Fingerprints
  import opened Hybrid
  import opened Keys
  import opened Endorsement
  import opened Signing
  import opened SigningRuns
  import opened AtomicWrite
  import opened WriteRuns

  /** The two outcomes a visit has once the new text is there are those of the write call, in
      every run of it that has ended: done, the directory is as the visit leaves it; failed or
      crashed, it is untouched but for a temporary file, which no scan takes for a document. */
  lemma VisitIsWrite(c: Scheme, key: SecretKey, v: Visit, files: map<Path, Text>, w: Writer, events: seq<Event>)
    requires IsNarinfo(v.path) && v.path in files && SignText(c, key, v.coin, files[v.path]) == Ok(w.content)
    requires w.target == v.path && !w.exclusive && w.Temp() !in files
    requires Exec([w], files, events).Some? && !Running(Exec([w], files, events).value.calls[0].phase)
    ensures var s := Exec([w], files, events).value;
      var done := s.calls[0].phase.Done?;
      && VisitFile(c, key, v.(fault := if done then NoFault else WriteFault), files) == (if done then Ok(Contents(s)) else Err(WriteFailed))
      && (!done ==> Contents(s) - {w.Temp()} == files)
      && !IsNarinfo(w.Temp())
  {
    hide SignText, IsNarinfo, TempName, Exec, Contents;
    TempIsNotNarinfo(w.target, w.pid);
    AloneOutcome(w, files, events);
  }

  /** Signing leaves the entries of every other name as they were. */
  lemma OthersUntouched(c: Scheme, key: SecretKey, coin: nat, text: Text, other: Text)
    requires ValidKeyName(key.name) && ValidKeyName(other) && key.name != other && SignText(c, key, coin, text).Ok?
    ensures Parsed(text).Ok? && Parsed(SignText(c, key, coin, text).value).Ok?
    ensures var before, after := Parsed(text).value, Parsed(SignText(c, key, coin, text).value).value;
      && Filter(after.sigs, Own(other)) == Filter(before.sigs, Own(other))
      && Filter(after.sigPqc, Own(other)) == Filter(before.sigPqc, Own(other))
  {
    hide Parsed, SignText, Filter, NewSig, NewSigPqc, StartsWith, ValidKeyName;
    SignedIsRead(c, key, coin, text);
    var info, fingerprint := Parsed(text).value, Fingerprints.FingerprintOf(Parsed(text).value).value;
    NewEntriesAreOwn(c, key, coin, fingerprint);
    ValidNamePlain(key.name);
    ValidNamePlain(other);
    ReplacedOther(info.sigs, key.name, NewSig(c, key, coin, fingerprint), other);
    ReplacedOther(info.sigPqc, key.name, NewSigPqc(c, key, coin, fingerprint), other);
  }

  /** Two processes that sign one document at the same time, each with its own key, never leave a
      torn file; but if both report success, the file is the one's, with the other's entries as
      they were before. Only runs one after the other add up. */
  lemma SimultaneousSigners(c: Scheme, files: map<Path, Text>, p: Path, keys: seq<SecretKey>, coins: seq<nat>, pids: seq<nat>,
                            events: seq<Event>) returns (winner: nat)
    requires p in files && |keys| == |coins| == |pids| == 2 && pids[0] != pids[1] && keys[0].name != keys[1].name
    requires forall i :: 0 <= i < 2 ==> ValidKeyName(keys[i].name) && SignText(c, keys[i], coins[i], files[p]).Ok?
    requires Exec(Signers(c, files[p], p, keys, coins, pids), files, events).Some?
    ensures winner < 2
    ensures var s := Exec(Signers(c, files[p], p, keys, coins, pids), files, events).value;
      var mine, other := SignText(c, keys[winner], coins[winner], files[p]).value, keys[1 - winner].name;
      && (View(s, p) == Some(files[p]) || View(s, p) == Some(mine))
      && (s.calls[0].phase.Done? || s.calls[1].phase.Done? ==> View(s, p) == Some(mine) && s.calls[winner].phase.Done?)
      && Parsed(files[p]).Ok? && Parsed(mine).Ok?
      && Filter(Parsed(mine).value.sigs, Own(other)) == Filter(Parsed(files[p]).value.sigs, Own(other))
      && Filter(Parsed(mine).value.sigPqc, Own(other)) == Filter(Parsed(files[p]).value.sigPqc, Own(other))
  {
    hide SignText, Parsed, Filter, Exec, View, TempName, ValidKeyName, Crowded, Apart;
    var ws := Signers(c, files[p], p, keys, coins, pids);
    OneTargetApart(ws);
    TwoAreNoCrowd(ws);
    ApartTarget(ws, 0);
    OutcomesDecide(ws, files, events, p);
    OthersUntouched(c, keys[0], coins[0], files[p], keys[1].name);
    OthersUntouched(c, keys[1], coins[1], files[p], keys[0].name);
    var s := Exec(ws, files, events).value;
    winner := 0;
    if Wrote(ws, s, p, 0) || Wrote(ws, s, p, 1) {
      var j: nat :| Wrote(ws, s, p, j) && View(s, p) == Some(ws[j].content);
      winner := j;
    } else {
      assert forall k: nat :: !Wrote(ws, s, p, k);
    }
  }

  /** Two processes that have read the same text and are about to write what they made of it. */
  function Signers(c: Scheme, text: Text, p: Path, keys: seq<SecretKey>, coins: seq<nat>, pids: seq<nat>): seq<Writer>
    requires |keys| == |coins| == |pids| == 2
    requires forall i :: 0 <= i < 2 ==> SignText(c, keys[i], coins[i], text).Ok?
  {
    [Writer(p, pids[0], SignText(c, keys[0], coins[0], text).value, false),
     Writer(p, pids[1], SignText(c, keys[1], coins[1], text).value, false)]
  }
}
