/** Particular runs of the protocol of `AtomicWrite`: calls on their own, calls that refuse, and
    the runs that show when names are not safe. */
module WriteRuns {
  import opened ByteText
  import opened Signing
  import opened AtomicWrite

  // ----- runs, step by step

  lemma ExecMore(ws: seq<Writer>, files: map<Path, Text>, events: seq<Event>, e: Event)
    requires Exec(ws, files, events).Some?
    ensures Exec(ws, files, events + [e]) == Step(ws, Exec(ws, files, events).value, e)
  {
    hide Step, Start;
    assert (events + [e])[..|events|] == events;
  }

  /** Extends a run by one event of call `i`. */
  lemma Move(ws: seq<Writer>, files: map<Path, Text>, events: seq<Event>, s: State, i: nat, e: Event,
             dir: map<Path, Node>, g: Progress) returns (more: seq<Event>, s': State)
    requires Exec(ws, files, events) == Some(s) && i < |ws| && !e.Read? && e.w == i
    requires Act(ws[i], i, s.calls[i], s.dir, e) == Some((dir, g))
    ensures more == events + [e] && s' == State(dir, s.calls[i := g]) && Exec(ws, files, more) == Some(s')
  {
    hide Act, Exec;
    more, s' := events + [e], State(dir, s.calls[i := g]);
    ExecMore(ws, files, events, e);
  }

  /** A call that has not begun creates its temporary file, where there is none. */
  lemma Opens(ws: seq<Writer>, files: map<Path, Text>, events: seq<Event>, s: State, i: nat) returns (more: seq<Event>, s': State)
    requires Exec(ws, files, events) == Some(s) && i < |ws| && s.calls[i] == Begin(ws[i])
    requires ws[i].Temp() !in s.dir && (ws[i].exclusive ==> ws[i].target !in s.dir)
    ensures Exec(ws, files, more) == Some(s')
    ensures s' == State(s.dir[ws[i].Temp() := Made(i)], s.calls[i := Progress(Writing, "")])
    ensures more == events + if ws[i].exclusive then [Check(i), Create(i)] else [Create(i)]
  {
    hide TempName, Exec;
    more, s' := events, s;
    if ws[i].exclusive {
      more, s' := Move(ws, files, more, s', i, Check(i), s.dir, Progress(Creating, ""));
    }
    more, s' := Move(ws, files, more, s', i, Create(i), s.dir[ws[i].Temp() := Made(i)], Progress(Writing, ""));
  }

  /** A call that finds its temporary name taken fails, and takes that file away. */
  lemma Clears(ws: seq<Writer>, files: map<Path, Text>, events: seq<Event>, s: State, i: nat) returns (more: seq<Event>, s': State)
    requires Exec(ws, files, events) == Some(s) && i < |ws| && s.calls[i] == Begin(ws[i])
    requires ws[i].Temp() in s.dir && (ws[i].exclusive ==> ws[i].target !in s.dir)
    ensures Exec(ws, files, more) == Some(s')
    ensures s' == State(s.dir - {ws[i].Temp()}, s.calls[i := Progress(Failed, "")])
  {
    hide TempName, Exec;
    more, s' := events, s;
    if ws[i].exclusive {
      more, s' := Move(ws, files, more, s', i, Check(i), s.dir, Progress(Creating, ""));
    }
    more, s' := Move(ws, files, more, s', i, Create(i), s.dir, Progress(Cleaning, ""));
    more, s' := Move(ws, files, more, s', i, Cleanup(i, true), s.dir - {ws[i].Temp()}, Progress(Failed, ""));
  }

  /** A call writes the first `m` bytes of its content, in pieces of the given sizes. */
  lemma {:induction false} Writes(ws: seq<Writer>, files: map<Path, Text>, events: seq<Event>, s: State, i: nat, sizes: seq<nat>)
    returns (more: seq<Event>, s': State)
    requires Exec(ws, files, events) == Some(s) && i < |ws| && s.calls[i] == Progress(Writing, "")
    requires (forall k :: k in sizes ==> k > 0) && Sum(sizes) <= |ws[i].content|
    ensures Exec(ws, files, more) == Some(s') && more == events + Appends(i, sizes)
    ensures s' == State(s.dir, s.calls[i := Progress(Writing, ws[i].content[..Sum(sizes)])])
  {
    hide TempName, Exec;
    more, s' := events, s;
    if sizes == [] {
      assert events + Appends(i, sizes) == events && s.calls[i := s.calls[i]] == s.calls;
    } else {
      var n := |sizes| - 1;
      var k, c, done := sizes[n], ws[i].content, Sum(sizes[..n]);
      assert k in sizes && forall j :: j in sizes[..n] ==> j in sizes;
      more, s' := Writes(ws, files, events, s, i, sizes[..n]);
      assert c[..done] + c[done..done + k] == c[..done + k];
      assert more + [Append(i, k)] == events + Appends(i, sizes);
      more, s' := Move(ws, files, more, s', i, Append(i, k), s.dir, Progress(Writing, c[..done + k]));
    }
  }

  function Appends(i: nat, sizes: seq<nat>): seq<Event> {
    if sizes == [] then [] else Appends(i, sizes[..|sizes| - 1]) + [Append(i, sizes[|sizes| - 1])]
  }

  function Sum(sizes: seq<nat>): nat {
    if sizes == [] then 0 else Sum(sizes[..|sizes| - 1]) + sizes[|sizes| - 1]
  }

  /** Some pieces for any number of bytes. */
  function Pieces(m: nat): (r: seq<nat>)
    ensures Sum(r) == m && forall k :: k in r ==> k > 0
  {
    assert Sum([m]) == m by { assert [m][..0] == []; }
    if m == 0 then [] else [m]
  }

  // ----- exactly when names are safe

  /** Of three calls with one target and one process id the second takes away the first one's
      complete temporary file, the third creates it afresh and writes some bytes, and the first
      renames that. */
  lemma Tear(ws: seq<Writer>, files: map<Path, Text>, i: nat, j: nat, k: nat, m: nat) returns (events: seq<Event>)
    requires Apart(ws) && i != j && i != k && j != k && Same(ws, i, j) && Same(ws, i, k) && m <= |ws[k].content|
    requires ws[i].Temp() !in files && (ws[i].exclusive || ws[j].exclusive || ws[k].exclusive ==> ws[i].target !in files)
    ensures events != [] && events[|events| - 1] == Rename(i) && Exec(ws, files, events).Some?
    ensures View(Exec(ws, files, events).value, ws[i].target) == Some(ws[k].content[..m])
  {
    hide TempName, Exec, Act;
    var t := ws[i].Temp();
    var s := Start(ws, files);
    ApartFrom(ws, i, i);
    assert Exec(ws, files, []) == Some(s) by { ExecNothing(ws, files); }
    events, s := Opens(ws, files, [], s, i);
    events, s := Writes(ws, files, events, s, i, Pieces(|ws[i].content|));
    assert ws[i].content[..|ws[i].content|] == ws[i].content;
    events, s := Completes(ws, files, events, s, i);
    events, s := Clears(ws, files, events, s, j);
    events, s := Opens(ws, files, events, s, k);
    events, s := Writes(ws, files, events, s, k, Pieces(m));
    events, s := Renames(ws, files, events, s, i);
  }

  lemma ExecNothing(ws: seq<Writer>, files: map<Path, Text>)
    ensures Exec(ws, files, []) == Some(Start(ws, files))
  {
  }

  lemma Completes(ws: seq<Writer>, files: map<Path, Text>, events: seq<Event>, s: State, i: nat) returns (more: seq<Event>, s': State)
    requires Exec(ws, files, events) == Some(s) && i < |ws| && s.calls[i] == Progress(Writing, ws[i].content)
    ensures Exec(ws, files, more) == Some(s') && more == events + [Complete(i)]
    ensures s' == State(s.dir, s.calls[i := Progress(Renaming, ws[i].content)])
  {
    hide TempName, Exec;
    more, s' := Move(ws, files, events, s, i, Complete(i), s.dir, Progress(Renaming, ws[i].content));
  }

  lemma Renames(ws: seq<Writer>, files: map<Path, Text>, events: seq<Event>, s: State, i: nat) returns (more: seq<Event>, s': State)
    requires Exec(ws, files, events) == Some(s) && i < |ws| && s.calls[i] == Progress(Renaming, ws[i].content)
    requires ws[i].Temp() in s.dir
    ensures Exec(ws, files, more) == Some(s') && more == events + [Rename(i)]
    ensures s' == State(s.dir[ws[i].target := s.dir[ws[i].Temp()]] - {ws[i].Temp()}, s.calls[i := Progress(Done, ws[i].content)])
  {
    hide TempName, Exec;
    more, s' := Move(ws, files, events, s, i, Rename(i), s.dir[ws[i].target := s.dir[ws[i].Temp()]] - {ws[i].Temp()},
                     Progress(Done, ws[i].content));
  }

  ghost predicate AlwaysAtomic(ws: seq<Writer>) {
    forall files: map<Path, Text>, events: seq<Event> :: Exec(ws, files, events).Some? ==> AtomicRun(ws, files, events)
  }

  /** The protocol refines the register machine in every run if and only if no three calls share
      target and process id, or those that do write nothing. */
  lemma AtomicExactly(ws: seq<Writer>)
    requires Apart(ws)
    ensures AlwaysAtomic(ws) <==> Uncrowded(ws)
  {
    hide Apart, Exec, AtomicRun, IsTemp;
    if Uncrowded(ws) {
      forall files: map<Path, Text>, events: seq<Event> | Exec(ws, files, events).Some?
        ensures AtomicRun(ws, files, events)
      {
        RunsAreAtomic(ws, files, events);
      }
    } else {
      var i: nat :| i < |ws| && Crowded(ws, i) && ws[i].content != "";
      var j: nat, k: nat :| i != j && i != k && j != k && Same(ws, i, j) && Same(ws, i, k);
      var events := Tear(ws, map[], i, j, k, 0);
      TornRun(ws, events, i);
    }
  }

  lemma TornRun(ws: seq<Writer>, events: seq<Event>, i: nat)
    requires Apart(ws) && i < |ws| && ws[i].content != "" && events != [] && events[|events| - 1] == Rename(i)
    requires Exec(ws, map[], events).Some? && View(Exec(ws, map[], events).value, ws[i].target) == Some("")
    ensures !AtomicRun(ws, map[], events)
  {
    hide Exec, View, TempName;
    AtomicLookup(ws, map[], events, ws[i].target);
    assert ws[i] in ws && !IsTemp(ws, ws[i].target);
  }

  /** Every read of a target in every run returns something whole. */
  ghost predicate AlwaysWhole(ws: seq<Writer>) {
    forall files: map<Path, Text>, events: seq<Event>, n: nat ::
      n < |events| && Exec(ws, files, events).Some? && events[n].Read? && !IsTemp(ws, events[n].path) ==>
      Whole(ws, files, events[n].path, events[n].seen)
  }

  /** Whatever part of a call's content is written, it is what some call with this target means
      to write. */
  ghost predicate PartsAreWhole(ws: seq<Writer>, k: nat)
    requires k < |ws|
  {
    forall m: nat :: m < |ws[k].content| ==> exists w :: w in ws && w.target == ws[k].target && w.content == ws[k].content[..m]
  }

  lemma ViewIsWhole(ws: seq<Writer>, files: map<Path, Text>, s: State, p: Path)
    requires |s.calls| == |ws| && Invariant(ws, files, s) && !IsTemp(ws, p)
    requires forall k: nat :: k < |ws| && Crowded(ws, k) ==> PartsAreWhole(ws, k)
    ensures Whole(ws, files, p, View(s, p))
  {
    hide Crowded, IsTemp, TempFits, PairFits;
    assert NameFits(ws, files, s, p);
    if p in s.dir && s.dir[p].Made? {
      var k := s.dir[p].maker;
      var out, w := s.calls[k].out, ws[k];
      assert OutFits(w, s.calls[k]) && out == w.content[..|out|];
      if |out| < |w.content| {
        assert PartsAreWhole(ws, k);
      } else {
        assert out == w.content && w in ws;
      }
    }
  }

  /** Readers only ever see whole files if and only if no three calls share target and process
      id, or every part of what those write is itself the whole content of some call. */
  lemma WholeExactly(ws: seq<Writer>)
    requires Apart(ws)
    ensures AlwaysWhole(ws) <==> forall k: nat :: k < |ws| && Crowded(ws, k) ==> PartsAreWhole(ws, k)
  {
    hide Apart, Exec, IsTemp, View, Whole, PartsAreWhole, Invariant;
    if forall k: nat :: k < |ws| && Crowded(ws, k) ==> PartsAreWhole(ws, k) {
      forall files: map<Path, Text>, events: seq<Event>, n: nat |
        n < |events| && Exec(ws, files, events).Some? && events[n].Read? && !IsTemp(ws, events[n].path)
        ensures Whole(ws, files, events[n].path, events[n].seen)
      {
        ExecPrefix(ws, files, events, n);
        RunsKeepInvariant(ws, files, events[..n]);
        ViewIsWhole(ws, files, Exec(ws, files, events[..n]).value, events[n].path);
        ReadSeen(ws, Exec(ws, files, events[..n]).value, events[n]);
      }
    }
    forall k: nat | k < |ws| && Crowded(ws, k) && !PartsAreWhole(ws, k)
      ensures !AlwaysWhole(ws)
    {
      TornRead(ws, k);
    }
  }

  lemma ReadSeen(ws: seq<Writer>, s: State, e: Event)
    requires |s.calls| == |ws| && e.Read? && Step(ws, s, e).Some?
    ensures e.seen == View(s, e.path)
  {
  }

  lemma TornRead(ws: seq<Writer>, k: nat)
    requires Apart(ws) && k < |ws| && Crowded(ws, k) && !PartsAreWhole(ws, k)
    ensures !AlwaysWhole(ws)
  {
    hide Apart, Exec, View, Act, TempName;
    var m: nat :| m < |ws[k].content| && !exists w :: w in ws && w.target == ws[k].target && w.content == ws[k].content[..m];
    var i: nat, j: nat :| k != i && k != j && i != j && Same(ws, k, i) && Same(ws, k, j);
    var events := Tear(ws, map[], i, j, k, m);
    var s := Exec(ws, map[], events).value;
    var e := Read(ws[i].target, View(s, ws[i].target));
    ExecMore(ws, map[], events, e);
    assert ws[i] in ws && !IsTemp(ws, ws[i].target) by { ApartTarget(ws, i); }
    var n, all := |events|, events + [e];
    assert all[n] == e && !Whole(ws, map[], ws[i].target, e.seen);
  }

  lemma ApartTarget(ws: seq<Writer>, i: nat)
    requires Apart(ws) && i < |ws|
    ensures !IsTemp(ws, ws[i].target)
  {
    hide IsTemp;
    assert ws[i] in ws;
  }

  /** For calls that write something, as `sign` and the key files do: readers only ever see whole
      files if and only if no three calls share target and process id. */
  lemma WholeUnlessCrowded(ws: seq<Writer>)
    requires Apart(ws) && forall w :: w in ws ==> w.content != ""
    ensures AlwaysWhole(ws) <==> forall k: nat :: k < |ws| ==> !Crowded(ws, k)
  {
    hide Apart, Crowded, AlwaysWhole;
    WholeExactly(ws);
    forall k: nat | k < |ws|
      ensures !PartsAreWhole(ws, k)
    {
      assert ws[k] in ws && ws[k].content[..0] == "";
    }
  }

  /** Calls of different processes on a file are no crowd, and neither are two of one process. */
  lemma TwoAreNoCrowd(ws: seq<Writer>)
    requires forall i: nat, j: nat, k: nat :: i < j < k && Same(ws, i, j) ==> !Same(ws, i, k)
    ensures Uncrowded(ws)
  {
    forall i: nat | i < |ws|
      ensures !Crowded(ws, i)
    {
      if Crowded(ws, i) {
        var j: nat, k: nat :| i != j && i != k && j != k && Same(ws, i, j) && Same(ws, i, k);
        var a, c := if i < j && i < k then i else if j < k then j else k, if i > j && i > k then i else if j > k then j else k;
        var b := i + j + k - a - c;
        assert a < b < c && Same(ws, a, b) && Same(ws, a, c);
      }
    }
  }

  // ----- a writer on its own

  /** An undisturbed call, however its writes are cut, replaces the target and leaves nothing
      behind; the refusing variant does so where there was no file. */
  lemma AloneReplaces(w: Writer, files: map<Path, Text>, sizes: seq<nat>) returns (s: State)
    requires w.Temp() !in files && w.target != w.Temp() && (w.exclusive ==> w.target !in files)
    requires (forall k :: k in sizes ==> k > 0) && Sum(sizes) == |w.content|
    ensures var opening := if w.exclusive then [Check(0), Create(0)] else [Create(0)];
      Exec([w], files, opening + Appends(0, sizes) + [Complete(0)] + [Rename(0)]) == Some(s)
    ensures s.calls == [Progress(Done, w.content)] && Contents(s) == files[w.target := w.content]
  {
    hide TempName, Exec, Act, Appends, Sum;
    var ws, events := [w], [];
    s := Start(ws, files);
    var dir := s.dir;
    assert Exec(ws, files, []) == Some(s) by { ExecNothing(ws, files); }
    events, s := Opens(ws, files, [], s, 0);
    assert events == if w.exclusive then [Check(0), Create(0)] else [Create(0)];
    events, s := Writes(ws, files, events, s, 0, sizes);
    assert w.content[..|w.content|] == w.content;
    events, s := Completes(ws, files, events, s, 0);
    events, s := Renames(ws, files, events, s, 0);
    assert s.calls == [Progress(Done, w.content)];
    assert s.dir == dir[w.target := Made(0)];
    ContentsReplaced(files, s, w.target);
  }

  lemma ContentsReplaced(files: map<Path, Text>, s: State, p: Path)
    requires |s.calls| == 1 && s.dir == (map q | q in files :: Initial(files[q]))[p := Made(0)]
    ensures Contents(s) == files[p := s.calls[0].out]
  {
  }

  /** How far a lone call has come: it has created its temporary file and written some pieces. */
  lemma AloneWrites(w: Writer, files: map<Path, Text>, sizes: seq<nat>) returns (events: seq<Event>, s: State)
    requires !w.exclusive && w.Temp() !in files && (forall k :: k in sizes ==> k > 0) && Sum(sizes) <= |w.content|
    ensures events == [Create(0)] + Appends(0, sizes) && Exec([w], files, events) == Some(s)
    ensures s.calls == [Progress(Writing, w.content[..Sum(sizes)])]
    ensures s.dir == Start([w], files).dir[w.Temp() := Made(0)]
  {
    hide TempName, Exec, Act, Appends, Sum;
    s := Start([w], files);
    assert Exec([w], files, []) == Some(s) by { ExecNothing([w], files); }
    events, s := Opens([w], files, [], s, 0);
    assert events == [Create(0)];
    events, s := Writes([w], files, events, s, 0, sizes);
    assert s.calls == [Progress(Writing, w.content[..Sum(sizes)])];
  }

  /** A write that fails at any point takes its temporary file away again, if it can. */
  lemma FailedWrite(w: Writer, files: map<Path, Text>, sizes: seq<nat>, removed: bool) returns (s: State)
    requires !w.exclusive && w.Temp() !in files && (forall k :: k in sizes ==> k > 0) && Sum(sizes) <= |w.content|
    ensures Exec([w], files, [Create(0)] + Appends(0, sizes) + [WriteFails(0)] + [Cleanup(0, removed)]) == Some(s)
    ensures s.calls[0].phase == Failed
    ensures Contents(s) == if removed then files else files[w.Temp() := w.content[..Sum(sizes)]]
  {
    hide TempName, Exec, Appends, Sum;
    var events;
    var out := w.content[..Sum(sizes)];
    events, s := AloneWrites(w, files, sizes);
    var dir := s.dir;
    events, s := Move([w], files, events, s, 0, WriteFails(0), dir, Progress(Cleaning, out));
    events, s := Move([w], files, events, s, 0, Cleanup(0, removed), if removed then dir - {w.Temp()} else dir, Progress(Failed, out));
    assert s.calls == [Progress(Failed, out)];
    if removed {
      assert s.dir == Start([w], files).dir;
      ContentsAtFirst(files, s);
    } else {
      ContentsReplaced(files, s, w.Temp());
    }
  }

  lemma ContentsAtFirst(files: map<Path, Text>, s: State)
    requires s.dir == map q | q in files :: Initial(files[q])
    ensures Contents(s) == files
  {
  }

  /** A crash, and a rename that fails, leave the temporary file behind and nothing else. */
  lemma LeftBehind(w: Writer, files: map<Path, Text>, sizes: seq<nat>) returns (crashed: State, failed: State)
    requires !w.exclusive && w.Temp() !in files && (forall k :: k in sizes ==> k > 0) && Sum(sizes) <= |w.content|
    ensures Exec([w], files, [Create(0)] + Appends(0, sizes) + [Crash(0)]) == Some(crashed)
    ensures crashed.calls[0].phase == Crashed && Contents(crashed) == files[w.Temp() := w.content[..Sum(sizes)]]
    ensures Sum(sizes) == |w.content| ==>
      && Exec([w], files, [Create(0)] + Appends(0, sizes) + [Complete(0)] + [RenameFails(0)]) == Some(failed)
      && failed.calls[0].phase == Failed && Contents(failed) == files[w.Temp() := w.content]
  {
    hide TempName, Exec, Appends, Sum;
    var events, s := AloneWrites(w, files, sizes);
    var out := w.content[..Sum(sizes)];
    var more;
    more, crashed := Move([w], files, events, s, 0, Crash(0), s.dir, Progress(Crashed, out));
    assert crashed.calls == [Progress(Crashed, out)];
    ContentsReplaced(files, crashed, w.Temp());
    failed := crashed;
    if Sum(sizes) == |w.content| {
      assert out == w.content;
      more, failed := Completes([w], files, events, s, 0);
      more, failed := Move([w], files, more, failed, 0, RenameFails(0), failed.dir, Progress(Failed, out));
      assert failed.calls == [Progress(Failed, out)];
      ContentsReplaced(files, failed, w.Temp());
    }
  }

  /** A call whose temporary file cannot be created, or a refusing one that finds its target,
      changes nothing; one that finds its temporary name taken removes that file. */
  lemma NothingWritten(w: Writer, files: map<Path, Text>) returns (s: State)
    requires w.exclusive ==> w.target in files
    ensures w.exclusive ==> Exec([w], files, [Check(0)]) == Some(s) && Contents(s) == files
    ensures !w.exclusive && w.Temp() !in files ==>
      Exec([w], files, [CreateFails(0), Cleanup(0, false)]) == Some(s) && Contents(s) == files
    ensures !w.exclusive && w.Temp() in files ==>
      Exec([w], files, [Create(0), Cleanup(0, true)]) == Some(s) && Contents(s) == files - {w.Temp()}
    ensures s.calls == [Progress(Failed, "")]
  {
    hide TempName, Exec;
    s := Start([w], files);
    var events: seq<Event> := [];
    assert Exec([w], files, []) == Some(s) by { ExecNothing([w], files); }
    if w.exclusive {
      events, s := Move([w], files, [], s, 0, Check(0), s.dir, Progress(Failed, ""));
      assert events == [Check(0)];
      ContentsAtFirst(files, s);
    } else if w.Temp() !in files {
      events, s := Move([w], files, [], s, 0, CreateFails(0), s.dir, Progress(Cleaning, ""));
      events, s := Move([w], files, events, s, 0, Cleanup(0, false), s.dir, Progress(Failed, ""));
      assert events == [CreateFails(0), Cleanup(0, false)];
      ContentsAtFirst(files, s);
    } else {
      events, s := Move([w], files, [], s, 0, Create(0), s.dir, Progress(Cleaning, ""));
      events, s := Move([w], files, events, s, 0, Cleanup(0, true), s.dir - {w.Temp()}, Progress(Failed, ""));
      assert events == [Create(0), Cleanup(0, true)];
    }
    assert s.calls == [Progress(Failed, "")];
  }

  lemma {:induction false} AloneLeavesNoTemp(w: Writer, files: map<Path, Text>, events: seq<Event>)
    requires Exec([w], files, events).Some? && w.Temp() !in files && w.target != w.Temp()
    ensures Exec([w], files, events).value.calls[0].phase.Done? ==> w.Temp() !in Exec([w], files, events).value.dir
  {
    hide TempName;
    if events != [] { AloneLeavesNoTemp(w, files, events[..|events| - 1]); }
  }

  lemma ViewContents(s: State, p: Path)
    ensures View(s, p) == Lookup(Contents(s), p)
  {
    hide Content;
  }

  lemma AloneView(w: Writer, files: map<Path, Text>, events: seq<Event>, p: Path)
    requires Exec([w], files, events).Some? && w.target != w.Temp() && p != w.Temp()
    ensures var s := Exec([w], files, events).value;
      View(s, p) == if s.calls[0].phase.Done? && p == w.target then Some(w.content) else Lookup(files, p)
  {
    hide TempName, Exec, View, Lookup;
    assert Apart([w]) && !IsTemp([w], p);
    TwoAreNoCrowd([w]);
    OutcomesDecide([w], files, events, p);
    var s := Exec([w], files, events).value;
    assert Wrote([w], s, p, 0) <==> s.calls[0].phase.Done? && p == w.target;
  }

  /** Whatever happens to a call that is alone, it replaces the target and leaves nothing else
      if it succeeds, and leaves nothing but perhaps its temporary file if it does not. */
  lemma AloneOutcome(w: Writer, files: map<Path, Text>, events: seq<Event>)
    requires Exec([w], files, events).Some? && w.Temp() !in files && w.target != w.Temp()
    ensures var s := Exec([w], files, events).value;
      if s.calls[0].phase.Done? then Contents(s) == files[w.target := w.content] else Contents(s) - {w.Temp()} == files
  {
    hide TempName, Exec, View, Contents;
    AloneLeavesNoTemp(w, files, events);
    var s := Exec([w], files, events).value;
    var after := if s.calls[0].phase.Done? then files[w.target := w.content] else files;
    forall p | p != w.Temp()
      ensures Lookup(Contents(s), p) == Lookup(after, p)
    {
      AloneView(w, files, events, p);
      ViewContents(s, p);
    }
    ViewContents(s, w.Temp());
    SameLookups(Contents(s), after, w.Temp());
    assert w.Temp() in Contents(s) <==> w.Temp() in s.dir by { ContentsKeys(s); }
    if s.calls[0].phase.Done? { assert Contents(s) - {w.Temp()} == Contents(s); }
  }

  lemma ContentsKeys(s: State)
    ensures Contents(s).Keys == s.dir.Keys
  {
  }

  lemma SameLookups(a: map<Path, Text>, b: map<Path, Text>, t: Path)
    requires t !in b && forall p :: p != t ==> Lookup(a, p) == Lookup(b, p)
    ensures a - {t} == b
  {
    forall p | p != t
      ensures p in a <==> p in b
      ensures p in a ==> a[p] == b[p]
    {
      assert Lookup(a, p) == Lookup(b, p);
    }
  }

  // ----- the refusing variant

  /** A call that refuses existing files never changes an existing target, provided no other
      writer has the same one; with another, only the check at its start protects the file. */
  lemma {:induction false} FreshRefuses(ws: seq<Writer>, files: map<Path, Text>, events: seq<Event>, i: nat)
    requires Apart(ws) && Exec(ws, files, events).Some?
    requires i < |ws| && ws[i].exclusive && ws[i].target in files
    requires forall j :: 0 <= j < |ws| && j != i ==> ws[j].target != ws[i].target
    ensures View(Exec(ws, files, events).value, ws[i].target) == Some(files[ws[i].target])
    ensures var ph := Exec(ws, files, events).value.calls[i].phase; ph.Checking? || ph.Failed? || ph.Crashed?
  {
    hide TempName, Apart, Crowded, IsTemp, TempFits, PairFits, Exec;
    var s := Exec(ws, files, events).value;
    ApartTarget(ws, i);
    RunsKeepInvariant(ws, files, events);
    assert NameFits(ws, files, s, ws[i].target);
    if events == [] {
      ExecNothing(ws, files);
    } else {
      var n := |events| - 1;
      ExecPrefix(ws, files, events, n);
      FreshRefuses(ws, files, events[..n], i);
      assert events[..n] + [events[n]] == events;
      ExecMore(ws, files, events[..n], events[n]);
      RefusalStays(ws, Exec(ws, files, events[..n]).value, events[n], i);
    }
  }

  lemma RefusalStays(ws: seq<Writer>, s: State, e: Event, i: nat)
    requires |s.calls| == |ws| && i < |ws| && Step(ws, s, e).Some? && ws[i].target in s.dir
    requires var ph := s.calls[i].phase; ph.Checking? || ph.Failed? || ph.Crashed?
    ensures var ph := Step(ws, s, e).value.calls[i].phase; ph.Checking? || ph.Failed? || ph.Crashed?
  {
    hide TempName;
  }
}
