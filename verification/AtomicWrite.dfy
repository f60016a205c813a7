/** Writing a file through a temporary sibling and a rename, as a protocol of several
    processes: writers that may fail or crash at any step, and readers. */
module AtomicWrite {
  import opened ByteText
  import opened Decimal
  import opened Signing

  // ----- names

  function TempName(file: Path, pid: nat): Path { "." + file + ".tmp-" + Show(pid) }

  lemma {:induction false} DigitSuffixUnique(a: Text, x: Text, b: Text, y: Text)
    requires a + x == b + y && AllDigits(x) && AllDigits(y)
    requires a != "" && !IsDigit(a[|a| - 1]) && b != "" && !IsDigit(b[|b| - 1])
    ensures a == b && x == y
  {
    var s, t := a + x, b + y;
    assert s[|a| - 1] == a[|a| - 1] && t[|b| - 1] == b[|b| - 1];
    assert forall i :: |a| <= i < |s| ==> s[i] == x[i - |a|];
    assert forall i :: |b| <= i < |t| ==> t[i] == y[i - |b|];
    assert |a| == |b|;
    assert a == s[..|a|] && b == t[..|b|] && x == s[|a|..] && y == t[|b|..];
  }

  lemma TempNameExactly(file: Path, pid: nat, digits: Text)
    requires digits == Show(pid)
    ensures TempName(file, pid) == "." + file + ".tmp-" + digits
  {
    hide Show;
  }

  /** A temporary name tells which file and which process it belongs to. */
  lemma TempNameInjective(f: Path, p: nat, g: Path, q: nat)
    requires TempName(f, p) == TempName(g, q)
    ensures f == g && p == q
  {
    hide Show;
    var a, b := "." + f + ".tmp-", "." + g + ".tmp-";
    assert a[|a| - 1] == '-' && b[|b| - 1] == '-';
    DigitSuffixUnique(a, Show(p), b, Show(q));
    ShowInjective(p, q);
    assert f == a[1..|a| - 5] && g == b[1..|b| - 5];
  }

  /** A directory scan never takes a temporary file for a document. */
  lemma TempIsNotNarinfo(f: Path, p: nat)
    ensures !IsNarinfo(TempName(f, p))
  {
    var t := TempName(f, p);
    assert t[|t| - 1] == Show(p)[|Show(p)| - 1];
    assert IsDigit(t[|t| - 1]);
    if IsNarinfo(t) { NarinfoLastChar(t); }
  }

  lemma NarinfoLastChar(path: Path)
    requires IsNarinfo(path)
    ensures path[|path| - 1] == 'o'
  {
    assert path[|path| - 8..][7] == path[|path| - 1];
  }

  // ----- the protocol

  /** One call; `exclusive` is the variant that refuses an existing target. */
  datatype Writer = Writer(target: Path, pid: nat, content: Text, exclusive: bool) {
    function Temp(): Path { TempName(target, pid) }
  }

  datatype Phase = Checking | Creating | Writing | Renaming | Cleaning | Done | Failed | Crashed

  /** Where a call stands, and what it has written to the file it created. */
  datatype Progress = Progress(phase: Phase, out: Text)

  /** What a name leads to: a file that was there at first, or the one some call created. A call
      goes on writing to its own file whatever happens to the name. */
  datatype Node = Initial(content: Text) | Made(maker: nat)

  datatype State = State(dir: map<Path, Node>, calls: seq<Progress>)

  datatype Event =
    | Check(w: nat)
    | Create(w: nat)
    | CreateFails(w: nat)
    | Append(w: nat, bytes: nat)
    | WriteFails(w: nat)
    | Complete(w: nat)
    | Cleanup(w: nat, removed: bool)
    | Rename(w: nat)
    | RenameFails(w: nat)
    | Crash(w: nat)
    | Read(path: Path, seen: Option<Text>)

  function Lookup(files: map<Path, Text>, p: Path): Option<Text> {
    if p in files then Some(files[p]) else None
  }

  function Content(s: State, n: Node): Text {
    match n
    case Initial(content) => content
    case Made(k) => if k < |s.calls| then s.calls[k].out else ""
  }

  /** What a reader finds under a name. */
  function View(s: State, p: Path): Option<Text> {
    if p in s.dir then Some(Content(s, s.dir[p])) else None
  }

  /** All of what readers find. */
  function Contents(s: State): map<Path, Text> { map p | p in s.dir :: Content(s, s.dir[p]) }

  function Begin(w: Writer): Progress { Progress(if w.exclusive then Checking else Creating, "") }

  predicate Running(ph: Phase) { !ph.Done? && !ph.Failed? && !ph.Crashed? }

  /** The effect of an event of call `i` on the directory and on its progress, where the
      protocol allows it. */
  function Act(w: Writer, i: nat, g: Progress, dir: map<Path, Node>, e: Event): Option<(map<Path, Node>, Progress)> {
    match (e, g.phase)
    case (Check(_), Checking) => Some((dir, g.(phase := if w.target in dir then Failed else Creating)))
    case (Create(_), Creating) =>
      if w.Temp() in dir then Some((dir, g.(phase := Cleaning)))
      else Some((dir[w.Temp() := Made(i)], g.(phase := Writing)))
    case (CreateFails(_), Creating) => Some((dir, g.(phase := Cleaning)))
    case (Append(_, k), Writing) =>
      if k > 0 && |g.out| + k <= |w.content| then
        Some((dir, g.(out := g.out + w.content[|g.out|..|g.out| + k])))
      else None
    case (WriteFails(_), Writing) => Some((dir, g.(phase := Cleaning)))
    case (Complete(_), Writing) => if |g.out| == |w.content| then Some((dir, g.(phase := Renaming))) else None
    case (Cleanup(_, removed), Cleaning) => Some((if removed then dir - {w.Temp()} else dir, g.(phase := Failed)))
    case (Rename(_), Renaming) =>
      if w.Temp() in dir then Some((dir[w.target := dir[w.Temp()]] - {w.Temp()}, g.(phase := Done))) else None
    case (RenameFails(_), Renaming) => Some((dir, g.(phase := Failed)))
    case (Crash(_), _) => if Running(g.phase) then Some((dir, g.(phase := Crashed))) else None
    case _ => None
  }

  function Step(ws: seq<Writer>, s: State, e: Event): (r: Option<State>)
    requires |s.calls| == |ws|
    ensures r.Some? ==> |r.value.calls| == |ws|
  {
    if e.Read? then (if e.seen == View(s, e.path) then Some(s) else None)
    else if e.w >= |ws| then None
    else match Act(ws[e.w], e.w, s.calls[e.w], s.dir, e)
      case None => None
      case Some((dir, g)) => Some(State(dir, s.calls[e.w := g]))
  }

  function Start(ws: seq<Writer>, files: map<Path, Text>): State {
    State(map p | p in files :: Initial(files[p]), seq(|ws|, i requires 0 <= i < |ws| => Begin(ws[i])))
  }

  /** The state after a sequence of events, if the protocol allows it. */
  function Exec(ws: seq<Writer>, files: map<Path, Text>, events: seq<Event>): (r: Option<State>)
    ensures r.Some? ==> |r.value.calls| == |ws|
  {
    if events == [] then Some(Start(ws, files))
    else
      match Exec(ws, files, events[..|events| - 1])
      case None => None
      case Some(s) => Step(ws, s, events[|events| - 1])
  }

  // ----- who shares a temporary file

  ghost predicate IsTemp(ws: seq<Writer>, p: Path) { exists w :: w in ws && p == w.Temp() }

  /** No target is a temporary file. */
  ghost predicate Apart(ws: seq<Writer>) { forall w :: w in ws ==> !IsTemp(ws, w.target) }

  predicate Same(ws: seq<Writer>, i: nat, j: nat) {
    i < |ws| && j < |ws| && ws[i].target == ws[j].target && ws[i].pid == ws[j].pid
  }

  /** At least three calls, this one among them, have one target and one process id. */
  ghost predicate Crowded(ws: seq<Writer>, i: nat) {
    exists j: nat, k: nat :: i != j && i != k && j != k && Same(ws, i, j) && Same(ws, i, k)
  }

  /** Three calls with one target and one process id do not occur, unless they write nothing. */
  ghost predicate Uncrowded(ws: seq<Writer>) {
    forall i: nat :: i < |ws| && Crowded(ws, i) ==> ws[i].content == ""
  }

  lemma SameTemp(ws: seq<Writer>, i: nat, j: nat)
    requires i < |ws| && j < |ws|
    ensures Same(ws, i, j) <==> ws[i].Temp() == ws[j].Temp()
  {
    hide Show;
    if ws[i].Temp() == ws[j].Temp() { TempNameInjective(ws[i].target, ws[i].pid, ws[j].target, ws[j].pid); }
  }

  lemma CrowdedSame(ws: seq<Writer>, i: nat, j: nat)
    requires Same(ws, i, j)
    ensures Crowded(ws, i) <==> Crowded(ws, j)
  {
    if i != j {
      if Crowded(ws, i) { CrowdedOther(ws, i, j); }
      if Crowded(ws, j) { CrowdedOther(ws, j, i); }
    }
  }

  lemma CrowdedOther(ws: seq<Writer>, i: nat, j: nat)
    requires Same(ws, i, j) && i != j && Crowded(ws, i)
    ensures Crowded(ws, j)
  {
    var a: nat, b: nat :| i != a && i != b && a != b && Same(ws, i, a) && Same(ws, i, b);
    var c := if a == j then b else a;
    assert j != i && j != c && i != c && Same(ws, j, i) && Same(ws, j, c);
  }

  /** Targets are no temporary files when they are documents of a cache directory, and when they
      are all one file. */
  lemma DocumentsApart(ws: seq<Writer>)
    requires forall w :: w in ws ==> IsNarinfo(w.target)
    ensures Apart(ws)
  {
    hide Show, IsNarinfo, TempName;
    forall w, v | w in ws && v in ws
      ensures w.target != v.Temp()
    {
      TempIsNotNarinfo(v.target, v.pid);
    }
  }

  lemma OneTargetApart(ws: seq<Writer>)
    requires forall v, w :: v in ws && w in ws ==> v.target == w.target
    ensures Apart(ws)
  {
    hide Show;
    forall w, v | w in ws && v in ws
      ensures w.target != v.Temp()
    {
      assert |v.Temp()| > |v.target|;
    }
  }

  // ----- what each call can rely on

  predicate Busy(ph: Phase) { ph.Writing? || ph.Renaming? }

  /** A call has written the beginning of its content, and all of it before it renames. */
  predicate OutFits(w: Writer, g: Progress) {
    g.out <= w.content && (g.phase.Renaming? || g.phase.Done? ==> g.out == w.content)
  }

  /** The temporary file of a call, where there is one, was there at first or was created by a
      call that shares it; while the call is busy it is its own, unless it is in a crowd. */
  ghost predicate TempFits(ws: seq<Writer>, s: State, i: nat)
    requires |s.calls| == |ws| && i < |ws|
  {
    ws[i].Temp() in s.dir ==>
      var n := s.dir[ws[i].Temp()];
      && (n.Made? ==> Same(ws, n.maker, i))
      && (Busy(s.calls[i].phase) ==> n.Made? && (Crowded(ws, i) || n.maker == i))
  }

  /** Of two calls that share a temporary file only one is busy; if the file is gone the other
      one took it, and has failed. */
  ghost predicate PairFits(ws: seq<Writer>, s: State, i: nat, j: nat)
    requires |s.calls| == |ws|
  {
    i != j && Same(ws, i, j) && !Crowded(ws, i) && Busy(s.calls[i].phase) ==>
      && !Busy(s.calls[j].phase)
      && (ws[i].Temp() !in s.dir ==> s.calls[j].phase.Failed?)
  }

  /** Any other name leads to what was there at first, or to the file of a call with this
      target: one that is done, unless it is in a crowd. */
  ghost predicate NameFits(ws: seq<Writer>, files: map<Path, Text>, s: State, p: Path)
    requires |s.calls| == |ws|
  {
    if p !in s.dir then p !in files
    else match s.dir[p]
      case Initial(content) => p in files && content == files[p]
      case Made(k) => k < |ws| && ws[k].target == p && (Crowded(ws, k) || s.calls[k].phase.Done?)
  }

  ghost predicate Invariant(ws: seq<Writer>, files: map<Path, Text>, s: State)
    requires |s.calls| == |ws|
  {
    && (forall i: nat :: i < |ws| ==> OutFits(ws[i], s.calls[i]) && TempFits(ws, s, i))
    && (forall i: nat, j: nat :: i < |ws| && j < |ws| ==> PairFits(ws, s, i, j))
    && (forall p :: !IsTemp(ws, p) ==> NameFits(ws, files, s, p))
  }

  lemma StartInvariant(ws: seq<Writer>, files: map<Path, Text>)
    ensures Invariant(ws, files, Start(ws, files))
  {
    hide TempName, Crowded, IsTemp;
  }

  /** A state and the next one, taken apart. */
  ghost predicate Next(ws: seq<Writer>, s: State, e: Event, s': State)
    requires |s.calls| == |ws|
  {
    && !e.Read? && e.w < |ws| && |s'.calls| == |ws|
    && Act(ws[e.w], e.w, s.calls[e.w], s.dir, e) == Some((s'.dir, s'.calls[e.w]))
    && forall i :: 0 <= i < |ws| && i != e.w ==> s'.calls[i] == s.calls[i]
  }

  lemma OutStays(w: Writer, i: nat, g: Progress, dir: map<Path, Node>, e: Event)
    requires OutFits(w, g) && Act(w, i, g, dir, e).Some?
    ensures OutFits(w, Act(w, i, g, dir, e).value.1)
  {
    hide TempName;
    if e.Append? && g.phase.Writing? {
      assert g.out + w.content[|g.out|..|g.out| + e.bytes] == w.content[..|g.out| + e.bytes];
    }
  }

  lemma TempStays(ws: seq<Writer>, files: map<Path, Text>, s: State, e: Event, s': State, i: nat)
    requires |s.calls| == |ws| && Apart(ws) && Invariant(ws, files, s) && Next(ws, s, e, s') && i < |ws|
    ensures TempFits(ws, s', i)
  {
    hide TempName, Crowded, IsTemp, NameFits;
    SameTemp(ws, e.w, i);
    assert TempFits(ws, s, i) && PairFits(ws, s, i, e.w);
    assert ws[e.w].target != ws[i].Temp() by { ApartFrom(ws, e.w, i); }
  }

  lemma ApartFrom(ws: seq<Writer>, i: nat, j: nat)
    requires Apart(ws) && i < |ws| && j < |ws|
    ensures ws[i].target != ws[j].Temp()
  {
    hide TempName;
    assert ws[i] in ws && ws[j] in ws;
  }

  lemma PairStays(ws: seq<Writer>, files: map<Path, Text>, s: State, e: Event, s': State, i: nat, j: nat)
    requires |s.calls| == |ws| && Apart(ws) && Invariant(ws, files, s) && Next(ws, s, e, s')
    requires i < |ws| && j < |ws|
    ensures PairFits(ws, s', i, j)
  {
    hide TempName, IsTemp, NameFits;
    if i != j && Same(ws, i, j) && !Crowded(ws, i) {
      CrowdedSame(ws, i, j);
      SameTemp(ws, i, j);
      SameTemp(ws, e.w, i);
      assert !(e.w != i && e.w != j && Same(ws, i, e.w));
      assert PairFits(ws, s, i, j) && PairFits(ws, s, j, i);
      ApartFrom(ws, e.w, i);
    }
  }

  lemma NameStays(ws: seq<Writer>, files: map<Path, Text>, s: State, e: Event, s': State, p: Path)
    requires |s.calls| == |ws| && Apart(ws) && Invariant(ws, files, s) && Next(ws, s, e, s') && !IsTemp(ws, p)
    ensures NameFits(ws, files, s', p)
  {
    hide TempName, Crowded;
    assert ws[e.w] in ws && p != ws[e.w].Temp();
    assert NameFits(ws, files, s, p) && TempFits(ws, s, e.w);
    if e.Rename? && p == ws[e.w].target { CrowdedSame(ws, s.dir[ws[e.w].Temp()].maker, e.w); }
  }

  lemma InvariantStays(ws: seq<Writer>, files: map<Path, Text>, s: State, e: Event)
    requires |s.calls| == |ws| && Apart(ws) && Invariant(ws, files, s) && Step(ws, s, e).Some?
    ensures Invariant(ws, files, Step(ws, s, e).value)
  {
    hide Apart, Act, OutFits, TempFits, PairFits, NameFits, IsTemp;
    var s' := Step(ws, s, e).value;
    if !e.Read? {
      OutStays(ws[e.w], e.w, s.calls[e.w], s.dir, e);
      forall i: nat | i < |ws| ensures TempFits(ws, s', i) { TempStays(ws, files, s, e, s', i); }
      forall i: nat, j: nat | i < |ws| && j < |ws| ensures PairFits(ws, s', i, j) { PairStays(ws, files, s, e, s', i, j); }
      forall p | !IsTemp(ws, p) ensures NameFits(ws, files, s', p) { NameStays(ws, files, s, e, s', p); }
    }
  }

  // ----- the guarantee over every interleaving

  /** The file an event puts in place, seen as one atomic write. */
  function Put(ws: seq<Writer>, e: Event, files: map<Path, Text>): map<Path, Text> {
    if e.Rename? && e.w < |ws| then files[ws[e.w].target := ws[e.w].content] else files
  }

  /** The same events as a register machine in which every rename is one atomic write. */
  function Atomic(ws: seq<Writer>, files: map<Path, Text>, events: seq<Event>): map<Path, Text> {
    if events == [] then files
    else Put(ws, events[|events| - 1], Atomic(ws, files, events[..|events| - 1]))
  }

  /** Outside the temporary files, an event changes nothing unless it is a rename, which puts
      the whole content in place at once. */
  lemma StepIsAtomic(ws: seq<Writer>, files: map<Path, Text>, s: State, e: Event, p: Path)
    requires |s.calls| == |ws| && Apart(ws) && Uncrowded(ws) && Invariant(ws, files, s) && Step(ws, s, e).Some?
    requires !IsTemp(ws, p)
    ensures View(Step(ws, s, e).value, p)
         == if e.Rename? && ws[e.w].target == p then Some(ws[e.w].content) else View(s, p)
  {
    hide TempName, Crowded, PairFits, Apart;
    if !e.Read? {
      var w, s' := ws[e.w], Step(ws, s, e).value;
      assert w in ws && p != w.Temp() && OutFits(w, s.calls[e.w]);
      assert TempFits(ws, s, e.w) && NameFits(ws, files, s, p);
      if e.Rename? && p == w.target {
        var k := s.dir[w.Temp()].maker;
        CrowdedSame(ws, k, e.w);
        assert OutFits(ws[k], s.calls[k]);
      } else if p in s.dir && s.dir[p] == Made(e.w) {
        assert !e.Append?;
      }
    }
  }

  /** What is seen under the names that are not temporary is what the register machine holds. */
  ghost predicate AtomicRun(ws: seq<Writer>, files: map<Path, Text>, events: seq<Event>)
    requires Exec(ws, files, events).Some?
  {
    forall p :: !IsTemp(ws, p) ==> View(Exec(ws, files, events).value, p) == Lookup(Atomic(ws, files, events), p)
  }

  lemma {:induction false} RunsKeepInvariant(ws: seq<Writer>, files: map<Path, Text>, events: seq<Event>)
    requires Apart(ws) && Exec(ws, files, events).Some?
    ensures Invariant(ws, files, Exec(ws, files, events).value)
  {
    hide Apart, Invariant, Step;
    StartInvariant(ws, files);
    if events != [] {
      var n := |events| - 1;
      RunsKeepInvariant(ws, files, events[..n]);
      InvariantStays(ws, files, Exec(ws, files, events[..n]).value, events[n]);
    }
  }

  /** Every run of the protocol is, outside the temporary files, a run of the register machine. */
  lemma {:induction false} RunsAreAtomic(ws: seq<Writer>, files: map<Path, Text>, events: seq<Event>)
    requires Apart(ws) && Uncrowded(ws) && Exec(ws, files, events).Some?
    ensures AtomicRun(ws, files, events)
  {
    hide Apart, Uncrowded, Invariant, IsTemp, Step, View;
    if events == [] {
      forall p
        ensures View(Start(ws, files), p) == Lookup(files, p)
      {
        StartView(ws, files, p);
      }
    } else {
      var n := |events| - 1;
      var e := events[n];
      RunsAreAtomic(ws, files, events[..n]);
      RunsKeepInvariant(ws, files, events[..n]);
      StepInRange(ws, Exec(ws, files, events[..n]).value, e);
      forall p | !IsTemp(ws, p)
        ensures View(Exec(ws, files, events).value, p) == Lookup(Atomic(ws, files, events), p)
      {
        StepIsAtomic(ws, files, Exec(ws, files, events[..n]).value, e, p);
      }
    }
  }

  lemma StartView(ws: seq<Writer>, files: map<Path, Text>, p: Path)
    ensures View(Start(ws, files), p) == Lookup(files, p)
  {
  }

  lemma StepInRange(ws: seq<Writer>, s: State, e: Event)
    requires |s.calls| == |ws| && Step(ws, s, e).Some?
    ensures !e.Read? ==> e.w < |ws|
  {
    hide Act;
  }

  /** What the last completed rename onto `p` put there, or what was there at first. */
  function LastWritten(ws: seq<Writer>, events: seq<Event>, p: Path, initial: Option<Text>): Option<Text> {
    if events == [] then initial
    else
      var e := events[|events| - 1];
      if e.Rename? && e.w < |ws| && ws[e.w].target == p then Some(ws[e.w].content)
      else LastWritten(ws, events[..|events| - 1], p, initial)
  }

  lemma {:induction false} AtomicLookup(ws: seq<Writer>, files: map<Path, Text>, events: seq<Event>, p: Path)
    ensures Lookup(Atomic(ws, files, events), p) == LastWritten(ws, events, p, Lookup(files, p))
  {
    if events != [] { AtomicLookup(ws, files, events[..|events| - 1], p); }
  }

  lemma {:induction false} ExecPrefix(ws: seq<Writer>, files: map<Path, Text>, events: seq<Event>, k: nat)
    requires k < |events| && Exec(ws, files, events).Some?
    ensures Exec(ws, files, events[..k]).Some?
    ensures Step(ws, Exec(ws, files, events[..k]).value, events[k]).Some?
    decreases |events|
  {
    hide Step, Start;
    var n := |events| - 1;
    if k < n {
      ExecPrefix(ws, files, events[..n], k);
      assert events[..n][..k] == events[..k];
    }
  }

  /** In every interleaving of writers, failures, crashes and readers, a read of a target
      returns the initial content or one call's complete content: that of the last rename. */
  lemma ReadsAreWhole(ws: seq<Writer>, files: map<Path, Text>, events: seq<Event>, k: nat)
    requires Apart(ws) && Uncrowded(ws) && Exec(ws, files, events).Some?
    requires k < |events| && events[k].Read? && !IsTemp(ws, events[k].path)
    ensures events[k].seen == LastWritten(ws, events[..k], events[k].path, Lookup(files, events[k].path))
    ensures Whole(ws, files, events[k].path, events[k].seen)
  {
    hide Apart, Uncrowded, Act, IsTemp, View;
    ExecPrefix(ws, files, events, k);
    RunsAreAtomic(ws, files, events[..k]);
    AtomicLookup(ws, files, events[..k], events[k].path);
    LastWrittenFrom(ws, events[..k], events[k].path, Lookup(files, events[k].path));
  }

  /** The initial content of a file, or the complete content of a call with this target. */
  predicate Whole(ws: seq<Writer>, files: map<Path, Text>, p: Path, seen: Option<Text>) {
    seen == Lookup(files, p) || exists w :: w in ws && w.target == p && seen == Some(w.content)
  }

  lemma {:induction false} LastWrittenFrom(ws: seq<Writer>, events: seq<Event>, p: Path, initial: Option<Text>)
    ensures LastWritten(ws, events, p, initial) == initial
      || exists w :: w in ws && w.target == p && LastWritten(ws, events, p, initial) == Some(w.content)
  {
    if events != [] {
      var e := events[|events| - 1];
      if e.Rename? && e.w < |ws| && ws[e.w].target == p {
        assert ws[e.w] in ws;
      } else {
        LastWrittenFrom(ws, events[..|events| - 1], p, initial);
      }
    }
  }

  // ----- what a call reports

  lemma StepDone(ws: seq<Writer>, s: State, e: Event, i: nat)
    requires |s.calls| == |ws| && i < |ws| && Step(ws, s, e).Some?
    ensures Step(ws, s, e).value.calls[i].phase.Done? <==> s.calls[i].phase.Done? || e == Rename(i)
  {
    hide TempName;
  }

  /** A call succeeds exactly if its rename took place; one that failed or crashed never reached
      its target. */
  lemma {:induction false} DoneExactly(ws: seq<Writer>, files: map<Path, Text>, events: seq<Event>, i: nat)
    requires Exec(ws, files, events).Some? && i < |ws|
    ensures Exec(ws, files, events).value.calls[i].phase.Done? <==> Rename(i) in events
  {
    hide Step;
    if events != [] {
      var n := |events| - 1;
      DoneExactly(ws, files, events[..n], i);
      StepDone(ws, Exec(ws, files, events[..n]).value, events[n], i);
      assert events == events[..n] + [events[n]];
    }
  }

  /** Call `j` succeeded in writing `p`. */
  predicate Wrote(ws: seq<Writer>, s: State, p: Path, j: nat)
    requires |s.calls| == |ws|
  {
    j < |ws| && ws[j].target == p && s.calls[j].phase.Done?
  }

  lemma {:induction false} LastWrittenByRename(ws: seq<Writer>, events: seq<Event>, p: Path, initial: Option<Text>) returns (j: nat)
    ensures if exists k: nat :: k < |ws| && ws[k].target == p && Rename(k) in events
            then j < |ws| && ws[j].target == p && Rename(j) in events && LastWritten(ws, events, p, initial) == Some(ws[j].content)
            else LastWritten(ws, events, p, initial) == initial
  {
    j := 0;
    if events != [] {
      var n := |events| - 1;
      var e := events[n];
      assert events == events[..n] + [e];
      if e.Rename? && e.w < |ws| && ws[e.w].target == p {
        j := e.w;
      } else {
        j := LastWrittenByRename(ws, events[..n], p, initial);
      }
    }
  }

  /** What the outcomes say about a target: it holds the content of a call that succeeded if
      there was one, and is as it was at first if none did, whatever failed or crashed. */
  lemma OutcomesDecide(ws: seq<Writer>, files: map<Path, Text>, events: seq<Event>, p: Path)
    requires Apart(ws) && Uncrowded(ws) && Exec(ws, files, events).Some? && !IsTemp(ws, p)
    ensures var s := Exec(ws, files, events).value;
      if exists k: nat :: Wrote(ws, s, p, k)
      then exists j: nat :: Wrote(ws, s, p, j) && View(s, p) == Some(ws[j].content)
      else View(s, p) == Lookup(files, p)
  {
    hide Apart, Uncrowded, IsTemp, Step, Lookup, LastWritten, Exec, View;
    RunsAreAtomic(ws, files, events);
    AtomicLookup(ws, files, events, p);
    var s := Exec(ws, files, events).value;
    forall k: nat | k < |ws|
      ensures s.calls[k].phase.Done? <==> Rename(k) in events
    {
      DoneExactly(ws, files, events, k);
    }
    var j := LastWrittenByRename(ws, events, p, Lookup(files, p));
    if k: nat :| k < |ws| && ws[k].target == p && Rename(k) in events {
      assert Wrote(ws, s, p, j);
    } else {
      assert forall k: nat :: Wrote(ws, s, p, k) ==> k < |ws| && Rename(k) in events;
    }
  }
}
