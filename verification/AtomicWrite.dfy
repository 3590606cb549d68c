/**
 `write_atomic` of crates/oc-core/src/paths.rs as file-system steps. Any number of writers in
 any number of processes work on one target. A process may end between any two steps, and
 another may later get its pid; the machine may crash, and then every file that was not
 synced may hold anything.
 */
module AtomicWrite {
  import opened Results
  import opened Numerals

  datatype File<T> = File(content: seq<T>, synced: bool)

  function FileAt<T>(files: map<string, File<T>>, name: string): Option<File<T>> {
    if name in files then Some(files[name]) else None
  }

  function ContentOf<T>(files: map<string, File<T>>, name: string): Option<seq<T>> {
    if name in files then Some(files[name].content) else None
  }

  datatype Phase =
    | Named
    | Ready
    | Writing(done: nat)
    | Synced
    | Renamed
    | Failing
    | Done(ok: bool, cleaned: bool)

  /** The call of one writer; `renamed` remembers that its rename went through. */
  datatype Writer<T> = Writer(pid: nat, nanos: nat, seqNo: nat, contents: seq<T>, phase: Phase, renamed: bool)

  /**
   The directory of the target, the calls of the running processes, the counter of each, and
   everything that was ever renamed into place.
   */
  datatype State<T> = State(
    files: map<string, File<T>>,
    writers: map<nat, Writer<T>>,
    counters: map<nat, nat>,
    landed: seq<seq<T>>)

  datatype Action =
    | RemoveLegacy(ok: bool)
    | Create(ok: bool)
    | Write(n: nat, ok: bool)
    | Sync(ok: bool)
    | Rename(ok: bool)
    | Return
    | Cleanup(ok: bool)

  datatype Step<T> =
    | Call(w: nat, pid: nat, nanos: nat, contents: seq<T>)
    | Act(w: nat, action: Action)
    | Exit(pid: nat)
    | Crash(damage: map<string, seq<T>>)

  function TmpOf<T>(target: string, w: Writer<T>): string {
    TmpName(target, w.pid, w.nanos, w.seqNo)
  }

  predicate Enabled<T>(w: Writer<T>, a: Action) {
    match a
    case RemoveLegacy(_) => w.phase.Named?
    case Create(_) => w.phase.Ready?
    case Write(n, _) => w.phase.Writing? && w.phase.done + n <= |w.contents|
    case Sync(_) => w.phase == Writing(|w.contents|)
    case Rename(_) => w.phase.Synced?
    case Return => w.phase.Renamed?
    case Cleanup(_) => w.phase.Failing?
  }

  /** The directory after the action; an operation that fails leaves it alone. */
  function FilesAfter<T>(target: string, files: map<string, File<T>>, w: Writer<T>, a: Action): map<string, File<T>>
    requires Enabled(w, a)
  {
    var tmp := TmpOf(target, w);
    match a
    case RemoveLegacy(ok) => if ok then files - {LegacyName(target)} else files
    case Create(ok) => if ok && tmp !in files then files[tmp := File([], false)] else files
    case Write(n, ok) => if ok && tmp in files then files[tmp := File(w.contents[..w.phase.done + n], false)] else files
    case Sync(ok) => if ok && tmp in files then files[tmp := files[tmp].(synced := true)] else files
    case Rename(ok) => if ok && tmp in files then (files - {tmp})[target := files[tmp]] else files
    case Return => files
    case Cleanup(ok) => if ok then files - {tmp} else files
  }

  function PhaseAfter<T>(target: string, files: map<string, File<T>>, w: Writer<T>, a: Action): Phase
    requires Enabled(w, a)
  {
    match a
    case RemoveLegacy(_) => Ready
    case Create(ok) => if ok && TmpOf(target, w) !in files then Writing(0) else Failing
    case Write(n, ok) => if ok then Writing(w.phase.done + n) else Failing
    case Sync(ok) => if ok then Synced else Failing
    case Rename(ok) => if ok && TmpOf(target, w) in files then Renamed else Failing
    case Return => Done(true, true)
    case Cleanup(ok) => Done(false, ok)
  }

  function ActOn<T>(target: string, s: State<T>, k: nat, a: Action): State<T>
    requires k in s.writers && Enabled(s.writers[k], a)
  {
    var w := s.writers[k];
    var phase := PhaseAfter(target, s.files, w, a);
    State(FilesAfter(target, s.files, w, a),
          s.writers[k := w.(phase := phase, renamed := w.renamed || phase.Renamed?)],
          s.counters,
          if phase.Renamed? then s.landed + [w.contents] else s.landed)
  }

  /** Processes are gone, and what was not synced is anyone's guess. */
  function AfterCrash<T>(s: State<T>, damage: map<string, seq<T>>): State<T> {
    State(map n | n in s.files ::
            if s.files[n].synced then s.files[n] else File(if n in damage then damage[n] else [], false),
          map[], map[], s.landed)
  }

  /** The process is gone with its calls and its counter; the pid may be given out again. */
  function AfterExit<T>(s: State<T>, pid: nat): State<T> {
    s.(writers := map k | k in s.writers && s.writers[k].pid != pid :: s.writers[k], counters := s.counters - {pid})
  }

  function Counter<T>(s: State<T>, pid: nat): nat {
    if pid in s.counters then s.counters[pid] else 0
  }

  /** A step that is not possible changes nothing. */
  function Apply<T>(target: string, s: State<T>, step: Step<T>): State<T> {
    match step
    case Call(k, pid, nanos, contents) =>
      if k in s.writers then s
      else s.(writers := s.writers[k := Writer(pid, nanos, Counter(s, pid), contents, Named, false)],
              counters := s.counters[pid := Counter(s, pid) + 1])
    case Act(k, a) =>
      if k in s.writers && Enabled(s.writers[k], a) then ActOn(target, s, k, a) else s
    case Exit(pid) => AfterExit(s, pid)
    case Crash(damage) => AfterCrash(s, damage)
  }

  function Run<T>(target: string, s: State<T>, steps: seq<Step<T>>): State<T> {
    if steps == [] then s else Apply(target, Run(target, s, steps[..|steps| - 1]), steps[|steps| - 1])
  }

  function Start<T>(files: map<string, File<T>>): State<T> {
    State(files, map[], map[], [])
  }

  // ---------------------------------------------------------------------------
  // The invariant
  // ---------------------------------------------------------------------------

  /** The target as it was, or all of what some writer renamed into place; either way on disk. */
  ghost predicate TargetWhole<T>(target: string, original: Option<seq<T>>, s: State<T>) {
    if target in s.files
    then s.files[target].synced && (Some(s.files[target].content) == original || s.files[target].content in s.landed)
    else original.None?
  }

  /** What a writer knows about its temporary file. */
  ghost predicate WriterHolds<T>(target: string, s: State<T>, k: nat)
    requires k in s.writers
  {
    var w := s.writers[k];
    var tmp := TmpOf(target, w);
    && w.pid in s.counters && w.seqNo < s.counters[w.pid]
    && (w.phase.Writing? ==> w.phase.done <= |w.contents| && tmp in s.files && s.files[tmp].content == w.contents[..w.phase.done])
    && (w.phase.Synced? ==> tmp in s.files && s.files[tmp] == File(w.contents, true))
    && (w.phase.Renamed? || (w.phase.Done? && w.phase.cleaned) ==> tmp !in s.files)
    && (w.renamed <==> w.phase.Renamed? || (w.phase.Done? && w.phase.ok))
    && (w.renamed ==> w.contents in s.landed)
  }

  ghost predicate NamesDistinct<T>(s: State<T>) {
    forall j, k :: j in s.writers && k in s.writers && j != k && s.writers[j].pid == s.writers[k].pid ==>
      s.writers[j].seqNo != s.writers[k].seqNo
  }

  ghost predicate Inv<T>(target: string, original: Option<seq<T>>, s: State<T>) {
    && TargetWhole(target, original, s)
    && NamesDistinct(s)
    && forall k :: k in s.writers ==> WriterHolds(target, s, k)
  }

  /** The temporary names of two calls never collide. */
  lemma TmpNamesNeverCollide<T>(target: string, s: State<T>, j: nat, k: nat)
    requires NamesDistinct(s) && j in s.writers && k in s.writers && j != k
    ensures TmpOf(target, s.writers[j]) != TmpOf(target, s.writers[k])
  {
    var v, w := s.writers[j], s.writers[k];
    if TmpOf(target, v) == TmpOf(target, w) {
      TmpNameInjective(target, v.pid, v.nanos, v.seqNo, target, w.pid, w.nanos, w.seqNo);
    }
  }

  lemma ActorHolds<T>(target: string, s: State<T>, k: nat, a: Action)
    requires k in s.writers && Enabled(s.writers[k], a) && WriterHolds(target, s, k)
    ensures WriterHolds(target, ActOn(target, s, k, a), k)
  {
    var w := s.writers[k];
    TmpNameIsNeitherTargetNorLegacy(target, w.pid, w.nanos, w.seqNo);
    assert w.contents[..0] == [] && w.contents[..|w.contents|] == w.contents;
  }

  lemma BystanderHolds<T>(target: string, s: State<T>, k: nat, a: Action, j: nat)
    requires k in s.writers && Enabled(s.writers[k], a)
    requires j in s.writers && j != k && WriterHolds(target, s, j) && NamesDistinct(s)
    ensures WriterHolds(target, ActOn(target, s, k, a), j)
  {
    var v := s.writers[j];
    TmpNamesNeverCollide(target, s, j, k);
    TmpNameIsNeitherTargetNorLegacy(target, v.pid, v.nanos, v.seqNo);
  }

  /** Only a rename that goes through changes the target, and it puts in all of the writer's content. */
  lemma OnlyRenameChangesTarget<T>(target: string, s: State<T>, k: nat, a: Action)
    requires k in s.writers && Enabled(s.writers[k], a) && WriterHolds(target, s, k)
    ensures var s' := ActOn(target, s, k, a);
            if s'.writers[k].phase.Renamed?
            then target in s'.files && s'.files[target] == File(s.writers[k].contents, true)
            else FileAt(s'.files, target) == FileAt(s.files, target)
  {
    var w := s.writers[k];
    TmpNameIsNeitherTargetNorLegacy(target, w.pid, w.nanos, w.seqNo);
  }

  lemma ActKeepsInv<T>(target: string, original: Option<seq<T>>, s: State<T>, k: nat, a: Action)
    requires k in s.writers && Enabled(s.writers[k], a)
    requires Inv(target, original, s)
    ensures Inv(target, original, ActOn(target, s, k, a))
  {
    var s' := ActOn(target, s, k, a);
    OnlyRenameChangesTarget(target, s, k, a);
    forall j | j in s'.writers ensures WriterHolds(target, s', j) {
      if j == k {
        ActorHolds(target, s, k, a);
      } else {
        BystanderHolds(target, s, k, a, j);
      }
    }
  }

  lemma CallKeepsInv<T>(target: string, original: Option<seq<T>>, s: State<T>, step: Step<T>)
    requires Inv(target, original, s) && step.Call?
    ensures Inv(target, original, Apply(target, s, step))
  {
    var s' := Apply(target, s, step);
    forall j | j in s'.writers ensures WriterHolds(target, s', j) {
      if j in s.writers {
        assert WriterHolds(target, s, j);
      }
    }
    forall j, k | j in s'.writers && k in s'.writers && j != k && s'.writers[j].pid == s'.writers[k].pid
      ensures s'.writers[j].seqNo != s'.writers[k].seqNo
    {
      if j in s.writers {
        assert WriterHolds(target, s, j);
      }
      if k in s.writers {
        assert WriterHolds(target, s, k);
      }
    }
  }

  lemma ExitKeepsInv<T>(target: string, original: Option<seq<T>>, s: State<T>, pid: nat)
    requires Inv(target, original, s)
    ensures Inv(target, original, AfterExit(s, pid))
  {
    var s' := AfterExit(s, pid);
    forall j | j in s'.writers ensures WriterHolds(target, s', j) {
      assert WriterHolds(target, s, j);
    }
  }

  lemma {:induction false} RunKeepsInv<T>(target: string, original: Option<seq<T>>, s: State<T>, steps: seq<Step<T>>)
    requires Inv(target, original, s)
    ensures Inv(target, original, Run(target, s, steps))
  {
    if steps != [] {
      RunKeepsInv(target, original, s, steps[..|steps| - 1]);
      var m, step := Run(target, s, steps[..|steps| - 1]), steps[|steps| - 1];
      match step
      case Call(_, _, _, _) =>
        CallKeepsInv(target, original, m, step);
      case Act(k, a) =>
        if k in m.writers && Enabled(m.writers[k], a) {
          ActKeepsInv(target, original, m, k, a);
        }
      case Exit(pid) =>
        ExitKeepsInv(target, original, m, pid);
      case Crash(_) =>
    }
  }

  // ---------------------------------------------------------------------------
  // The theorems
  // ---------------------------------------------------------------------------

  /**
   Never a partial mix. After any interleaving of writers, exits and crashes, the
   target holds what it held at first or the complete content of a writer whose rename went
   through - and it is synced, so that the next crash cannot harm it either.
   */
  lemma NeverTorn<T>(target: string, files: map<string, File<T>>, steps: seq<Step<T>>)
    requires target in files ==> files[target].synced
    ensures var s := Run(target, Start(files), steps);
            || (ContentOf(s.files, target) == ContentOf(files, target))
            || (target in s.files && s.files[target].synced && s.files[target].content in s.landed)
    ensures var s := Run(target, Start(files), steps);
            target in s.files ==> s.files[target].synced
    ensures target in files ==> target in Run(target, Start(files), steps).files
  {
    RunKeepsInv(target, ContentOf(files, target), Start(files), steps);
  }

  /** What counts as landed is exactly the contents of writers that reached their rename. */
  lemma {:induction false} LandedWasRenamed<T>(target: string, files: map<string, File<T>>, steps: seq<Step<T>>, content: seq<T>)
    returns (i: nat, k: nat)
    requires content in Run(target, Start(files), steps).landed
    ensures i < |steps| && steps[i].Act? && steps[i].w == k && steps[i].action == Rename(true)
    ensures var s := Run(target, Start(files), steps[..i]);
            && k in s.writers && s.writers[k].contents == content
            && Apply(target, s, steps[i]).writers[k].phase.Renamed?
  {
    var n := |steps| - 1;
    var m := Run(target, Start(files), steps[..n]);
    if content in m.landed {
      i, k := LandedWasRenamed(target, files, steps[..n], content);
      assert steps[..n][..i] == steps[..i];
    } else {
      i, k := n, steps[n].w;
    }
  }

  /**
   How a call ends. One that returns an error never got through its rename; one that returns
   success did, with all its content; and neither leaves its temporary file behind unless a
   cleanup failed.
   */
  lemma HowCallsEnd<T>(target: string, files: map<string, File<T>>, steps: seq<Step<T>>, k: nat)
    requires target in files ==> files[target].synced
    requires k in Run(target, Start(files), steps).writers
    requires Run(target, Start(files), steps).writers[k].phase.Done?
    ensures var s := Run(target, Start(files), steps);
            var w := s.writers[k];
            && (w.renamed <==> w.phase.ok)
            && (w.phase.ok ==> w.contents in s.landed)
            && (w.phase.cleaned ==> TmpOf(target, w) !in s.files)
  {
    RunKeepsInv(target, ContentOf(files, target), Start(files), steps);
    assert WriterHolds(target, Run(target, Start(files), steps), k);
  }

  /**
   In every run, pids given out again included, two calls of running processes work on
   different temporary files.
   */
  lemma ConcurrentNamesDiffer<T>(target: string, files: map<string, File<T>>, steps: seq<Step<T>>, j: nat, k: nat)
    requires target in files ==> files[target].synced
    requires j in Run(target, Start(files), steps).writers && k in Run(target, Start(files), steps).writers && j != k
    ensures var s := Run(target, Start(files), steps); TmpOf(target, s.writers[j]) != TmpOf(target, s.writers[k])
  {
    RunKeepsInv(target, ContentOf(files, target), Start(files), steps);
    TmpNamesNeverCollide(target, Run(target, Start(files), steps), j, k);
  }

  lemma RunSnoc<T>(target: string, s: State<T>, steps: seq<Step<T>>, step: Step<T>)
    ensures Run(target, s, steps + [step]) == Apply(target, Run(target, s, steps), step)
  {
    assert (steps + [step])[..|steps|] == steps;
  }

  // ---------------------------------------------------------------------------
  // The writer as the source runs it
  // ---------------------------------------------------------------------------

  /**
   Which system calls work: making the directory, removing the legacy leftover, creation, the
   write up to so many items, sync, rename, removal.
   */
  datatype Disk = Disk(directory: bool, removesLegacy: bool, creates: bool, writesUpTo: nat, syncs: bool, renames: bool, removes: bool)

  /** Nothing goes wrong on this disk for so many items. */
  predicate Works(disk: Disk, n: nat) {
    disk.directory && disk.creates && n <= disk.writesUpTo && disk.syncs && disk.renames
  }

  /** Two directories agree on all other names. */
  ghost predicate Agree<T>(files: map<string, File<T>>, other: map<string, File<T>>, except: set<string>) {
    forall n :: n !in except ==> FileAt(files, n) == FileAt(other, n)
  }

  /** A directory with one process at work, whose counter stands here. */
  function Alone<T>(files: map<string, File<T>>, pid: nat, counter: nat): State<T> {
    Start(files).(counters := map[pid := counter])
  }

  /** The machine in which only call 0 runs has got this far. */
  ghost predicate At<T>(target: string, start: State<T>, steps: seq<Step<T>>, files: map<string, File<T>>, w: Writer<T>) {
    var s := Run(target, start, steps);
    s.files == files && 0 in s.writers && s.writers[0] == w
  }

  lemma Moves<T>(target: string, start: State<T>, steps: seq<Step<T>>, files: map<string, File<T>>, w: Writer<T>, a: Action)
    requires At(target, start, steps, files, w) && Enabled(w, a)
    ensures var phase := PhaseAfter(target, files, w, a);
            At(target, start, steps + [Act(0, a)], FilesAfter(target, files, w, a), w.(phase := phase, renamed := w.renamed || phase.Renamed?))
  {
    RunSnoc(target, start, steps, Act(0, a));
  }

  /** The call has its temporary name and has tried to remove the legacy leftover. */
  lemma Begun<T>(target: string, files: map<string, File<T>>, w: Writer<T>, removed: bool) returns (steps: seq<Step<T>>)
    requires w.phase.Named? && !w.renamed
    ensures At(target, Alone(files, w.pid, w.seqNo), steps,
               if removed then files - {LegacyName(target)} else files, w.(phase := Ready))
  {
    var start := Alone(files, w.pid, w.seqNo);
    RunSnoc(target, start, [], Call(0, w.pid, w.nanos, w.contents));
    steps := [] + [Call(0, w.pid, w.nanos, w.contents)];
    Moves(target, start, steps, files, w, RemoveLegacy(removed));
    steps := steps + [Act(0, RemoveLegacy(removed))];
  }

  class Directory<T> {
    var files: map<string, File<T>>
    var counter: nat
    const pid: nat

    /** `write_all`: the content goes out in pieces of whatever size. */
    method WriteAll(target: string, disk: Disk, ghost start: State<T>, ghost before: seq<Step<T>>, w: Writer<T>)
      returns (ok: bool, ghost steps: seq<Step<T>>)
      requires At(target, start, before, files, w) && w.phase == Writing(0)
      requires TmpOf(target, w) in files && files[TmpOf(target, w)].content == []
      modifies this`files
      ensures At(target, start, steps, files, w.(phase := if ok then Writing(|w.contents|) else Failing))
      ensures Agree(files, old(files), {TmpOf(target, w)})
      ensures ok ==> TmpOf(target, w) in files && files[TmpOf(target, w)].content == w.contents
      ensures ok <==> |w.contents| <= disk.writesUpTo
    {
      var tmp := TmpOf(target, w);
      steps := before;
      var done := 0;
      while done < |w.contents|
        invariant done <= |w.contents|
        invariant At(target, start, steps, files, w.(phase := Writing(done)))
        invariant Agree(files, old(files), {tmp})
        invariant tmp in files && files[tmp].content == w.contents[..done]
        invariant done <= disk.writesUpTo
      {
        var n :| 0 < n <= |w.contents| - done;
        Moves(target, start, steps, files, w.(phase := Writing(done)), Write(n, done + n <= disk.writesUpTo));
        steps := steps + [Act(0, Write(n, done + n <= disk.writesUpTo))];
        if done + n > disk.writesUpTo {
          return false, steps;
        }
        done := done + n;
        files := files[tmp := File(w.contents[..done], false)];
      }
      assert w.contents[..|w.contents|] == w.contents;
      ok := true;
    }

    method SyncAndRename(target: string, disk: Disk, ghost start: State<T>, ghost before: seq<Step<T>>, w: Writer<T>)
      returns (ok: bool, ghost steps: seq<Step<T>>)
      requires At(target, start, before, files, w) && w.phase == Writing(|w.contents|) && !w.renamed
      requires TmpOf(target, w) in files && files[TmpOf(target, w)].content == w.contents
      modifies this`files
      ensures At(target, start, steps, files, w.(phase := if ok then Renamed else Failing, renamed := ok))
      ensures FileAt(files, target) == if ok then Some(File(w.contents, true)) else FileAt(old(files), target)
      ensures ok ==> TmpOf(target, w) !in files
      ensures Agree(files, old(files), {target, TmpOf(target, w)})
      ensures ok <==> disk.syncs && disk.renames
    {
      var tmp := TmpOf(target, w);
      TmpNameIsNeitherTargetNorLegacy(target, w.pid, w.nanos, w.seqNo);
      steps := before;
      Moves(target, start, steps, files, w, Sync(disk.syncs));
      steps := steps + [Act(0, Sync(disk.syncs))];
      if !disk.syncs {
        return false, steps;
      }
      files := files[tmp := files[tmp].(synced := true)];
      Moves(target, start, steps, files, w.(phase := Synced), Rename(disk.renames));
      steps := steps + [Act(0, Rename(disk.renames))];
      if !disk.renames {
        return false, steps;
      }
      files := (files - {tmp})[target := files[tmp]];
      ok := true;
    }

    /** The part of the call inside its closure: create, write, sync, rename. */
    method Attempt(target: string, disk: Disk, ghost start: State<T>, ghost before: seq<Step<T>>, w: Writer<T>)
      returns (ok: bool, ghost steps: seq<Step<T>>)
      requires At(target, start, before, files, w) && w.phase.Ready? && !w.renamed && disk.directory
      modifies this`files
      ensures At(target, start, steps, files, w.(phase := if ok then Renamed else Failing, renamed := ok))
      ensures FileAt(files, target) == if ok then Some(File(w.contents, true)) else FileAt(old(files), target)
      ensures ok ==> TmpOf(target, w) !in files
      ensures Agree(files, old(files), {target, TmpOf(target, w)})
      ensures ok <==> Works(disk, |w.contents|) && TmpOf(target, w) !in old(files)
    {
      var tmp := TmpOf(target, w);
      TmpNameIsNeitherTargetNorLegacy(target, w.pid, w.nanos, w.seqNo);
      Moves(target, start, before, files, w, Create(disk.creates));
      steps := before + [Act(0, Create(disk.creates))];
      if !disk.creates || tmp in files {
        return false, steps;
      }
      files := files[tmp := File([], false)];
      ok, steps := WriteAll(target, disk, start, steps, w.(phase := Writing(0)));
      if !ok {
        return false, steps;
      }
      ok, steps := SyncAndRename(target, disk, start, steps, w.(phase := Writing(|w.contents|)));
    }

    /** The call once the directory is there. */
    method WriteInDirectory(target: string, contents: seq<T>, nanos: nat, disk: Disk)
      returns (ok: bool, ghost steps: seq<Step<T>>)
      requires disk.directory
      modifies this
      ensures counter == old(counter) + 1
      ensures FileAt(files, target) == if ok then Some(File(contents, true)) else FileAt(old(files), target)
      ensures ok || disk.removes ==> TmpName(target, pid, nanos, old(counter)) !in files
      ensures Agree(files, old(files), {target, TmpName(target, pid, nanos, old(counter)), LegacyName(target)})
      ensures FileAt(files, LegacyName(target)) == if disk.removesLegacy then None else FileAt(old(files), LegacyName(target))
      ensures ok <==> Works(disk, |contents|) && TmpName(target, pid, nanos, old(counter)) !in old(files)
      ensures exists w: Writer<T> :: At(target, Alone(old(files), pid, old(counter)), steps, files, w)
                && w.contents == contents && w.phase == Done(ok, ok || disk.removes)
    {
      ghost var start := Alone(files, pid, counter);
      TmpNameIsNeitherTargetNorLegacy(target, pid, nanos, counter);
      var w := Writer(pid, nanos, counter, contents, Named, false);
      var tmp := TmpOf(target, w);
      counter := counter + 1;
      steps := Begun(target, files, w, disk.removesLegacy);
      files := if disk.removesLegacy then files - {LegacyName(target)} else files;
      w := w.(phase := Ready);
      assert FileAt(files, LegacyName(target)) == if disk.removesLegacy then None else FileAt(old(files), LegacyName(target));
      ok, steps := Attempt(target, disk, start, steps, w);
      ghost var end := w.(phase := if ok then Renamed else Failing, renamed := ok);
      ghost var last := if ok then Return else Cleanup(disk.removes);
      Moves(target, start, steps, files, end, last);
      steps := steps + [Act(0, last)];
      if !ok {
        files := if disk.removes then files - {tmp} else files;
      }
      ghost var final := end.(phase := Done(ok, ok || disk.removes));
      assert At(target, start, steps, files, final);
    }

    /**
     `write_atomic`. Without a directory to write to it does nothing. Otherwise it is by itself a
     run of the machine that ends in its response; on success the target holds exactly the new
     content, on failure what it held before.
     */
    method WriteAtomic(target: string, contents: seq<T>, nanos: nat, disk: Disk)
      returns (ok: bool, ghost steps: seq<Step<T>>)
      modifies this
      ensures !disk.directory ==> counter == old(counter) && files == old(files)
      ensures disk.directory ==> counter == old(counter) + 1
      ensures FileAt(files, target) == if ok then Some(File(contents, true)) else FileAt(old(files), target)
      ensures disk.directory && (ok || disk.removes) ==> TmpName(target, pid, nanos, old(counter)) !in files
      ensures disk.directory && disk.removesLegacy ==> "." + target + ".tmp" !in files
      ensures Agree(files, old(files), {target, TmpName(target, pid, nanos, old(counter)), "." + target + ".tmp"})
      ensures ok <==> Works(disk, |contents|) && TmpName(target, pid, nanos, old(counter)) !in old(files)
      ensures disk.directory ==>
                exists w: Writer<T> :: At(target, Alone(old(files), pid, old(counter)), steps, files, w)
                  && w.contents == contents && w.phase == Done(ok, ok || disk.removes)
    {
      if !disk.directory {
        return false, [];
      }
      ok, steps := WriteInDirectory(target, contents, nanos, disk);
    }
  }
}
