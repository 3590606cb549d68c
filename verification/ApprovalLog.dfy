/**
 The approval log of crates/oc-core/src/approval_log.rs: pending and resolved events, replayed
 after a restart, and compacted by dropping every event of an id that was resolved long ago.
 */
module ApprovalLog {
  import opened Results
  import opened Seqs

  const SECONDS_PER_DAY: nat := 86_400

  /** Id is `Uuid`; A is what an approval carries besides its id. */
  datatype Approval<Id, A> = Approval(id: Id, details: A)

  datatype Event<Id, A> =
    | Pending(id: Id, at: nat, approval: Approval<Id, A>)
    | Resolved(id: Id, at: nat, decision: string, reason: string)

  datatype LogError = Io

  /** White space, text that is no event, or an event. */
  datatype Line<Id, A> = Blank | Malformed(text: string) | Logged(event: Event<Id, A>)

  // ---------------------------------------------------------------------------
  // Replay
  // ---------------------------------------------------------------------------

  function Applied<Id, A>(open: map<Id, Approval<Id, A>>, l: Line<Id, A>): map<Id, Approval<Id, A>> {
    match l
    case Logged(Pending(id, _, approval)) => open[id := approval]
    case Logged(Resolved(id, _, _, _)) => open - {id}
    case _ => open
  }

  /** The approvals still open after these lines. */
  function Replay<Id, A>(lines: seq<Line<Id, A>>): map<Id, Approval<Id, A>> {
    if lines == [] then map[] else Applied(Replay(lines[..|lines| - 1]), lines[|lines| - 1])
  }

  /** The last event of the id in these lines, if any, is at position i. */
  ghost predicate LastEvent<Id, A>(lines: seq<Line<Id, A>>, i: nat, id: Id) {
    && i < |lines| && About(lines[i], id)
    && forall j :: i < j < |lines| ==> !About(lines[j], id)
  }

  ghost predicate About<Id, A>(l: Line<Id, A>, id: Id) {
    l.Logged? && l.event.id == id
  }

  /** An id is open exactly when its last event is a pending one, and then with that approval. */
  lemma {:induction false} OpenIffLastIsPending<Id, A>(lines: seq<Line<Id, A>>, id: Id)
    ensures id in Replay(lines) <==> exists i: nat :: LastEvent(lines, i, id) && lines[i].event.Pending?
    ensures forall i: nat :: LastEvent(lines, i, id) && lines[i].event.Pending? ==>
              id in Replay(lines) && Replay(lines)[id] == lines[i].event.approval
  {
    if lines != [] {
      var init, l := lines[..|lines| - 1], lines[|lines| - 1];
      OpenIffLastIsPending(init, id);
      if About(l, id) {
        assert LastEvent(lines, |lines| - 1, id);
      } else {
        forall i: nat ensures LastEvent(lines, i, id) <==> LastEvent(init, i, id) {
          if LastEvent(init, i, id) {
            assert lines[i] == init[i];
          }
        }
      }
    }
  }

  // ---------------------------------------------------------------------------
  // Compaction
  // ---------------------------------------------------------------------------

  /** The ids with a resolved event before the cutoff. */
  function Stale<Id(==), A>(lines: seq<Line<Id, A>>, cutoff: nat): set<Id> {
    if lines == [] then {}
    else
      var l := lines[|lines| - 1];
      Stale(lines[..|lines| - 1], cutoff) +
      if l.Logged? && l.event.Resolved? && l.event.at < cutoff then {l.event.id} else {}
  }

  /** Some line resolves the id, however it was decided, before the cutoff. */
  ghost predicate ResolvedBefore<Id, A>(lines: seq<Line<Id, A>>, id: Id, cutoff: nat) {
    exists i :: 0 <= i < |lines| && lines[i].Logged? && lines[i].event.Resolved? && lines[i].event.id == id && lines[i].event.at < cutoff
  }

  lemma {:induction false} StaleIff<Id, A>(lines: seq<Line<Id, A>>, cutoff: nat, id: Id)
    ensures id in Stale(lines, cutoff) <==> ResolvedBefore(lines, id, cutoff)
  {
    if lines != [] {
      var init, l := lines[..|lines| - 1], lines[|lines| - 1];
      StaleIff(init, cutoff, id);
      assert forall i :: 0 <= i < |init| ==> init[i] == lines[i];
    }
  }

  /** A line that outlives compaction: not white space, and no event of an id resolved before the cutoff. */
  ghost function Outlives<Id, A>(lines: seq<Line<Id, A>>, cutoff: nat): Line<Id, A> -> bool {
    (l: Line<Id, A>) => !l.Blank? && !(l.Logged? && ResolvedBefore(lines, l.event.id, cutoff))
  }

  ghost function Goes<Id, A>(lines: seq<Line<Id, A>>, cutoff: nat): Line<Id, A> -> bool {
    (l: Line<Id, A>) => l.Logged? && ResolvedBefore(lines, l.event.id, cutoff)
  }

  /**
   What compaction does, on the lines alone. If some id was resolved before the cutoff, all lines
   of all such ids go, white space too, and every other line stays, in order; otherwise the file
   is left as it is.
   */
  lemma CompactedMeans<Id, A>(lines: seq<Line<Id, A>>, cutoff: nat)
    ensures |Filter(lines, DroppedBy(Stale(lines, cutoff)))| == |Filter(lines, Goes(lines, cutoff))|
    ensures Compacted(lines, cutoff) ==
            if exists id :: ResolvedBefore(lines, id, cutoff) then Filter(lines, Outlives(lines, cutoff)) else lines
    ensures (exists id :: ResolvedBefore(lines, id, cutoff)) <==> Filter(lines, Goes(lines, cutoff)) != []
  {
    var stale := Stale(lines, cutoff);
    forall l | l in lines ensures DroppedBy(stale)(l) == Goes(lines, cutoff)(l) && KeptBy(stale)(l) == Outlives(lines, cutoff)(l) {
      if l.Logged? {
        StaleIff(lines, cutoff, l.event.id);
      }
    }
    FilterSame(lines, DroppedBy(stale), Goes(lines, cutoff));
    FilterSame(lines, KeptBy(stale), Outlives(lines, cutoff));
    FilterMembers(lines, Goes(lines, cutoff));
    if id :| ResolvedBefore(lines, id, cutoff) {
      var i :| 0 <= i < |lines| && lines[i].Logged? && lines[i].event.Resolved? && lines[i].event.id == id && lines[i].event.at < cutoff;
      assert Goes(lines, cutoff)(lines[i]) && lines[i] in lines;
    }
    if Filter(lines, Goes(lines, cutoff)) != [] {
      var l := Filter(lines, Goes(lines, cutoff))[0];
      assert l in Filter(lines, Goes(lines, cutoff));
      assert ResolvedBefore(lines, l.event.id, cutoff);
    }
  }

  /** After compaction no line is left of an id that had been resolved before the cutoff. */
  lemma NoneLeft<Id, A>(lines: seq<Line<Id, A>>, cutoff: nat, l: Line<Id, A>)
    requires l in Compacted(lines, cutoff) && l.Logged?
    ensures !ResolvedBefore(lines, l.event.id, cutoff)
  {
    CompactedMeans(lines, cutoff);
    FilterMembers(lines, Outlives(lines, cutoff));
  }

  /** Not white space, and not an event of a stale id. */
  function KeptBy<Id(==), A>(stale: set<Id>): Line<Id, A> -> bool {
    (l: Line<Id, A>) => !l.Blank? && !(l.Logged? && l.event.id in stale)
  }

  function DroppedBy<Id(==), A>(stale: set<Id>): Line<Id, A> -> bool {
    (l: Line<Id, A>) => l.Logged? && l.event.id in stale
  }

  /** The lines after compaction; a log without stale events is not even rewritten. */
  function Compacted<Id(==), A>(lines: seq<Line<Id, A>>, cutoff: nat): seq<Line<Id, A>> {
    var stale := Stale(lines, cutoff);
    if Filter(lines, DroppedBy(stale)) == [] then lines else Filter(lines, KeptBy(stale))
  }

  lemma {:induction false} FilterReplay<Id, A>(lines: seq<Line<Id, A>>, stale: set<Id>)
    ensures Replay(Filter(lines, KeptBy(stale))) == Replay(lines) - stale
  {
    if lines != [] {
      var init, l := lines[..|lines| - 1], lines[|lines| - 1];
      FilterReplay(init, stale);
      var kept := Filter(init, KeptBy(stale));
      if KeptBy(stale)(l) {
        assert (kept + [l])[..|kept|] == kept;
      }
    }
  }

  lemma {:induction false} NothingDropped<Id, A>(lines: seq<Line<Id, A>>, stale: set<Id>)
    requires Filter(lines, DroppedBy(stale)) == []
    ensures Replay(lines) - stale == Replay(lines)
  {
    if lines != [] {
      var init, l := lines[..|lines| - 1], lines[|lines| - 1];
      assert !DroppedBy(stale)(l) && Filter(init, DroppedBy(stale)) == [];
      NothingDropped(init, stale);
      assert Replay(lines).Keys !! stale by {
        assert Replay(init).Keys !! stale by {
          assert Replay(init).Keys == (Replay(init) - stale).Keys;
        }
      }
    }
  }

  /** Replay after compaction is replay before it without the stale ids. */
  lemma ReplayAfterCompaction<Id, A>(lines: seq<Line<Id, A>>, cutoff: nat)
    ensures Replay(Compacted(lines, cutoff)) == Replay(lines) - Stale(lines, cutoff)
  {
    var stale := Stale(lines, cutoff);
    if Filter(lines, DroppedBy(stale)) == [] {
      NothingDropped(lines, stale);
    } else {
      FilterReplay(lines, stale);
    }
  }

  /** Compaction loses no open approval exactly when no stale id is still open. */
  lemma CompactionKeepsOpenIff<Id, A>(lines: seq<Line<Id, A>>, cutoff: nat)
    ensures Replay(Compacted(lines, cutoff)) == Replay(lines) <==> Replay(lines).Keys !! Stale(lines, cutoff)
  {
    ReplayAfterCompaction(lines, cutoff);
    assert (Replay(lines) - Stale(lines, cutoff)).Keys == Replay(lines).Keys - Stale(lines, cutoff);
  }

  /** No id is opened again after it was resolved. */
  ghost predicate NeverReopened<Id, A>(lines: seq<Line<Id, A>>) {
    forall i, j :: 0 <= i < j < |lines| && lines[i].Logged? && lines[i].event.Resolved? ==>
      !(lines[j].Logged? && lines[j].event.Pending? && lines[j].event.id == lines[i].event.id)
  }

  lemma {:induction false} StaleIsResolved<Id, A>(lines: seq<Line<Id, A>>, cutoff: nat, id: Id) returns (i: nat)
    requires id in Stale(lines, cutoff)
    ensures i < |lines| && lines[i].Logged? && lines[i].event.Resolved?
    ensures lines[i].event.id == id && lines[i].event.at < cutoff
  {
    var init, l := lines[..|lines| - 1], lines[|lines| - 1];
    if id in Stale(init, cutoff) {
      i := StaleIsResolved(init, cutoff, id);
    } else {
      i := |lines| - 1;
    }
  }

  /** In a log whose ids are never opened again, compaction loses nothing. */
  lemma CompactionIsSafe<Id, A>(lines: seq<Line<Id, A>>, cutoff: nat)
    requires NeverReopened(lines)
    ensures Replay(Compacted(lines, cutoff)) == Replay(lines)
  {
    CompactionKeepsOpenIff(lines, cutoff);
    forall id | id in Stale(lines, cutoff) ensures id !in Replay(lines) {
      var i := StaleIsResolved(lines, cutoff, id);
      OpenIffLastIsPending(lines, id);
      if id in Replay(lines) {
        var k: nat :| LastEvent(lines, k, id) && lines[k].event.Pending?;
        assert About(lines[i], id);
      }
    }
  }

  /** Reopening an id and compacting does lose it: three lines are enough. */
  lemma ReopenedIsLost<Id, A>(id: Id, first: Approval<Id, A>, second: Approval<Id, A>)
    ensures var lines := [Logged(Pending(id, 0, first)), Logged(Resolved(id, 1, "approved", "")), Logged(Pending(id, 9, second))];
            id in Replay(lines) && id !in Replay(Compacted(lines, 5))
  {
    var a, b, c := Logged(Pending(id, 0, first)), Logged(Resolved(id, 1, "approved", "")), Logged(Pending(id, 9, second));
    var lines := [a, b, c];
    assert lines[..2] == [a, b] && [a, b][..1] == [a];
    assert id in Stale([a, b], 5);
    assert id in Stale(lines, 5);
    ReplayAfterCompaction(lines, 5);
  }

  lemma {:induction false} StaleOfFilter<Id, A>(lines: seq<Line<Id, A>>, cutoff: nat, gone: set<Id>)
    ensures Stale(Filter(lines, KeptBy(gone)), cutoff) == Stale(lines, cutoff) - gone
  {
    if lines != [] {
      var init, l := lines[..|lines| - 1], lines[|lines| - 1];
      StaleOfFilter(init, cutoff, gone);
      var kept := Filter(init, KeptBy(gone));
      if KeptBy(gone)(l) {
        assert (kept + [l])[..|kept|] == kept;
      }
    }
  }

  /** Compacting twice at one cutoff is compacting once; the second time drops nothing. */
  lemma CompactionIsIdempotent<Id, A>(lines: seq<Line<Id, A>>, cutoff: nat)
    ensures Compacted(Compacted(lines, cutoff), cutoff) == Compacted(lines, cutoff)
    ensures Filter(Compacted(lines, cutoff), DroppedBy(Stale(Compacted(lines, cutoff), cutoff))) == []
  {
    var stale := Stale(lines, cutoff);
    if Filter(lines, DroppedBy(stale)) != [] {
      StaleOfFilter(lines, cutoff, stale);
      var kept := Filter(lines, KeptBy(stale));
      assert Stale(kept, cutoff) == {};
      FilterNone(kept, DroppedBy<Id, A>({}));
    }
  }

  /** The lines kept and the event lines dropped are all the lines but the blank ones. */
  lemma {:induction false} DroppedPlusKept<Id, A>(lines: seq<Line<Id, A>>, stale: set<Id>)
    ensures |Filter(lines, KeptBy(stale))| + |Filter(lines, DroppedBy(stale))| == |Filter(lines, NotBlank())|
  {
    if lines != [] {
      DroppedPlusKept(lines[..|lines| - 1], stale);
    }
  }

  function NotBlank<Id, A>(): Line<Id, A> -> bool {
    (l: Line<Id, A>) => !l.Blank?
  }

  // ---------------------------------------------------------------------------
  // Whole runs
  // ---------------------------------------------------------------------------

  datatype LogOp<Id, A> = Append(event: Event<Id, A>) | Compact(cutoff: nat)

  /** The file after a run of appends and compactions. */
  function Play<Id(==), A>(ops: seq<LogOp<Id, A>>): seq<Line<Id, A>> {
    if ops == [] then []
    else
      var lines := Play(ops[..|ops| - 1]);
      match ops[|ops| - 1]
      case Append(e) => lines + [Logged(e)]
      case Compact(cutoff) => Compacted(lines, cutoff)
  }

  /** The events the run appends. */
  function Emitted<Id, A>(ops: seq<LogOp<Id, A>>): seq<Line<Id, A>> {
    if ops == [] then []
    else
      var lines := Emitted(ops[..|ops| - 1]);
      match ops[|ops| - 1]
      case Append(e) => lines + [Logged(e)]
      case Compact(_) => lines
  }

  lemma NeverReopenedSnoc<Id, A>(lines: seq<Line<Id, A>>, l: Line<Id, A>)
    ensures NeverReopened(lines + [l]) <==>
            && NeverReopened(lines)
            && (l.Logged? && l.event.Pending? ==>
                  forall x :: x in lines && x.Logged? && x.event.Resolved? ==> x.event.id != l.event.id)
  {
    var all := lines + [l];
    assert forall i :: 0 <= i < |lines| ==> all[i] == lines[i];
    if NeverReopened(all) {
      assert forall i :: 0 <= i < |lines| && lines[i].Logged? && lines[i].event.Resolved? ==>
        !(all[|lines|].Logged? && all[|lines|].event.Pending? && all[|lines|].event.id == all[i].event.id);
    }
  }

  lemma {:induction false} FilterNeverReopened<Id, A>(lines: seq<Line<Id, A>>, p: Line<Id, A> -> bool)
    requires NeverReopened(lines)
    ensures NeverReopened(Filter(lines, p))
  {
    if lines != [] {
      var init, l := lines[..|lines| - 1], lines[|lines| - 1];
      assert lines == init + [l];
      NeverReopenedSnoc(init, l);
      FilterNeverReopened(init, p);
      FilterMembers(init, p);
      NeverReopenedSnoc(Filter(init, p), l);
    }
  }

  /**
   Compactions are invisible. However often and with whatever cutoffs a log is compacted
   between its appends, replay gives what the appended events alone give, provided no id is
   opened again after it was resolved.
   */
  lemma {:induction false} CompactionsAreInvisible<Id, A>(ops: seq<LogOp<Id, A>>)
    requires NeverReopened(Emitted(ops))
    ensures Replay(Play(ops)) == Replay(Emitted(ops))
    ensures NeverReopened(Play(ops))
    ensures forall l :: l in Play(ops) ==> l in Emitted(ops)
  {
    if ops != [] {
      var init := ops[..|ops| - 1];
      var lines, all := Play(init), Emitted(init);
      match ops[|ops| - 1]
      case Append(e) =>
        NeverReopenedSnoc(all, Logged(e));
        CompactionsAreInvisible(init);
        NeverReopenedSnoc(lines, Logged(e));
        assert (lines + [Logged(e)])[..|lines|] == lines && (all + [Logged(e)])[..|all|] == all;
      case Compact(cutoff) =>
        CompactionsAreInvisible(init);
        CompactionIsSafe(lines, cutoff);
        FilterNeverReopened(lines, KeptBy(Stale(lines, cutoff)));
        FilterMembers(lines, KeptBy(Stale(lines, cutoff)));
    }
  }

  // ---------------------------------------------------------------------------
  // The log object
  // ---------------------------------------------------------------------------

  class ApprovalLog<Id(==), A> {
    var lines: seq<Line<Id, A>>

    /** `written` says whether the file system took the line. */
    method AppendPending(approval: Approval<Id, A>, now: nat, written: bool) returns (r: Result<(), LogError>)
      modifies this
      ensures r == if written then Ok(()) else Err(Io)
      ensures r.Err? ==> lines == old(lines)
      ensures r.Ok? ==> lines == old(lines) + [Logged(Pending(approval.id, now, approval))]
      ensures r.Ok? ==> Replay(lines) == Replay(old(lines))[approval.id := approval]
    {
      if !written {
        return Err(Io);
      }
      lines := lines + [Logged(Pending(approval.id, now, approval))];
      assert lines[..|lines| - 1] == old(lines);
      r := Ok(());
    }

    method AppendResolved(id: Id, decision: string, reason: string, now: nat, written: bool) returns (r: Result<(), LogError>)
      modifies this
      ensures r == if written then Ok(()) else Err(Io)
      ensures r.Err? ==> lines == old(lines)
      ensures r.Ok? ==> lines == old(lines) + [Logged(Resolved(id, now, decision, reason))]
      ensures r.Ok? ==> Replay(lines) == Replay(old(lines)) - {id}
    {
      if !written {
        return Err(Io);
      }
      lines := lines + [Logged(Resolved(id, now, decision, reason))];
      assert lines[..|lines| - 1] == old(lines);
      r := Ok(());
    }

    /** `replay_unresolved`, line by line. */
    method ReplayUnresolved(readable: bool) returns (r: Result<map<Id, Approval<Id, A>>, LogError>)
      ensures r == if readable then Ok(Replay(lines)) else Err(Io)
    {
      if !readable {
        return Err(Io);
      }
      var open: map<Id, Approval<Id, A>> := map[];
      for i := 0 to |lines|
        invariant open == Replay(lines[..i])
      {
        assert lines[..i + 1][..i] == lines[..i];
        var l := lines[i];
        if l.Logged? {
          match l.event
          case Pending(id, _, approval) => open := open[id := approval];
          case Resolved(id, _, _, _) => open := open - {id};
        }
      }
      assert lines[..|lines|] == lines;
      r := Ok(open);
    }

    /** First pass: the ids resolved before the cutoff. */
    method StaleIds(cutoff: nat) returns (stale: set<Id>)
      ensures stale == Stale(lines, cutoff)
    {
      stale := {};
      for i := 0 to |lines|
        invariant stale == Stale(lines[..i], cutoff)
      {
        assert lines[..i + 1][..i] == lines[..i];
        var l := lines[i];
        if l.Logged? && l.event.Resolved? && l.event.at < cutoff {
          stale := stale + {l.event.id};
        }
      }
      assert lines[..|lines|] == lines;
    }

    /** Second pass: the lines to keep and the number of event lines to drop. */
    method Sift(stale: set<Id>) returns (kept: seq<Line<Id, A>>, removed: nat)
      ensures kept == Filter(lines, KeptBy(stale))
      ensures removed == |Filter(lines, DroppedBy(stale))|
    {
      kept, removed := [], 0;
      for i := 0 to |lines|
        invariant kept == Filter(lines[..i], KeptBy(stale))
        invariant removed == |Filter(lines[..i], DroppedBy(stale))|
      {
        var l := lines[i];
        assert lines[..i + 1] == lines[..i] + [l];
        FilterSnoc(lines[..i], l, KeptBy(stale));
        FilterSnoc(lines[..i], l, DroppedBy(stale));
        if !l.Blank? {
          var keep := match l case Logged(e) => e.id !in stale case _ => true;
          if keep {
            kept := kept + [l];
          } else {
            removed := removed + 1;
          }
        }
      }
      assert lines[..|lines|] == lines;
    }

    /**
     `gc_older_than`: two passes over the lines, then one rewrite if anything was dropped. The
     file may fail to be read, or to be rewritten; then it stays as it is.
     */
    method GcOlderThan(days: nat, now: nat, readable: bool, rewritten: bool) returns (r: Result<nat, LogError>)
      modifies this
      ensures var cutoff := if days * SECONDS_PER_DAY <= now then now - days * SECONDS_PER_DAY else 0;
              var removed := |Filter(old(lines), DroppedBy(Stale(old(lines), cutoff)))|;
              && r == (if readable && (removed > 0 ==> rewritten) then Ok(removed) else Err(Io))
              && lines == if r.Ok? then Compacted(old(lines), cutoff) else old(lines)
      ensures var cutoff := if days * 86_400 <= now then now - days * 86_400 else 0;
              && (r.Ok? ==> r.value == |Filter(old(lines), Goes(old(lines), cutoff))|)
              && (r.Ok? ==> forall l :: l in lines && l.Logged? ==> !ResolvedBefore(old(lines), l.event.id, cutoff))
              && (r.Ok? && r.value > 0 ==> lines == Filter(old(lines), Outlives(old(lines), cutoff)))
              && (r.Err? || r.value == 0 ==> lines == old(lines))
    {
      if !readable {
        return Err(Io);
      }
      var cutoff := if days * SECONDS_PER_DAY <= now then now - days * SECONDS_PER_DAY else 0;
      CompactedMeans(lines, cutoff);
      forall l | l in Compacted(lines, cutoff) && l.Logged? ensures !ResolvedBefore(lines, l.event.id, cutoff) {
        NoneLeft(lines, cutoff, l);
      }
      var stale := StaleIds(cutoff);
      var kept, removed := Sift(stale);
      if removed > 0 {
        if !rewritten {
          return Err(Io);
        }
        lines := kept;
      }
      r := Ok(removed);
    }
  }
}
