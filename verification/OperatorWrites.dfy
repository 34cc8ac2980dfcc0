/** The operator command that opens or closes an organization for writes
    (scripts/organization-writes-command.ts), run against a database in which any
    interaction may fail, before or after it took effect. */
module OperatorWrites {
  import opened Text

  datatype Status = Status(active: bool, realMode: bool, enabledAt: Maybe<nat>)
  datatype Mutation = Mutation(status: Status, changed: bool)

  /** The database function behind the command; it leaves alone what it calls unchanged. */
  type Mutator = (Status, bool) -> Mutation

  ghost predicate Honest(mutate: Mutator) {
    forall s, enable :: !mutate(s, enable).changed ==> mutate(s, enable).status == s
  }

  datatype Command = ShowStatus | SetWrites(enable: bool)

  datatype Op = Connect | Begin | StatementTimeout | LockTimeout | Inspect | Mutate | Commit | Rollback | Release | End

  /** What becomes of an interaction: it may be lost, or take effect and lose its answer. */
  datatype Fate = Answered | Lost | AnswerLost

  /** The row that comes with an answer: usable, not there, of another organization, with a
      bad timestamp, or without the flag that says whether anything changed. */
  datatype Row = Sound | Missing | OtherOrganization | BadTimestamp | NoFlag

  /** Whether `statusFromRow` and the tests before it take the row; only a mutation needs
      the flag. */
  predicate Taken(op: Op, row: Row) {
    row.Sound? || (row.NoFlag? && op == Inspect)
  }

  /** A status is read off any row of the organization, a change only off one that says
      whether it was made. */
  lemma TakenExactly(row: Row)
    ensures Taken(Inspect, row) <==> !(row.Missing? || row.OtherOrganization? || row.BadTimestamp?)
    ensures Taken(Mutate, row) <==> !(row.Missing? || row.OtherOrganization? || row.BadTimestamp? || row.NoFlag?)
  {
  }

  datatype Summary = Enabled | AlreadyEnabled | Disabled | AlreadyDisabled | Shown

  datatype Output = Output(
    outcome: Summary, status: Status, writesEnabled: bool, effective: bool, requestId: Maybe<Str>)

  datatype Result = Printed(out: Output) | Failure(requestId: Maybe<Str>) | NoConnection

  predicate Effective(s: Status, gate: bool) {
    gate && s.active && s.realMode && s.enabledAt.Some?
  }

  /** The word printed: plain for a change made, with "already" for none. */
  predicate Worded(outcome: Summary, command: Command, changed: bool) {
    && (outcome == Enabled <==> command == SetWrites(true) && changed)
    && (outcome == AlreadyEnabled <==> command == SetWrites(true) && !changed)
    && (outcome == Disabled <==> command == SetWrites(false) && changed)
    && (outcome == AlreadyDisabled <==> command == SetWrites(false) && !changed)
    && (outcome == Shown <==> command.ShowStatus?)
  }

  /** What may be printed about what is stored. */
  predicate Truthful(out: Output, stored: Status, gate: bool) {
    && out.status == stored && (out.writesEnabled <==> stored.enabledAt.Some?)
    && (out.effective <==> gate && stored.active && stored.realMode && stored.enabledAt.Some?)
    && (out.outcome == Enabled || out.outcome == AlreadyEnabled ==>
          stored.enabledAt.Some? && stored.active && stored.realMode)
    && (out.outcome == Disabled || out.outcome == AlreadyDisabled ==> stored.enabledAt.None?)
  }

  /** What is printed of a state that has been reached is true of it. */
  lemma OutputTruthful(command: Command, s: Status, gate: bool, changed: bool, requestId: Maybe<Str>)
    requires command.SetWrites? ==>
      (s.enabledAt.Some? <==> command.enable) && (command.enable ==> s.active && s.realMode)
    ensures Truthful(OutputFromStatus(command, s, gate, changed, requestId), s, gate)
  {
  }

  /** `outputFromStatus`. Effective writes are enabled and gated; a request id is printed
      exactly on a change. */
  function OutputFromStatus(command: Command, s: Status, gate: bool, changed: bool, requestId: Maybe<Str>)
    : (out: Output)
    ensures out.effective ==> gate && out.writesEnabled
    ensures requestId.Some? && requestId.value != [] ==> (out.requestId.Some? <==> changed)
    ensures Worded(out.outcome, command, changed)
  {
    var outcome :=
      if command == SetWrites(true) then (if changed then Enabled else AlreadyEnabled)
      else if command == SetWrites(false) then (if changed then Disabled else AlreadyDisabled)
      else Shown;
    Output(outcome, s, s.enabledAt.Some?, Effective(s, gate),
           if requestId.Some? && requestId.value != [] && changed then requestId else None)
  }

  /** The check of the mutation adapter on what the database answered. */
  predicate Reached(m: Mutation, enable: bool) {
    && (m.status.enabledAt.Some? <==> enable)
    && (m.status.enabledAt.Some? ==> m.status.active && m.status.realMode)
  }

  /** How often an interaction was made. */
  function Times(log: seq<Op>, op: Op): nat {
    if log == [] then 0
    else Times(log[..|log| - 1], op) + if log[|log| - 1] == op then 1 else 0
  }

  lemma NothingYet(log: seq<Op>)
    requires log == []
    ensures forall o :: Times(log, o) == 0
  {
  }

  /** Each of the next `n` interactions comes back with its answer. */
  predicate AllAnswered(fates: nat -> Fate, from: nat, n: nat) {
    forall i: nat | from <= i < from + n :: fates(i) == Answered
  }

  lemma FiveAnswered(fates: nat -> Fate, from: nat)
    ensures AllAnswered(fates, from, 5) <==>
      && fates(from) == Answered && fates(from + 1) == Answered && fates(from + 2) == Answered
      && fates(from + 3) == Answered && fates(from + 4) == Answered
  {
    if fates(from) == fates(from + 1) == fates(from + 2) == fates(from + 3) == fates(from + 4) == Answered {
      forall i: nat | from <= i < from + 5 ensures fates(i) == Answered {
        assert i == from || i == from + 1 || i == from + 2 || i == from + 3 || i == from + 4;
      }
    }
  }

  lemma OneThenFive(fates: nat -> Fate)
    ensures AllAnswered(fates, 0, 6) <==> fates(0) == Answered && AllAnswered(fates, 1, 5)
  {
    if fates(0) == Answered && AllAnswered(fates, 1, 5) {
      forall i: nat | i < 6 ensures fates(i) == Answered {
        assert i == 0 || 1 <= i < 1 + 5;
      }
    }
  }

  class Database {
    const fates: nat -> Fate
    /** The row that the answer to the n-th interaction would bring. */
    const rows: nat -> Row
    const mutate: Mutator
    var log: seq<Op>
    var committed: Status
    var pending: Status
    /** A mutation came back with a row that is taken. */
    var answered: bool

    constructor (fates: nat -> Fate, rows: nat -> Row, mutate: Mutator, status: Status)
      ensures log == [] && committed == pending == status && !answered
      ensures this.fates == fates && this.rows == rows && this.mutate == mutate
    {
      this.fates, this.rows, this.mutate := fates, rows, mutate;
      log := [];
      committed := status;
      pending := status;
      answered := false;
    }

    /** One interaction: recorded, perhaps done, perhaps answered. */
    method Do(op: Op, enable: bool) returns (ok: bool)
      modifies this
      ensures log == old(log) + [op] && ok == (fates(|old(log)|) == Answered)
      ensures answered == (old(answered) || (ok && op == Mutate && Taken(op, rows(|old(log)|))))
      ensures forall o :: Times(log, o) == old(Times(log, o)) + if o == op then 1 else 0
      ensures var done := fates(|old(log)|) != Lost;
              && committed == (if done && op == Commit then old(pending) else old(committed))
              && pending == (if done && (op == Begin || op == Rollback) then old(committed)
                             else if done && op == Mutate then mutate(old(pending), enable).status
                             else old(pending))
    {
      var fate := fates(|log|);
      assert (log + [op])[..|log|] == log;
      log := log + [op];
      if fate != Lost {
        if op == Commit {
          committed := pending;
        } else if op == Begin || op == Rollback {
          pending := committed;
        } else if op == Mutate {
          pending := mutate(pending, enable).status;
        }
      }
      ok := fate == Answered;
      answered := answered || (ok && op == Mutate && Taken(op, rows(|log| - 1)));
    }

    /** The database answered a mutation that changed the organization as asked. */
    predicate ChangeAnswered(command: Command, before: Status)
      reads this
    {
      && command.SetWrites? && answered && mutate(before, command.enable).changed
      && Reached(mutate(before, command.enable), command.enable)
    }

    /** The row of interaction `n` must be taken; a change also needs a UUID as its request
        id and an answer that reached what was asked. */
    predicate MayPrint(command: Command, n: nat, requestId: Str, isUuid: Str -> bool, before: Status) {
      && Taken(if command.ShowStatus? then Inspect else Mutate, rows(n))
      && (command.SetWrites? ==> isUuid(requestId) && Reached(mutate(before, command.enable), command.enable))
    }

    /** BEGIN and the two timeouts; says whether BEGIN and whether all came back. */
    method BeginBlock() returns (began: bool, ready: bool)
      requires pending == committed && !answered
      modifies this
      ensures pending == committed == old(committed) && !answered
      ensures began == (fates(|old(log)|) == Answered)
      ensures ready <==> began && fates(|old(log)| + 1) == Answered && fates(|old(log)| + 2) == Answered
      ensures ready ==> |log| == |old(log)| + 3
      ensures Times(log, Begin) == old(Times(log, Begin)) + 1
      ensures forall o :: o !in {Begin, StatementTimeout, LockTimeout} ==> Times(log, o) == old(Times(log, o))
    {
      hide Times;
      ready := false;
      began := Do(Begin, false);
      if began {
        ready := Do(StatementTimeout, false);
        if ready {
          ready := Do(LockTimeout, false);
        }
      }
    }

    /** The `try` block of `executeOrganizationWriteCommand`: its output if it got to the
        end, whether BEGIN returned, and the audit request id noted on the way. */
    method Attempt(command: Command, gate: bool, requestId: Str, isUuid: Str -> bool)
      returns (r: Maybe<Output>, began: bool, audit: Maybe<Str>)
      requires pending == committed && Honest(mutate) && !answered
      modifies this
      ensures audit.Some? <==> ChangeAnswered(command, old(committed))
      ensures forall o :: o in {Connect, Rollback, Release, End} ==> Times(log, o) == old(Times(log, o))
      ensures Times(log, Begin) == old(Times(log, Begin)) + 1
      ensures Times(log, Commit) <= old(Times(log, Commit)) + 1
      ensures began == (fates(|old(log)|) == Answered) && (r.Some? || audit.Some? ==> began)
      ensures audit.Some? ==>
        audit == Some(requestId)
      ensures r.Some? && command.SetWrites? ==>
        var m := mutate(old(committed), command.enable);
        && committed == m.status && Reached(m, command.enable) && isUuid(requestId)
        && audit == (if m.changed then Some(requestId) else None)
        && r.value == OutputFromStatus(command, committed, gate, m.changed, Some(requestId))
      ensures r.Some? && command.ShowStatus? ==>
        committed == old(committed) && r.value == OutputFromStatus(command, committed, gate, false, None)
      ensures r.Some? <==>
        AllAnswered(fates, |old(log)|, 5) && MayPrint(command, |old(log)| + 3, requestId, isUuid, old(committed))
      ensures audit.None? ==> committed == old(committed)
      ensures audit.Some? ==> committed == old(committed) || committed == mutate(old(committed), command.enable).status
    {
      hide Times, OutputFromStatus, Reached, AllAnswered;
      FiveAnswered(fates, |log|);
      r, audit := None, None;
      var ok: bool;
      began, ok := BeginBlock();
      if !ok { return; }
      if command.ShowStatus? {
        r := Show(command, gate);
      } else {
        r, audit := Change(command, gate, requestId, isUuid);
      }
    }

    /** The rest of the `try` block for a status. */
    method Show(command: Command, gate: bool) returns (r: Maybe<Output>)
      requires pending == committed && !answered && command.ShowStatus?
      modifies this
      ensures committed == old(committed) && !answered
      ensures forall o :: o in {Connect, Begin, Rollback, Release, End} ==> Times(log, o) == old(Times(log, o))
      ensures Times(log, Commit) <= old(Times(log, Commit)) + 1
      ensures var n := |old(log)|;
        r.Some? <==> fates(n) == Answered && Taken(Inspect, rows(n)) && fates(n + 1) == Answered
      ensures r.Some? ==> r.value == OutputFromStatus(command, committed, gate, false, None)
    {
      hide Times, OutputFromStatus;
      r := None;
      var status := pending;
      var ok := Do(Inspect, false);
      if !ok || !Taken(Inspect, rows(|log| - 1)) { return; }
      ok := Do(Commit, false);
      if !ok { return; }
      r := Some(OutputFromStatus(command, status, gate, false, None));
    }

    /** The rest of the `try` block for a change. */
    method Change(command: Command, gate: bool, requestId: Str, isUuid: Str -> bool)
      returns (r: Maybe<Output>, audit: Maybe<Str>)
      requires pending == committed && Honest(mutate) && !answered && command.SetWrites?
      modifies this
      ensures audit.Some? <==> ChangeAnswered(command, old(committed))
      ensures forall o :: o in {Connect, Begin, Rollback, Release, End} ==> Times(log, o) == old(Times(log, o))
      ensures Times(log, Commit) <= old(Times(log, Commit)) + 1
      ensures audit.Some? ==> audit == Some(requestId)
      ensures var n, m := |old(log)|, mutate(old(committed), command.enable);
        r.Some? <==>
          && isUuid(requestId) && fates(n) == Answered && Taken(Mutate, rows(n)) && Reached(m, command.enable)
          && fates(n + 1) == Answered
      ensures r.Some? ==>
        var m := mutate(old(committed), command.enable);
        && committed == m.status && audit == (if m.changed then Some(requestId) else None)
        && r.value == OutputFromStatus(command, committed, gate, m.changed, Some(requestId))
      ensures audit.None? ==> committed == old(committed)
      ensures audit.Some? ==> committed == old(committed) || committed == mutate(old(committed), command.enable).status
    {
      hide Times, OutputFromStatus, Reached;
      r, audit := None, None;
      if !isUuid(requestId) { return; }
      var result := mutate(pending, command.enable);
      var ok := Do(Mutate, command.enable);
      if !ok || !Taken(Mutate, rows(|log| - 1)) || !Reached(result, command.enable) { return; }
      if result.changed {
        audit := Some(requestId);
      }
      ok := Do(Commit, false);
      if !ok { return; }
      r := Some(OutputFromStatus(command, result.status, gate, result.changed, Some(requestId)));
    }

    /** `executeOrganizationWriteCommand`: the `try` block, and ROLLBACK after a failure
        behind BEGIN. */
    method ExecuteCommand(command: Command, gate: bool, requestId: Str, isUuid: Str -> bool) returns (r: Result)
      requires pending == committed && Honest(mutate) && !answered
      modifies this
      ensures !r.NoConnection?
      ensures forall o :: o in {Connect, Release, End} ==> Times(log, o) == old(Times(log, o))
      ensures Times(log, Begin) == old(Times(log, Begin)) + 1
      ensures Times(log, Commit) <= old(Times(log, Commit)) + 1
      ensures Times(log, Rollback) ==
              old(Times(log, Rollback)) + if r.Failure? && fates(|old(log)|) == Answered then 1 else 0
      ensures r.Failure? ==> (r.requestId.Some? <==> ChangeAnswered(command, old(committed)))
      ensures r.Failure? && r.requestId.None? ==> committed == old(committed)
      ensures r.Failure? && r.requestId.Some? ==>
        && r.requestId == Some(requestId)
        && (committed == old(committed) || committed == mutate(old(committed), command.enable).status)
      ensures r.Printed? <==>
        AllAnswered(fates, |old(log)|, 5) && MayPrint(command, |old(log)| + 3, requestId, isUuid, old(committed))
      ensures r.Printed? && command.SetWrites? ==>
        var m := mutate(old(committed), command.enable);
        && committed == m.status && Reached(m, command.enable)
        && r.out == OutputFromStatus(command, committed, gate, m.changed, Some(requestId))
      ensures r.Printed? && command.ShowStatus? ==>
        committed == old(committed) && r.out == OutputFromStatus(command, committed, gate, false, None)
    {
      hide OutputFromStatus, Times, Reached, AllAnswered, MayPrint;
      var out, began, audit := Attempt(command, gate, requestId, isUuid);
      if out.Some? {
        r := Printed(out.value);
      } else {
        if began {
          var rolledBack := Do(Rollback, false);
        }
        r := Failure(audit);
      }
    }

    /** `executeOrganizationWriteOperatorPool`. Under every schedule of failures the client
        is released once if there was one, the pool ended once and last, and ROLLBACK sent
        once exactly after a failure behind BEGIN. A failure reports the request id exactly
        when a changing mutation was answered by a row that is taken; without one the organization is as it was,
        with one it changed at most as asked; a printed result says what is now stored, and
        comes exactly when every interaction is answered, the row is taken and the change
        reached its aim. */
    method Execute(command: Command, gate: bool, requestId: Str, isUuid: Str -> bool) returns (r: Result)
      requires log == [] && !answered && pending == committed && Honest(mutate)
      modifies this
      ensures Times(log, Connect) == 1 && Times(log, End) == 1 && log[|log| - 1] == End
      ensures Times(log, Release) == (if r.NoConnection? then 0 else 1) && Times(log, Commit) <= 1
      ensures Times(log, Rollback) == if r.Failure? && fates(1) == Answered then 1 else 0
      ensures Times(log, Begin) == (if r.NoConnection? then 0 else 1)
      ensures r.NoConnection? ==> committed == old(committed)
      ensures r.Failure? ==> (r.requestId.Some? <==> ChangeAnswered(command, old(committed)))
      ensures r.Failure? && r.requestId.None? ==> committed == old(committed)
      ensures r.Failure? && r.requestId.Some? ==>
        && r.requestId == Some(requestId)
        && (committed == old(committed) || committed == mutate(old(committed), command.enable).status)
      ensures r.Printed? <==> AllAnswered(fates, 0, 6) && MayPrint(command, 4, requestId, isUuid, old(committed))
      ensures r.Printed? && command.SetWrites? ==>
        var m := mutate(old(committed), command.enable);
        && committed == m.status && Reached(m, command.enable)
        && r.out == OutputFromStatus(command, committed, gate, m.changed, Some(requestId))
      ensures r.Printed? && command.ShowStatus? ==>
        committed == old(committed) && r.out == OutputFromStatus(command, committed, gate, false, None)
      ensures r.Printed? ==>
        && Truthful(r.out, committed, gate)
        && Worded(r.out.outcome, command, command.SetWrites? && mutate(old(committed), command.enable).changed)
    {
      hide OutputFromStatus, Times, AllAnswered, MayPrint, Worded, Truthful;
      OneThenFive(fates);
      NothingYet(log);
      var connected := Do(Connect, false);
      if connected {
        r := ExecuteCommand(command, gate, requestId, isUuid);
        if r.Printed? {
          ghost var changed := command.SetWrites? && mutate(old(committed), command.enable).changed;
          OutputTruthful(command, committed, gate, changed, if command.SetWrites? then Some(requestId) else None);
        }
        var released := Do(Release, false);
      } else {
        r := NoConnection;
      }
      var ended := Do(End, false);
    }
  }
}
