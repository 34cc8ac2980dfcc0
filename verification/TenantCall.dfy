/** One call of `withTenantTransaction` in its own control flow (src/db/transaction.ts),
    on a pool where other calls go on between any two of its steps. It is proved against
    the steps of TenantTransactions, so what holds of every run holds of it. */
module TenantCall {
  import opened Text
  import opened TenantTransactions

  /** What one interaction meets: its answer, the state a failure leaves, whether `work`
      swallowed an error, and the client the pool would hand out. */
  datatype Fortune = Fortune(ok: bool, left: Connection, swallowed: bool, client: nat)

  datatype Ending = Invalid | Ended(outcome: Outcome)

  /** A call as it arrives. */
  function Arrived(context: Context, level: Isolation): Call {
    Call(context, level, Waiting, None, 0, false, false, false)
  }

  /** What the others make of a state: those of their steps that can be taken. */
  function Meanwhile(s: State, events: seq<Event>, k: nat): State {
    if events == [] then s
    else
      var before, e := Meanwhile(s, events[..|events| - 1], k), events[|events| - 1];
      if e.k != k && Enabled(before, e) then After(before, e) else before
  }

  /** The pool can hand out the client: a new one or one it holds. */
  predicate Available(s: State, client: nat) {
    && (client in s.connections <==> client in s.holders)
    && (client in s.holders ==> s.holders[client].Pooled?)
  }

  /** Once the call has arrived and the others went on, the pool can hand out the client. */
  predicate HandsOut(s: State, k: nat, context: Context, level: Isolation, events: seq<Event>, client: nat) {
    Available(Meanwhile(s.(calls := s.calls[k := Arrived(context, level)]), events, k), client)
  }

  /** Each of the next `n` interactions goes well. */
  predicate AllOk(fortunes: nat -> Fortune, from: nat, n: nat) {
    forall i: nat | from <= i < from + n :: fortunes(i).ok
  }

  lemma OkSoFar(fortunes: nat -> Fortune, from: nat, n: nat)
    ensures AllOk(fortunes, from, 0)
    ensures AllOk(fortunes, from, n) && fortunes(from + n).ok ==> AllOk(fortunes, from, n + 1)
  {
  }

  lemma FailedOnce(fortunes: nat -> Fortune, from: nat, n: nat, i: nat)
    requires from <= i < from + n && !fortunes(i).ok
    ensures !AllOk(fortunes, from, n)
  {
  }

  /** The connection the work of call `k` began on is recorded, and was prepared for it. */
  ghost predicate Recorded(before: map<nat, Connection>, after: map<nat, Connection>, k: nat, context: Context,
                           level: Isolation)
  {
    k in after && after == before[k := after[k]] && Prepared(after[k], context, level)
  }

  class Pool {
    var state: State
    /** The connections as the work of each call found them. */
    ghost var atWork: map<nat, Connection>
    var clock: nat
    const fortunes: nat -> Fortune
    /** Steps that other calls attempt before the n-th interaction. */
    const others: nat -> seq<Event>

    constructor (fortunes: nat -> Fortune, others: nat -> seq<Event>)
      ensures state == START && clock == 0 && this.fortunes == fortunes && this.others == others
    {
      this.fortunes, this.others := fortunes, others;
      state, clock, atWork := START, 0, map[];
    }

    /** The call stands where it stands, whatever the others do. */
    predicate Mine(k: nat, call: Call)
      reads this
    {
      k in state.calls && state.calls[k] == call
    }

    /** Waiting for an answer: the others take their steps. */
    method Await(k: nat, ghost call: Call) returns (f: Fortune)
      requires Sound(state) && Mine(k, call)
      modifies this
      ensures Sound(state) && Mine(k, call) && atWork == old(atWork)
      ensures clock == old(clock) + 1 && f == fortunes(old(clock))
      ensures state == Meanwhile(old(state), others(old(clock)), k)
    {
      hide Sound, Enabled, After;
      var events := others(clock);
      for i := 0 to |events|
        invariant Sound(state) && Mine(k, call) && clock == old(clock) && atWork == old(atWork)
        invariant state == Meanwhile(old(state), events[..i], k)
      {
        assert events[..i + 1][..i] == events[..i];
        if events[i].k != k && Enabled(state, events[i]) {
          SoundKept(state, events[i]);
          OtherUntouched(state, events[i], k);
          state := After(state, events[i]);
        }
      }
      assert events[..|events|] == events;
      f := fortunes(clock);
      clock := clock + 1;
    }

    method Step(e: Event)
      requires Sound(state) && Enabled(state, e)
      modifies this`state
      ensures Sound(state) && state == After(old(state), e)
    {
      SoundKept(state, e);
      state := After(state, e);
    }

    /** The call has its client and stands at a point of its own. */
    predicate Standing(k: nat, context: Context, level: Isolation, counter: Counter)
      reads this
    {
      && k in state.calls && state.calls[k].context == context && state.calls[k].level == level
      && state.calls[k].client.Some? && state.calls[k].counter == counter
    }

    /** One statement of the `try` block, or `work`. */
    method Statement(k: nat, context: Context, level: Isolation, script: seq<Command>, i: nat) returns (ok: bool)
      requires script == Script(context, level) && i < |script| && Sound(state)
      requires Standing(k, context, level, Before(i))
      requires |script| >= 2 && forall j | 0 <= j < |script| :: script[j] == Commit <==> j == |script| - 1
      requires script[|script| - 2] == Work
      modifies this
      ensures Sound(state) && ok == fortunes(old(clock)).ok && clock == old(clock) + 1
      ensures Standing(k, context, level,
                       if !ok then RollingBack
                       else if i == |script| - 1 then Releasing(Returned, false)
                       else Before(i + 1))
      ensures if script[i] == Work then Recorded(old(atWork), atWork, k, context, level) else atWork == old(atWork)
    {
      hide Enabled, After, Sound, CallSound, Script, Meanwhile, Prepared;
      ghost var call := state.calls[k];
      var f := Await(k, call);
      ok := f.ok;
      CallReady(state, k, script);
      if script[i] == Work {
        WorkPrepared(state, k);
        atWork := atWork[k := Link(state, k)];
      }
      if !ok {
        FailEnabled(state, k, f.left);
        Step(Fail(k, f.left));
      } else if script[i] == Work {
        WorkEnabled(state, k, f.swallowed);
        Step(WorkDone(k, f.swallowed));
      } else {
        AcceptedHere(state, k);
        Step(Succeed(k));
      }
    }

    /** The statements of the `try` block one after the other; stops at the first failure. */
    method Statements(k: nat, context: Context, level: Isolation) returns (committed: bool)
      requires Sound(state) && k in state.calls && state.calls[k].counter == Before(0)
      requires state.calls[k].context == context && state.calls[k].level == level && state.calls[k].client.Some?
      modifies this
      ensures Sound(state) && k in state.calls
      ensures state.calls[k].counter == if committed then Releasing(Returned, false) else RollingBack
      ensures state.calls[k].client.Some?
      ensures committed <==> AllOk(fortunes, old(clock), |Script(context, level)|)
      ensures Recorded(old(atWork), atWork, k, context, level) || (!committed && atWork == old(atWork))
    {
      hide Enabled, After, Sound, CallSound, Script, Meanwhile, AllOk, Recorded;
      OkSoFar(fortunes, clock, 0);
      ScriptPrepares(context, level);
      var script := Script(context, level);
      var i := 0;
      while i < |script|
        invariant 0 <= i <= |script| && Sound(state) && k in state.calls
        invariant Standing(k, context, level, if i < |script| then Before(i) else Releasing(Returned, false))
        invariant clock == old(clock) + i && AllOk(fortunes, old(clock), i)
        invariant if i <= |script| - 2 then atWork == old(atWork)
                  else Recorded(old(atWork), atWork, k, context, level)
      {
        var ok := Statement(k, context, level, script, i);
        if !ok {
          FailedOnce(fortunes, old(clock), |script|, old(clock) + i);
          return false;
        }
        OkSoFar(fortunes, old(clock), i);
        i := i + 1;
      }
      committed := true;
    }

    /** The client of a finished call is in the pool again, unless ROLLBACK failed: its
        answer is the last but one. */
    predicate Freed(k: nat, committed: bool)
      reads this
    {
      && k in state.calls && state.calls[k].client.Some? && state.calls[k].client.value in state.holders
      && (committed || clock >= 2)
      && state.holders[state.calls[k].client.value] ==
         if committed || fortunes(clock - 2).ok then Pooled else Discarded
    }

    /** ROLLBACK after a failure, and in any case the release. */
    method Conclude(k: nat, committed: bool)
      requires Sound(state) && k in state.calls && state.calls[k].client.Some?
      requires state.calls[k].counter == if committed then Releasing(Returned, false) else RollingBack
      modifies this
      ensures Sound(state) && k in state.calls && atWork == old(atWork)
      ensures state.calls[k].counter == Done(if committed then Returned else Threw)
      ensures Freed(k, committed) && clock == old(clock) + if committed then 1 else 2
    {
      hide Enabled, After, Sound, Meanwhile;
      ghost var call := state.calls[k];
      if !committed {
        var f := Await(k, call);
        RollBackEnabled(state, k, f.left);
        if f.ok {
          Step(RollBack(k));
        } else {
          Step(RollbackFails(k, f.left));
        }
      }
      call := state.calls[k];
      var after := Await(k, call);
      ReleaseEnabled(state, k);
      Step(Release(k));
    }

    /** `pool.connect`: a call arrives and waits for its client. */
    method Acquire(k: nat, context: Context, level: Isolation) returns (got: bool)
      requires Sound(state) && k !in state.calls && Validated(context)
      modifies this
      ensures Sound(state) && clock == old(clock) + 1 && atWork == old(atWork)
      ensures got == (fortunes(old(clock)).ok
                      && HandsOut(old(state), k, context, level, others(old(clock)), fortunes(old(clock)).client))
      ensures got ==> Standing(k, context, level, Before(0))
      ensures !got ==> k in state.calls && state.calls[k].counter == Done(Threw) && state.calls[k].client.None?
    {
      hide Sound, Script, Validated, Meanwhile, Enabled, After, Available;
      ArriveEnabled(state, k, context, level);
      Step(Arrive(k, context, level));
      ghost var call := state.calls[k];
      var f := Await(k, call);
      ConnectEnabled(state, k, f.client);
      got := f.ok && Available(state, f.client);
      if got {
        Step(Connect(k, f.client));
      } else {
        Step(ConnectFails(k));
      }
    }

    /** All of it once the context is accepted. */
    method Transaction(k: nat, context: Context, level: Isolation) returns (r: Outcome)
      requires Sound(state) && k !in state.calls && Validated(context)
      modifies this
      ensures Sound(state) && k in state.calls && state.calls[k].counter == Done(r)
      ensures r == Returned <==>
        && fortunes(old(clock)).ok
        && HandsOut(old(state), k, context, level, others(old(clock)), fortunes(old(clock)).client)
        && AllOk(fortunes, old(clock) + 1, |Script(context, level)|)
      ensures Recorded(old(atWork), atWork, k, context, level) || (r == Threw && atWork == old(atWork))
      ensures state.calls[k].client.Some? ==> Freed(k, r == Returned)
    {
      hide Sound, Script, Validated, HandsOut, AllOk, Recorded, Freed;
      var got := Acquire(k, context, level);
      if !got {
        return Threw;
      }
      var committed := Statements(k, context, level);
      Conclude(k, committed);
      r := if committed then Returned else Threw;
    }

    /** `withTenantTransaction`. It returns a result exactly when the context is accepted,
        the pool hands out a client after what the others did while it waited, and every
        statement of the script goes well; work began only on a connection ready for what
        the caller passed. */
    method WithTenantTransaction(k: nat, raw: RawContext, isUuid: Str -> bool, level: Isolation) returns (r: Ending)
      requires Sound(state) && k !in state.calls
      modifies this
      ensures Sound(state)
      ensures r.Invalid? <==> Validate(raw, isUuid).None?
      ensures r.Invalid? ==> state == old(state)
      ensures r.Ended? ==>
        && k in state.calls && state.calls[k].counter == Done(r.outcome)
        && state.calls[k].releases == (if state.calls[k].client.Some? then 1 else 0)
        && (r.outcome == Returned <==> state.calls[k].commitReturned)
        && (r.outcome == Returned ==> (state.calls[k].committed <==> !state.calls[k].workAborted))
        && (state.calls[k].client.Some? ==> Freed(k, r.outcome == Returned))
      ensures r == Ended(Returned) <==>
        && Validate(raw, isUuid).Some? && fortunes(old(clock)).ok
        && var context := Validate(raw, isUuid).value;
           && HandsOut(old(state), k, context, level, others(old(clock)), fortunes(old(clock)).client)
           && AllOk(fortunes, old(clock) + 1, |Script(context, level)|)
      ensures atWork != old(atWork) || r == Ended(Returned) ==>
        k in atWork && atWork == old(atWork)[k := atWork[k]] && ReadyFor(raw, level, atWork[k])
    {
      var validated := Validate(raw, isUuid);
      if validated.None? {
        return Invalid;
      }
      ValidatedExactly(raw, isUuid);
      hide Sound, Script, Validate, Validated, HandsOut, AllOk, Recorded, ReadyFor, Freed;
      var outcome := Transaction(k, validated.value, level);
      Finished(state, k);
      if Recorded(old(atWork), atWork, k, validated.value, level) {
        RecordedReady(old(atWork), atWork, k, raw, isUuid, level);
      }
      r := Ended(outcome);
    }
  }

  lemma RecordedReady(before: map<nat, Connection>, after: map<nat, Connection>, k: nat, raw: RawContext,
                      isUuid: Str -> bool, level: Isolation)
    requires Validate(raw, isUuid).Some? && Recorded(before, after, k, Validate(raw, isUuid).value, level)
    ensures k in after && after == before[k := after[k]] && ReadyFor(raw, level, after[k])
  {
    hide Validate, Prepared, ReadyFor;
    PreparedReady(raw, isUuid, level, after[k]);
  }

  lemma OtherUntouched(s: State, e: Event, k: nat)
    requires Enabled(s, e) && e.k != k && k in s.calls
    ensures k in After(s, e).calls && After(s, e).calls[k] == s.calls[k]
  {
    hide Script, Serve;
  }

  /** An unfinished call that has a client holds it. */
  lemma HoldsClient(s: State, k: nat)
    requires Sound(s) && k in s.calls && s.calls[k].client.Some? && !s.calls[k].counter.Done?
    ensures Holding(s, k)
  {
    hide Script, Served;
    assert CallSound(s, k);
  }

  lemma CallReady(s: State, k: nat, script: seq<Command>)
    requires Sound(s) && k in s.calls && s.calls[k].counter.Before? && s.calls[k].counter.i < |script|
    requires script == Script(s.calls[k].context, s.calls[k].level)
    ensures AtCommand(s, k) && Current(s, k) == script[s.calls[k].counter.i]
  {
    hide Script, Served;
    assert CallSound(s, k);
  }

  /** The server never refuses a statement of the script: until `work` the block is open,
      and after it comes only COMMIT. */
  lemma AcceptedHere(s: State, k: nat)
    requires Sound(s) && AtCommand(s, k) && Current(s, k) != Work
    ensures Enabled(s, Succeed(k))
    ensures k in After(s, Succeed(k)).calls
    ensures var call := After(s, Succeed(k)).calls[k]; var was := s.calls[k];
            && call.context == was.context && call.level == was.level && call.client == was.client
            && call.counter == if Current(s, k) == Commit then Releasing(Returned, false) else Before(was.counter.i + 1)
  {
    hide Script, Served, Serve;
    assert CallSound(s, k);
    ScriptPrepares(s.calls[k].context, s.calls[k].level);
    NeverAborted(Script(s.calls[k].context, s.calls[k].level), s.calls[k].counter.i);
  }

  lemma {:induction false} NeverAborted(script: seq<Command>, i: nat)
    requires i <= |script|
    ensures Served(script, i).phase != Aborted
  {
    if i > 0 {
      NeverAborted(script, i - 1);
    }
  }

  lemma WorkEnabled(s: State, k: nat, swallowed: bool)
    requires Sound(s) && AtCommand(s, k) && Current(s, k) == Work
    ensures Enabled(s, WorkDone(k, swallowed))
    ensures k in After(s, WorkDone(k, swallowed)).calls
    ensures var call := After(s, WorkDone(k, swallowed)).calls[k]; var was := s.calls[k];
            && call.context == was.context && call.level == was.level && call.client == was.client
            && call.counter == Before(was.counter.i + 1)
  {
    hide Script, Served, Serve;
  }

  lemma FailEnabled(s: State, k: nat, left: Connection)
    requires AtCommand(s, k)
    ensures Enabled(s, Fail(k, left))
    ensures k in After(s, Fail(k, left)).calls
    ensures After(s, Fail(k, left)).calls[k] == s.calls[k].(counter := RollingBack)
  {
    hide Script, Served, Serve;
  }

  lemma ArriveEnabled(s: State, k: nat, context: Context, level: Isolation)
    requires k !in s.calls && Validated(context)
    ensures Enabled(s, Arrive(k, context, level))
    ensures After(s, Arrive(k, context, level)) == s.(calls := s.calls[k := Arrived(context, level)])
  {
  }

  lemma ConnectEnabled(s: State, k: nat, client: nat)
    requires k in s.calls && s.calls[k].counter.Waiting?
    ensures Enabled(s, ConnectFails(k)) && k in After(s, ConnectFails(k)).calls
    ensures After(s, ConnectFails(k)).calls[k] == s.calls[k].(counter := Done(Threw))
    ensures Enabled(s, Connect(k, client)) <==> Available(s, client)
    ensures Available(s, client) ==>
      && k in After(s, Connect(k, client)).calls
      && After(s, Connect(k, client)).calls[k] == s.calls[k].(counter := Before(0), client := Some(client))
  {
  }

  lemma RollBackEnabled(s: State, k: nat, left: Connection)
    requires Sound(s) && k in s.calls && s.calls[k].client.Some? && s.calls[k].counter.RollingBack?
    ensures Enabled(s, RollBack(k)) && k in After(s, RollBack(k)).calls
    ensures After(s, RollBack(k)).calls[k] == s.calls[k].(counter := Releasing(Threw, false))
    ensures Enabled(s, RollbackFails(k, left)) && k in After(s, RollbackFails(k, left)).calls
    ensures After(s, RollbackFails(k, left)).calls[k] == s.calls[k].(counter := Releasing(Threw, true))
  {
    hide Sound, Script, Served;
    HoldsClient(s, k);
  }

  lemma ReleaseEnabled(s: State, k: nat)
    requires Sound(s) && k in s.calls && s.calls[k].client.Some? && s.calls[k].counter.Releasing?
    ensures Enabled(s, Release(k)) && k in After(s, Release(k)).calls
    ensures var call := s.calls[k];
      && call.client.value in After(s, Release(k)).holders
      && After(s, Release(k)).calls[k] == call.(counter := Done(call.counter.outcome), releases := call.releases + 1)
      && After(s, Release(k)).holders[call.client.value] == if call.counter.discard then Discarded else Pooled
  {
    hide Sound, Script, Served;
    HoldsClient(s, k);
  }

  /** What soundness says of a finished call. */
  lemma Finished(s: State, k: nat)
    requires Sound(s) && k in s.calls && s.calls[k].counter.Done?
    ensures s.calls[k].releases == (if s.calls[k].client.Some? then 1 else 0)
    ensures s.calls[k].counter == Done(Returned) <==> s.calls[k].commitReturned
    ensures s.calls[k].commitReturned ==> (s.calls[k].committed <==> !s.calls[k].workAborted)
  {
    hide Script, Served;
    assert CallSound(s, k);
  }
}
