/** Fiscal period states and the transitions the form offers
    (src/app/_components/period-transition-form.client.tsx). */
module Periods {

  datatype PeriodState = Open | AdjustmentOnly | HardClosed | Sealed
  datatype Permissions = Permissions(canClose: bool, canReopen: bool, canSeal: bool)

  /** `targets` */
  function Targets(from: PeriodState, may: Permissions): seq<PeriodState> {
    match from
    case Open => if may.canClose then [AdjustmentOnly] else []
    case AdjustmentOnly => (if may.canClose then [HardClosed] else []) + (if may.canReopen then [Open] else [])
    case HardClosed => (if may.canReopen then [AdjustmentOnly, Open] else []) + (if may.canSeal then [Sealed] else [])
    case Sealed => []
  }

  /** `privilegedTransition` */
  predicate Privileged(from: PeriodState, to: PeriodState) {
    to == Sealed || to == Open || (from == HardClosed && to == AdjustmentOnly)
  }

  /** How tightly a state restricts posting. */
  function Tightness(s: PeriodState): nat {
    match s
    case Open => 0
    case AdjustmentOnly => 1
    case HardClosed => 2
    case Sealed => 3
  }

  /** Which transitions are offered: the next tighter state short of sealing under `canClose`,
      any looser one before the seal under `canReopen`, sealing after a hard close under
      `canSeal`. */
  lemma OfferedExactly(from: PeriodState, to: PeriodState, may: Permissions)
    ensures to in Targets(from, may) <==>
      || (may.canClose && to != Sealed && Tightness(to) == Tightness(from) + 1)
      || (may.canReopen && from != Sealed && Tightness(to) < Tightness(from))
      || (may.canSeal && from == HardClosed && to == Sealed)
  {
  }

  /** How far down the list a transition stands: closing, reopening by one step, by two, sealing. */
  function Standing(from: PeriodState, to: PeriodState): int {
    if to == Sealed then 3 else if Tightness(to) > Tightness(from) then 0 else Tightness(from) - Tightness(to)
  }

  /** The list offers each once and in that order, so the first is what the form proposes. */
  lemma OfferedInOrder(from: PeriodState, may: Permissions, i: nat, j: nat)
    requires i < j < |Targets(from, may)|
    ensures Standing(from, Targets(from, may)[i]) < Standing(from, Targets(from, may)[j])
  {
  }

  /** A permitted transition is privileged exactly when it reopens or seals, and then it
      took the matching permission; any other tightens by one step under `canClose`. */
  lemma PrivilegedExactlyReopensOrSeals(from: PeriodState, to: PeriodState, may: Permissions)
    requires to in Targets(from, may)
    ensures Privileged(from, to) <==> Tightness(to) < Tightness(from) || to == Sealed
    ensures Privileged(from, to) ==> if to == Sealed then may.canSeal && from == HardClosed else may.canReopen
    ensures !Privileged(from, to) ==> may.canClose && Tightness(to) == Tightness(from) + 1
  {
  }

  /** One period over time, under permissions that may change from step to step. */
  predicate History(states: seq<PeriodState>, may: seq<Permissions>) {
    && |states| == |may| + 1
    && forall i | 0 <= i < |may| :: states[i + 1] in Targets(states[i], may[i])
  }

  predicate Unprivileged(states: seq<PeriodState>, i: nat, j: nat)
    requires i <= j < |states|
  {
    forall k | i <= k < j :: !Privileged(states[k], states[k + 1])
  }

  /** In every history, sealing follows a hard close and is the last thing to happen. */
  lemma SealedIsFinal(states: seq<PeriodState>, may: seq<Permissions>, i: nat)
    requires History(states, may) && i < |states| && states[i] == Sealed
    ensures i == |may|
    ensures i > 0 ==> states[i - 1] == HardClosed && may[i - 1].canSeal
  {
    if i > 0 {
      PrivilegedExactlyReopensOrSeals(states[i - 1], states[i], may[i - 1]);
    }
    forall k | 0 <= k < |may| ensures states[k] != Sealed {
      assert states[k + 1] in Targets(states[k], may[k]);
    }
  }

  /** In every history, a stretch without a privileged step tightens the period step by
      step and so has at most two transitions. */
  lemma {:induction false} UnprivilegedStretchTightens(states: seq<PeriodState>, may: seq<Permissions>, i: nat, j: nat)
    requires History(states, may) && i <= j < |states| && Unprivileged(states, i, j)
    ensures Tightness(states[j]) == Tightness(states[i]) + (j - i)
    ensures j - i <= 2 && (i < j ==> states[j] != Sealed)
    decreases j
  {
    if i < j {
      UnprivilegedStretchTightens(states, may, i, j - 1);
      PrivilegedExactlyReopensOrSeals(states[j - 1], states[j], may[j - 1]);
    }
  }
}
