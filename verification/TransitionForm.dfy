/** The period transition form over time
    (src/app/_components/period-transition-form.client.tsx). */
module TransitionForm {
  import opened Text
  import opened Json
  import opened JsonRoundTrip
  import opened Keys
  import opened Periods

  datatype Period = Period(id: Str, state: PeriodState, version: int, unposted: nat)

  /** Where a submission stands: editable, confirming the privileged step, waiting. */
  datatype Stage = Editing | Confirming | Waiting

  datatype Form = Form(
    periods: seq<Period>, selected: Str, to: Maybe<PeriodState>, reason: Str, ready: bool, key: Maybe<Str>,
    stage: Stage)

  function Find(periods: seq<Period>, id: Str): Maybe<Period> {
    if periods == [] then None else if periods[0].id == id then Some(periods[0]) else Find(periods[1..], id)
  }

  function Replaced(periods: seq<Period>, p: Period): seq<Period> {
    if periods == [] then []
    else [if periods[0].id == p.id then p else periods[0]] + Replaced(periods[1..], p)
  }

  function FirstTarget(p: Maybe<Period>, may: Permissions): Maybe<PeriodState> {
    if p.Some? && Targets(p.value.state, may) != [] then Some(Targets(p.value.state, may)[0]) else None
  }

  /** Proposed is the offered transition that stands first. */
  lemma FirstTargetExactly(p: Maybe<Period>, may: Permissions, to: PeriodState)
    ensures FirstTarget(p, may) == Some(to) <==>
      && p.Some? && to in Targets(p.value.state, may)
      && forall other <- Targets(p.value.state, may) :: Standing(p.value.state, to) <= Standing(p.value.state, other)
  {
    if p.Some? {
      var offered := Targets(p.value.state, may);
      forall i, j | 0 <= i < j < |offered|
        ensures Standing(p.value.state, offered[i]) < Standing(p.value.state, offered[j])
      {
        OfferedInOrder(p.value.state, may, i, j);
      }
      hide Targets, Standing;
      if to in offered && to != offered[0] {
        assert Standing(p.value.state, offered[0]) < Standing(p.value.state, to);
      }
    }
  }

  function StateText(s: PeriodState): Str {
    match s
    case Open => Ascii("OPEN")
    case AdjustmentOnly => Ascii("ADJUSTMENT_ONLY")
    case HardClosed => Ascii("HARD_CLOSED")
    case Sealed => Ascii("SEALED")
  }

  /** Permitted target, reason of twenty units, and no unposted journals before a close. */
  predicate Submittable(form: Form) {
    && Find(form.periods, form.selected).Some? && form.to.Some? && |Trim(form.reason)| >= 20
    && (form.to.value == HardClosed || form.to.value == Sealed ==>
          Find(form.periods, form.selected).value.unposted == 0)
  }

  predicate NeedsStepUp(form: Form)
    requires Submittable(form)
  {
    Privileged(Find(form.periods, form.selected).value.state, form.to.value)
  }

  const PERIODS_URL: Str := Ascii("/api/ledger/periods/")
  const EXPECTED_VERSION: Str := Ascii("expectedVersion")
  const TO_STATE: Str := Ascii("toState")
  const REASON: Str := Ascii("reason")
  const IDEMPOTENCY_KEY: Str := Ascii("idempotencyKey")

  function BodyFor(p: Period, to: PeriodState, reason: Str, key: Str): Json {
    JObj([Entry(EXPECTED_VERSION, JNum(p.version)), Entry(TO_STATE, JStr(StateText(to))),
          Entry(REASON, JStr(Trim(reason))), Entry(IDEMPOTENCY_KEY, JStr(key))])
  }

  /** The request for one transition of a period. */
  function RequestFor(p: Period, to: PeriodState, reason: Str, key: Str): (r: Request)
    ensures r.key == key
  {
    Request(key, PERIODS_URL + p.id + Ascii("/transition"), Print(BodyFor(p, to, reason, key)))
  }

  function RequestOf(form: Form, key: Str): (r: Request)
    requires Submittable(form)
    ensures r.key == key
  {
    RequestFor(Find(form.periods, form.selected).value, form.to.value, form.reason, key)
  }

  /** The state a server reads from its name. */
  function ReadState(t: Str): Maybe<PeriodState> {
    if t == Ascii("OPEN") then Some(Open)
    else if t == Ascii("ADJUSTMENT_ONLY") then Some(AdjustmentOnly)
    else if t == Ascii("HARD_CLOSED") then Some(HardClosed)
    else if t == Ascii("SEALED") then Some(Sealed)
    else None
  }

  /** What a server reads of a request: whose transition, from which version, to where, why,
      under which key. */
  datatype Reading = Reading(version: int, to: PeriodState, reason: Str, key: Str)

  function ReadBody(body: Str): Maybe<Reading> {
    match Parse(body)
    case Fail => None
    case Done(j, rest) => if j.JObj? then ReadFields(j.fields) else None
  }

  function ReadFields(fields: seq<Entry<Json>>): Maybe<Reading> {
    var version, to := Get(fields, Ascii("expectedVersion")), Get(fields, Ascii("toState"));
    var reason, key := Get(fields, Ascii("reason")), Get(fields, Ascii("idempotencyKey"));
    if version.JNum? && to.JStr? && ReadState(to.s).Some? && reason.JStr? && key.JStr? then
      Some(Reading(version.n, ReadState(to.s).value, reason.s, key.s))
    else None
  }

  /** Address and body ask for this transition of this period. */
  predicate Says(r: Request, p: Period, to: PeriodState, reason: Str) {
    && r.url == Ascii("/api/ledger/periods/") + p.id + Ascii("/transition")
    && ReadBody(r.body) == Some(Reading(p.version, to, Trim(reason), r.key))
  }

  lemma NamesDiffer()
    ensures |EXPECTED_VERSION| == 15 && |TO_STATE| == 7 && |REASON| == 6 && |IDEMPOTENCY_KEY| == 14
  {
  }

  lemma StateReadsBack(s: PeriodState)
    ensures ReadState(StateText(s)) == Some(s)
  {
    assert |Ascii("OPEN")| == 4 && |Ascii("ADJUSTMENT_ONLY")| == 15;
    assert |Ascii("HARD_CLOSED")| == 11 && |Ascii("SEALED")| == 6;
  }

  lemma FieldsReadBack(version: int, to: PeriodState, reason: Str, key: Str)
    ensures ReadFields([Entry(EXPECTED_VERSION, JNum(version)), Entry(TO_STATE, JStr(StateText(to))),
                        Entry(REASON, JStr(reason)), Entry(IDEMPOTENCY_KEY, JStr(key))])
         == Some(Reading(version, to, reason, key))
  {
    NamesDiffer();
    StateReadsBack(to);
    hide Ascii, StateText, ReadState, Get;
    var f := [Entry(EXPECTED_VERSION, JNum(version)), Entry(TO_STATE, JStr(StateText(to))),
              Entry(REASON, JStr(reason)), Entry(IDEMPOTENCY_KEY, JStr(key))];
    GetAt(f, EXPECTED_VERSION, 0);
    GetAt(f, TO_STATE, 1);
    GetAt(f, REASON, 2);
    GetAt(f, IDEMPOTENCY_KEY, 3);
  }

  /** Every request says what it is for, in the server's own words. */
  lemma RequestReadsBack(p: Period, to: PeriodState, reason: Str, key: Str)
    ensures Says(RequestFor(p, to, reason, key), p, to, reason)
  {
    hide Print, Parse, Ascii, Trim, StateText, ReadFields;
    PrintReadsBack(BodyFor(p, to, reason, key));
    FieldsReadBack(p.version, to, Trim(reason), key);
  }

  /** Address and body tell which period, version, target and reason a request is for. */
  lemma RequestTells(p: Period, to: PeriodState, reason: Str, q: Period, other: PeriodState, reason1: Str, key: Str,
                     key1: Str)
    requires RequestFor(p, to, reason, key) == RequestFor(q, other, reason1, key1)
    ensures p.id == q.id && p.version == q.version && to == other && Trim(reason) == Trim(reason1) && key == key1
  {
    hide Print, Ascii, Trim, StateText;
    var r, r1 := RequestFor(p, to, reason, key), RequestFor(q, other, reason1, key1);
    SameBetween(PERIODS_URL, p.id, q.id, Ascii("/transition"));
    PrintInjective(BodyFor(p, to, reason, key), BodyFor(q, other, reason1, key1));
    StatesDiffer(to, other);
  }

  lemma SameBetween(a: Str, b: Str, c: Str, d: Str)
    requires a + b + d == a + c + d
    ensures b == c
  {
    var n := |a|;
    assert |b| == |c|;
    assert b == (a + b + d)[n..n + |b|] && c == (a + c + d)[n..n + |c|];
  }

  lemma StatesDiffer(s: PeriodState, t: PeriodState)
    requires StateText(s) == StateText(t)
    ensures s == t
  {
    assert |Ascii("OPEN")| == 4 && |Ascii("ADJUSTMENT_ONLY")| == 15;
    assert |Ascii("HARD_CLOSED")| == 11 && |Ascii("SEALED")| == 6;
  }

  datatype Event =
    | Select(id: Str)
    | SetTarget(to: PeriodState)
    | SetReason(text: Str)
    | Submit(confirmed: bool, newKey: Str)
    | StepUp(granted: bool, newKey: Str)
    | Changed(state: PeriodState, version: int)
    | Refused
    | AnswerLost

  /** What a request asked, and whether the privileged confirmation was in hand. */
  datatype Asked = Asked(period: Period, to: PeriodState, reason: Str, ready: bool)

  function AskedBy(form: Form): Asked
    requires Submittable(form)
  {
    Asked(Find(form.periods, form.selected).value, form.to.value, form.reason, form.ready)
  }

  datatype State = State(form: Form, sent: seq<Request>, asked: seq<Asked>, made: set<Str>)

  predicate Enabled(s: State, may: Permissions, e: Event) {
    match e
    case Select(id) => s.form.stage == Editing
    case SetTarget(to) =>
      && s.form.stage == Editing && Find(s.form.periods, s.form.selected).Some?
      && to in Targets(Find(s.form.periods, s.form.selected).value.state, may)
    case SetReason(text) => s.form.stage == Editing
    case Submit(confirmed, newKey) => s.form.stage == Editing && newKey != [] && newKey !in s.made
    case StepUp(granted, newKey) =>
      s.form.stage == Confirming && Submittable(s.form) && newKey != [] && newKey !in s.made
    case Changed(state, version) => s.form.stage == Waiting && Find(s.form.periods, s.form.selected).Some?
    case Refused => s.form.stage == Waiting
    case AnswerLost => s.form.stage == Waiting
  }

  function Send(s: State, newKey: Str): State
    requires Submittable(s.form)
  {
    var key := if s.form.key.Some? then s.form.key.value else newKey;
    State(s.form.(key := Some(key), stage := Waiting), s.sent + [RequestOf(s.form, key)], s.asked + [AskedBy(s.form)],
          s.made + {key})
  }

  function After(s: State, may: Permissions, e: Event): State
    requires Enabled(s, may, e)
  {
    match e
    case Select(id) =>
      s.(form := s.form.(selected := id, to := FirstTarget(Find(s.form.periods, id), may), reason := [], key := None))
    case SetTarget(to) => s.(form := s.form.(to := Some(to), key := None))
    case SetReason(text) => s.(form := s.form.(reason := text, key := None))
    case Submit(confirmed, newKey) =>
      if !Submittable(s.form) then s
      else if !NeedsStepUp(s.form) || s.form.ready then Send(s, newKey)
      else if confirmed then s.(form := s.form.(stage := Confirming))
      else s
    case StepUp(granted, newKey) =>
      if granted then Send(s.(form := s.form.(ready := true)), newKey) else s.(form := s.form.(stage := Editing))
    case Changed(state, version) =>
      var updated := Find(s.form.periods, s.form.selected).value.(state := state, version := version);
      s.(form := s.form.(periods := Replaced(s.form.periods, updated), to := FirstTarget(Some(updated), may),
                         reason := [], key := None, stage := Editing))
    case Refused => s.(form := s.form.(stage := Editing))
    case AnswerLost => s.(form := s.form.(stage := Editing))
  }

  // ---------------------------------------------------------------- invariant

  /** The chosen target is one the period's state permits. */
  predicate TargetPermitted(form: Form, may: Permissions) {
    form.to.Some? ==>
      && Find(form.periods, form.selected).Some?
      && form.to.value in Targets(Find(form.periods, form.selected).value.state, may)
  }

  predicate KeyTied(s: State) {
    && (forall i | 0 <= i < |s.sent| :: s.sent[i].key in s.made)
    && (s.form.key.Some? ==>
          && Submittable(s.form) && s.form.key.value in s.made
          && forall i | 0 <= i < |s.sent| && s.sent[i].key == s.form.key.value ::
               s.sent[i] == RequestOf(s.form, s.form.key.value))
  }

  /** A request asks for this permitted transition, and was confirmed if privileged. */
  predicate AskedSound(r: Request, a: Asked, may: Permissions) {
    && r == RequestFor(a.period, a.to, a.reason, r.key)
    && |Trim(a.reason)| >= 20 && a.to in Targets(a.period.state, may)
    && (Privileged(a.period.state, a.to) ==> a.ready)
    && (a.to == HardClosed || a.to == Sealed ==> a.period.unposted == 0)
  }

  predicate Sound(s: State, may: Permissions) {
    && TargetPermitted(s.form, may) && KeyTied(s) && OneCommandPerKey(s.sent)
    && |s.asked| == |s.sent| && (forall i | 0 <= i < |s.asked| :: AskedSound(s.sent[i], s.asked[i], may))
    && (s.form.stage != Editing ==> Submittable(s.form))
  }

  lemma {:induction false} ReplacedFind(periods: seq<Period>, p: Period)
    requires Find(periods, p.id).Some?
    ensures Find(Replaced(periods, p), p.id) == Some(p)
  {
    if periods[0].id != p.id {
      ReplacedFind(periods[1..], p);
    }
  }

  lemma {:induction false} FindId(periods: seq<Period>, id: Str)
    ensures Find(periods, id).Some? ==> Find(periods, id).value.id == id
  {
    if periods != [] {
      FindId(periods[1..], id);
    }
  }

  /** Key, confirmation and stage are no part of the command. */
  lemma SameCommand(a: Form, b: Form, key: Str)
    requires b == a.(key := b.key, ready := b.ready, stage := b.stage)
    ensures Submittable(a) <==> Submittable(b)
    ensures Submittable(a) ==> RequestOf(a, key) == RequestOf(b, key)
  {
  }

  lemma SendKeeps(s: State, may: Permissions, newKey: Str)
    requires Sound(s, may) && Submittable(s.form) && newKey !in s.made
    requires NeedsStepUp(s.form) ==> s.form.ready
    ensures Sound(Send(s, newKey), may)
  {
    hide RequestFor, Targets;
    var key := if s.form.key.Some? then s.form.key.value else newKey;
    SentOneMore(s.sent, RequestOf(s.form, key));
    SameCommand(s.form, Send(s, newKey).form, key);
  }

  lemma StepKeeps(s: State, may: Permissions, e: Event)
    requires Sound(s, may) && Enabled(s, may, e)
    ensures Sound(After(s, may, e), may)
  {
    hide RequestOf, Targets, Print;
    var t := After(s, may, e);
    if t.form.key.Some? && s.form.key.Some? {
      SameCommand(s.form, t.form, s.form.key.value);
    }
    match e
    case Submit(confirmed, newKey) =>
      if Submittable(s.form) && (!NeedsStepUp(s.form) || s.form.ready) {
        SendKeeps(s, may, newKey);
      }
    case StepUp(granted, newKey) =>
      if granted {
        var u := s.(form := s.form.(ready := true));
        if s.form.key.Some? {
          SameCommand(s.form, u.form, s.form.key.value);
        }
        SendKeeps(u, may, newKey);
      }
    case Changed(state, version) =>
      FindId(s.form.periods, s.form.selected);
      ReplacedFind(s.form.periods, Find(s.form.periods, s.form.selected).value.(state := state, version := version));
    case _ =>
  }

  // --------------------------------------------------------------------- runs

  predicate Start(s: State, may: Permissions) {
    && s.sent == [] && s.asked == [] && s.made == {} && s.form.key == None && s.form.stage == Editing
    && s.form.to == FirstTarget(Find(s.form.periods, s.form.selected), may)
  }

  predicate Run(states: seq<State>, events: seq<Event>, may: Permissions) {
    && |states| == |events| + 1 && Start(states[0], may)
    && forall i | 0 <= i < |events| ::
         Enabled(states[i], may, events[i]) && states[i + 1] == After(states[i], may, events[i])
  }

  lemma {:induction false} RunsSound(states: seq<State>, events: seq<Event>, may: Permissions, i: nat)
    requires Run(states, events, may) && i < |states|
    ensures Sound(states[i], may)
  {
    if i > 0 {
      RunsSound(states, events, may, i - 1);
      StepKeeps(states[i - 1], may, events[i - 1]);
    }
  }

  /** A step sends nothing, or the one request its next state asks for. */
  lemma SendsOne(s: State, may: Permissions, e: Event)
    requires Sound(s, may) && Enabled(s, may, e)
    ensures var t := After(s, may, e);
      if |t.sent| == |s.sent| then t.sent == s.sent && t.asked == s.asked
      else
        && Submittable(t.form) && t.form.stage == Waiting
        && t.sent == s.sent + [t.sent[|s.sent|]] && t.asked == s.asked + [AskedBy(t.form)]
  {
    hide RequestOf, Targets, Find, FirstTarget, Replaced, Trim;
  }

  /** What was asked when request `k` went out is what the form showed then. */
  lemma {:induction false} AskedThen(states: seq<State>, events: seq<Event>, may: Permissions, i: nat, k: nat)
    returns (j: nat)
    requires Run(states, events, may) && i < |states| && k < |states[i].sent|
    ensures j <= i && |states[j].sent| == k + 1 && states[j].form.stage == Waiting && Submittable(states[j].form)
    ensures |states[i].asked| == |states[i].sent| && states[i].asked[k] == AskedBy(states[j].form)
    ensures states[j].sent[k] == states[i].sent[k]
  {
    hide Submittable, Enabled, After, AskedBy, KeyTied, TargetPermitted, AskedSound, OneCommandPerKey;
    RunsSound(states, events, may, i);
    RunsSound(states, events, may, i - 1);
    SendsOne(states[i - 1], may, events[i - 1]);
    if k < |states[i - 1].sent| {
      j := AskedThen(states, events, may, i - 1, k);
    } else {
      j := i;
    }
  }

  /** The confirmation is there from the start or was granted on the way. */
  lemma {:induction false} ReadyGranted(states: seq<State>, events: seq<Event>, may: Permissions, i: nat)
    requires Run(states, events, may) && i < |states| && states[i].form.ready && !states[0].form.ready
    ensures exists m | 0 <= m < i :: events[m].StepUp? && events[m].granted
  {
    hide RequestOf, Targets, Find, FirstTarget, Replaced, Submittable;
    if states[i - 1].form.ready {
      ReadyGranted(states, events, may, i - 1);
    } else {
      assert events[i - 1].StepUp? && events[i - 1].granted;
    }
  }

  /** In every run requests with one key are one request. Request `k` is for the period,
      target and reason the form showed when it went out: a transition that period permits,
      a privileged one only with confirmation in hand from the start or granted before, and
      a close or seal only without unposted journals. */
  lemma RequestsSafe(states: seq<State>, events: seq<Event>, may: Permissions, i: nat, k: nat) returns (j: nat)
    requires Run(states, events, may) && i < |states| && k < |states[i].sent|
    ensures OneCommandPerKey(states[i].sent) && j <= i && Submittable(states[j].form)
    ensures |states[j].sent| == k + 1 && states[j].form.stage == Waiting && states[j].sent[k] == states[i].sent[k]
    ensures AskedSound(states[i].sent[k], AskedBy(states[j].form), may)
    ensures var shown := AskedBy(states[j].form);
      && Says(states[i].sent[k], shown.period, shown.to, shown.reason)
      && 20 <= |Trim(shown.reason)| && (shown.to in {HardClosed, Sealed} ==> shown.period.unposted == 0)
    ensures Privileged(AskedBy(states[j].form).period.state, AskedBy(states[j].form).to) ==>
      states[0].form.ready || exists m | 0 <= m < j :: events[m].StepUp? && events[m].granted
  {
    hide AskedSound, Submittable, Run, Says, Trim, OneCommandPerKey;
    RunsSound(states, events, may, i);
    j := AskedThen(states, events, may, i, k);
    AskedSays(states[i].sent[k], AskedBy(states[j].form), may);
    AskedFits(states[j].form);
    if Privileged(AskedBy(states[j].form).period.state, AskedBy(states[j].form).to) && !states[0].form.ready {
      PrivilegedReady(states[i].sent[k], AskedBy(states[j].form), may);
      ReadyGranted(states, events, may, j);
    }
  }

  lemma AskedFits(form: Form)
    requires Submittable(form)
    ensures var shown := AskedBy(form);
      20 <= |Trim(shown.reason)| && (shown.to in {HardClosed, Sealed} ==> shown.period.unposted == 0)
  {
    hide Find, Trim;
  }

  lemma AskedSays(r: Request, a: Asked, may: Permissions)
    requires AskedSound(r, a, may)
    ensures Says(r, a.period, a.to, a.reason)
  {
    hide Says, RequestFor, Targets;
    RequestReadsBack(a.period, a.to, a.reason, r.key);
  }

  lemma PrivilegedReady(r: Request, a: Asked, may: Permissions)
    requires AskedSound(r, a, may) && Privileged(a.period.state, a.to)
    ensures a.ready
  {
  }

  /** An unedited retry after a lost or refused answer sends the same request again. */
  lemma RetrySame(s: State, may: Permissions, first: Str, second: Str, confirmed: bool, answer: Event)
    requires Sound(s, may) && s.form.stage == Editing && Submittable(s.form) && (NeedsStepUp(s.form) ==> s.form.ready)
    requires answer == AnswerLost || answer == Refused
    requires first != [] && first !in s.made && second != [] && second !in Send(s, first).made
    ensures var t := After(Send(s, first), may, answer);
            && Enabled(t, may, Submit(confirmed, second))
            && var u := After(t, may, Submit(confirmed, second));
               |u.sent| == |s.sent| + 2 && u.sent[|s.sent|] == u.sent[|s.sent| + 1]
  {
    hide RequestOf;
    var key := if s.form.key.Some? then s.form.key.value else first;
    var t := After(Send(s, first), may, answer);
    SameCommand(s.form, t.form, key);
  }

  // ----------------------------------------------------------- what was chosen

  function LastSelected(start: Str, events: seq<Event>, i: nat): Str
    requires i <= |events|
  {
    if i == 0 then start else if events[i - 1].Select? then events[i - 1].id else LastSelected(start, events, i - 1)
  }

  /** The reason is emptied when another period is chosen or the change is made. */
  function LastReason(start: Str, events: seq<Event>, i: nat): Str
    requires i <= |events|
  {
    if i == 0 then start
    else match events[i - 1]
      case SetReason(text) => text
      case Select(id) => []
      case Changed(state, version) => []
      case _ => LastReason(start, events, i - 1)
  }

  /** The target last chosen, or the first one offered for the period shown since. */
  function LastTarget(states: seq<State>, events: seq<Event>, may: Permissions, i: nat): Maybe<PeriodState>
    requires i <= |events| && |states| == |events| + 1
  {
    if i == 0 then states[0].form.to
    else match events[i - 1]
      case SetTarget(to) => Some(to)
      case Select(id) => FirstTarget(Find(states[i].form.periods, id), may)
      case Changed(state, version) => FirstTarget(Find(states[i].form.periods, states[i].form.selected), may)
      case _ => LastTarget(states, events, may, i - 1)
  }

  predicate Chosen(start: Form, states: seq<State>, events: seq<Event>, may: Permissions, i: nat)
    requires i <= |events| && |states| == |events| + 1
  {
    var form := states[i].form;
    && form.selected == LastSelected(start.selected, events, i) && form.reason == LastReason(start.reason, events, i)
    && form.to == LastTarget(states, events, may, i)
  }

  lemma ChosenNext(start: Form, states: seq<State>, events: seq<Event>, may: Permissions, i: nat)
    requires i < |events| && |states| == |events| + 1 && Chosen(start, states, events, may, i)
    requires Enabled(states[i], may, events[i]) && states[i + 1] == After(states[i], may, events[i])
    ensures Chosen(start, states, events, may, i + 1)
  {
    if events[i].Changed? {
      ChangedShown(states[i], may, events[i]);
    }
    hide RequestOf, Submittable, Targets, FirstTarget, Find, Replaced;
  }

  /** In every state of every run the form shows what was last chosen and typed. */
  lemma {:induction false} ShowsChosen(states: seq<State>, events: seq<Event>, may: Permissions, i: nat)
    requires Run(states, events, may) && i < |states|
    ensures Chosen(states[0].form, states, events, may, i)
  {
    hide Enabled, After, FirstTarget, Find;
    if i > 0 {
      ShowsChosen(states, events, may, i - 1);
      hide Chosen;
      ChosenNext(states[0].form, states, events, may, i - 1);
    }
  }

  /** After the answer the period shows the state and version it came with, and the others are
      as they were. */
  lemma ChangedShown(s: State, may: Permissions, e: Event)
    requires Enabled(s, may, e) && e.Changed?
    ensures var before, t := Find(s.form.periods, s.form.selected).value, After(s, may, e).form;
      && Find(t.periods, s.form.selected) == Some(before.(state := e.state, version := e.version))
      && t.to == FirstTarget(Find(t.periods, s.form.selected), may) && t.selected == s.form.selected
    ensures forall id | id != s.form.selected ::
      Find(After(s, may, e).form.periods, id) == Find(s.form.periods, id)
  {
    hide Targets, FirstTarget;
    var before := Find(s.form.periods, s.form.selected).value;
    FindId(s.form.periods, s.form.selected);
    ReplacedFind(s.form.periods, before.(state := e.state, version := e.version));
    forall id | id != s.form.selected ensures Find(After(s, may, e).form.periods, id) == Find(s.form.periods, id) {
      ReplacedOthers(s.form.periods, before.(state := e.state, version := e.version), id);
    }
  }

  lemma {:induction false} ReplacedOthers(periods: seq<Period>, p: Period, id: Str)
    requires id != p.id
    ensures Find(Replaced(periods, p), id) == Find(periods, id)
  {
    if periods != [] {
      ReplacedOthers(periods[1..], p, id);
      assert Replaced(periods, p)[1..] == Replaced(periods[1..], p);
    }
  }

  /** Where each event leaves the submission, and what it sends. */
  lemma StagesFollow(s: State, may: Permissions, e: Event)
    requires Enabled(s, may, e)
    ensures var t, shown := After(s, may, e), Find(s.form.periods, s.form.selected);
      var fits := shown.Some? && s.form.to.Some? && 20 <= |Trim(s.form.reason)|
                  && (s.form.to.value in {HardClosed, Sealed} ==> shown.value.unposted == 0);
      var asks := e.Submit? && fits && NeedsStepUp(s.form) && !s.form.ready;
      var sends :=
        || (e.Submit? && fits && (!NeedsStepUp(s.form) || s.form.ready))
        || (e.StepUp? && e.granted);
      && (sends ==> fits && s.form.stage == if e.Submit? then Editing else Confirming)
      && (e.Changed? || e.Refused? || e.AnswerLost? ==> s.form.stage == Waiting)
      && (|t.sent| == |s.sent| + if sends then 1 else 0)
      && (t.form.stage ==
            if sends then Waiting else if asks && e.confirmed then Confirming else Editing)
      && (t.form.ready <==> s.form.ready || (e.StepUp? && e.granted))
      && (t.form.key.Some? <==> sends || (s.form.key.Some? && (e.Submit? || e.StepUp? || e.Refused? || e.AnswerLost?)))
  {
    hide RequestOf, NeedsStepUp, Targets, FirstTarget, Find, Replaced, Trim;
  }
}
