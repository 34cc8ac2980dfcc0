/** The manual journal form over time: edits, submissions, answers and lost answers
    (src/app/_components/real-journal-draft-form.client.tsx). */
module JournalForm {
  import opened Text
  import opened Json
  import opened JsonRoundTrip
  import opened JournalAmounts
  import opened Keys

  datatype Entity = Entity(id: Str, ledger: Str, currency: Str, firstPeriod: Str)

  /** What the page shows next to the form: the entities, the one preferred, and the accounts
      valid on a date. */
  datatype Options = Options(entities: seq<Entity>, preferred: Maybe<Str>, validAccount: (Str, Str, Str) -> bool)

  datatype Form = Form(
    entity: Str, period: Str, date: Str, purpose: Str, description: Str,
    lines: seq<DraftLine>, nextLine: nat, key: Maybe<Str>, busy: bool)

  datatype Column = Account | Memo | Debit | Credit

  /** `emptyLines` */
  const EMPTY_LINES: seq<DraftLine> := [DraftLine(1, [], [], [], []), DraftLine(2, [], [], [], [])]

  function FindEntity(entities: seq<Entity>, id: Str): Maybe<Entity> {
    if entities == [] then None else if entities[0].id == id then Some(entities[0]) else FindEntity(entities[1..], id)
  }

  function WithColumn(line: DraftLine, column: Column, value: Str): DraftLine {
    match column
    case Account => line.(account := value)
    case Memo => line.(memo := value)
    case Debit => line.(debit := value)
    case Credit => line.(credit := value)
  }

  /** `updateLine` on the lines. */
  function WithLine(lines: seq<DraftLine>, id: nat, column: Column, value: Str): seq<DraftLine> {
    seq(|lines|, i requires 0 <= i < |lines| =>
      if lines[i].id == id then WithColumn(lines[i], column, value) else lines[i])
  }

  function WithoutLine(lines: seq<DraftLine>, id: nat): seq<DraftLine> {
    if lines == [] then [] else (if lines[0].id == id then [] else [lines[0]]) + WithoutLine(lines[1..], id)
  }

  // --------------------------------------------------------------- submission

  const ACCOUNT_COMBINATION_ID: Str := Ascii("accountCombinationId")
  const DEBIT_FUNCTIONAL: Str := Ascii("debitFunctional")
  const CREDIT_FUNCTIONAL: Str := Ascii("creditFunctional")
  const TRANSACTION_CURRENCY: Str := Ascii("transactionCurrency")
  const DEBIT_TRANSACTION: Str := Ascii("debitTransaction")
  const CREDIT_TRANSACTION: Str := Ascii("creditTransaction")
  const FX_RATE: Str := Ascii("fxRate")
  const FX_RATE_SOURCE: Str := Ascii("fxRateSource")
  const FX_RATE_EFFECTIVE_AT: Str := Ascii("fxRateEffectiveAt")
  const MEMO: Str := Ascii("memo")
  const FUNCTIONAL_CURRENCY: Str := Ascii("functional-currency")
  const LEDGER_ID: Str := Ascii("ledgerId")
  const LEGAL_ENTITY_ID: Str := Ascii("legalEntityId")
  const PERIOD_ID: Str := Ascii("periodId")
  const ACCOUNTING_DATE: Str := Ascii("accountingDate")
  const PURPOSE: Str := Ascii("purpose")
  const DESCRIPTION: Str := Ascii("description")
  const IDEMPOTENCY_KEY: Str := Ascii("idempotencyKey")
  const LINES: Str := Ascii("lines")
  const NOON: Str := Ascii("T12:00:00.000Z")

  /** The body of one line; a blank memo is left out. */
  function LineBody(line: DraftLine, currency: Str, date: Str): (j: Json)
    ensures j.JObj?
  {
    JObj([Entry(ACCOUNT_COMBINATION_ID, JStr(line.account)),
          Entry(DEBIT_FUNCTIONAL, JStr(Normalized(line.debit))),
          Entry(CREDIT_FUNCTIONAL, JStr(Normalized(line.credit))),
          Entry(TRANSACTION_CURRENCY, JStr(currency)),
          Entry(DEBIT_TRANSACTION, JStr(Normalized(line.debit))),
          Entry(CREDIT_TRANSACTION, JStr(Normalized(line.credit))),
          Entry(FX_RATE, JStr([49])),
          Entry(FX_RATE_SOURCE, JStr(FUNCTIONAL_CURRENCY)),
          Entry(FX_RATE_EFFECTIVE_AT, JStr(date + NOON))]
         + (if Trim(line.memo) == [] then [] else [Entry(MEMO, JStr(Trim(line.memo)))]))
  }

  function Body(form: Form, entity: Entity, key: Str): (j: Json)
    ensures j.JObj?
  {
    JObj([Entry(LEDGER_ID, JStr(entity.ledger)),
          Entry(LEGAL_ENTITY_ID, JStr(entity.id)),
          Entry(PERIOD_ID, JStr(form.period)),
          Entry(ACCOUNTING_DATE, JStr(form.date)),
          Entry(PURPOSE, JStr(form.purpose)),
          Entry(DESCRIPTION, JStr(Trim(form.description))),
          Entry(IDEMPOTENCY_KEY, JStr(key)),
          Entry(LINES, JArr(seq(|form.lines|, i requires 0 <= i < |form.lines| =>
            LineBody(form.lines[i], entity.currency, form.date))))])
  }

  /** The entity shown at first: the preferred one, or the first. */
  function ShownFirst(options: Options): Maybe<Entity> {
    if options.preferred.Some? && FindEntity(options.entities, options.preferred.value).Some? then
      FindEntity(options.entities, options.preferred.value)
    else if options.entities == [] then None else Some(options.entities[0])
  }

  /** The entity shown: the chosen one, or the one shown at first. */
  function Shown(form: Form, options: Options): Maybe<Entity> {
    if FindEntity(options.entities, form.entity).Some? then FindEntity(options.entities, form.entity)
    else ShownFirst(options)
  }

  lemma {:induction false} EntityFound(entities: seq<Entity>, id: Str)
    ensures match FindEntity(entities, id)
      case None => forall entity <- entities :: entity.id != id
      case Some(entity) => entity in entities && entity.id == id
  {
    if entities != [] && entities[0].id != id {
      EntityFound(entities[1..], id);
    }
  }

  /** The entity shown is the chosen one; where there is none such, the preferred one; and
      without that either, the first. */
  lemma ShownExactly(form: Form, options: Options)
    ensures match Shown(form, options)
      case None => options.entities == []
      case Some(entity) =>
        && entity in options.entities
        && if exists other <- options.entities :: other.id == form.entity then entity.id == form.entity
           else if exists other <- options.entities :: Some(other.id) == options.preferred then
             Some(entity.id) == options.preferred
           else entity == options.entities[0]
  {
    EntityFound(options.entities, form.entity);
    if options.preferred.Some? {
      EntityFound(options.entities, options.preferred.value);
    }
    hide FindEntity;
  }

  /** The three gates of `save`. */
  predicate Submittable(form: Form, options: Options) {
    && Shown(form, options).Some? && form.period != [] && form.date != [] && Trim(form.description) != []
    && (forall i | 0 <= i < |form.lines| ::
          options.validAccount(Shown(form, options).value.id, form.date, form.lines[i].account))
    && AllMoney(form.lines)
    && Balanced(form.lines)
  }

  function RequestOf(form: Form, options: Options, key: Str): Request
    requires Shown(form, options).Some?
  {
    Request(key, Ascii("/api/ledger/journals"), Print(Body(form, Shown(form, options).value, key)))
  }

  // ------------------------------------------------------------------- events

  datatype Event =
    | EditLine(id: nat, column: Column, value: Str)
    | ChangeEntity(entity: Str)
    | AddLine
    | RemoveLine(line: nat)
    | SetPeriod(period: Str)
    | SetDate(date: Str)
    | SetPurpose(purpose: Str)
    | SetDescription(text: Str)
    | Submit(newKey: Str)
    | Saved
    | Refused
    | AnswerLost

  /** The form, what was sent so far, the forms it was sent from, and the keys made. */
  datatype State = State(form: Form, sent: seq<Request>, forms: seq<Form>, made: set<Str>)

  predicate HasLine(lines: seq<DraftLine>, id: nat) {
    exists n | 0 <= n < |lines| :: lines[n].id == id
  }

  /** Fields are disabled while a request is under way, only lines that are there are edited,
      and new keys are new. */
  predicate Enabled(s: State, e: Event) {
    match e
    case EditLine(id, column, value) => !s.form.busy && HasLine(s.form.lines, id)
    case Submit(newKey) => !s.form.busy && newKey !in s.made && newKey != []
    case Saved => s.form.busy
    case Refused => s.form.busy
    case AnswerLost => s.form.busy
    case _ => !s.form.busy
  }

  function Edited(form: Form, options: Options, e: Event): Form {
    match e
    case EditLine(id, column, value) => form.(lines := WithLine(form.lines, id, column, value), key := None)
    case ChangeEntity(id) =>
      var next := FindEntity(options.entities, id);
      form.(entity := id, period := if next.Some? then next.value.firstPeriod else [], lines := EMPTY_LINES,
            nextLine := 3, key := None)
    case AddLine =>
      if |form.lines| >= 200 then form
      else
        form.(lines := form.lines + [DraftLine(form.nextLine, [], [], [], [])], nextLine := form.nextLine + 1,
              key := None)
    case RemoveLine(id) =>
      if |form.lines| <= 2 then form else form.(lines := WithoutLine(form.lines, id), key := None)
    case SetPeriod(period) => form.(period := period, key := None)
    case SetDate(date) => form.(date := date, key := None)
    case SetPurpose(purpose) => form.(purpose := purpose, key := None)
    case SetDescription(text) => form.(description := text, key := None)
    case Saved => form.(description := [], lines := EMPTY_LINES, nextLine := 3, key := None, busy := false)
    case Refused => form.(busy := false)
    case AnswerLost => form.(busy := false)
    case Submit(newKey) => form
  }

  function After(s: State, options: Options, e: Event): State
    requires Enabled(s, e)
  {
    if e.Submit? then
      if !Submittable(s.form, options) then s
      else
        var key := if s.form.key.Some? then s.form.key.value else e.newKey;
        State(s.form.(key := Some(key), busy := true), s.sent + [RequestOf(s.form, options, key)],
              s.forms + [s.form], s.made + {key})
    else s.(form := Edited(s.form, options, e))
  }

  // ---------------------------------------------------------------- invariant

  /** Line ids are distinct, so a removal takes one line. */
  predicate LinesSound(form: Form) {
    && 2 <= |form.lines| <= 200
    && (forall i | 0 <= i < |form.lines| :: form.lines[i].id < form.nextLine)
    && forall i, j | 0 <= i < j < |form.lines| :: form.lines[i].id != form.lines[j].id
  }

  /** While a key is kept, what was sent with it is what would be sent again. */
  predicate KeyTied(s: State, options: Options) {
    && (forall i | 0 <= i < |s.sent| :: s.sent[i].key in s.made)
    && (s.form.key.Some? ==>
          && Shown(s.form, options).Some? && s.form.key.value in s.made
          && forall i | 0 <= i < |s.sent| && s.sent[i].key == s.form.key.value ::
               s.sent[i] == RequestOf(s.form, options, s.form.key.value))
  }

  /** What was sent under `key` is the request of a form that passed the gates. */
  predicate SentFrom(r: Request, form: Form, options: Options) {
    Submittable(form, options) && 2 <= |form.lines| <= 200 && r == RequestOf(form, options, r.key)
  }

  predicate FormsSound(s: State, options: Options) {
    |s.forms| == |s.sent| && forall i | 0 <= i < |s.sent| :: SentFrom(s.sent[i], s.forms[i], options)
  }

  predicate Sound(s: State, options: Options) {
    LinesSound(s.form) && KeyTied(s, options) && OneCommandPerKey(s.sent) && FormsSound(s, options)
  }

  lemma {:induction false} WithoutLineMembers(lines: seq<DraftLine>, id: nat)
    ensures forall line <- WithoutLine(lines, id) :: line in lines
    ensures (forall i | 0 <= i < |lines| :: lines[i].id != id) ==> WithoutLine(lines, id) == lines
  {
    if lines != [] {
      WithoutLineMembers(lines[1..], id);
      assert lines == [lines[0]] + lines[1..];
    }
  }

  /** With distinct ids a removal takes at most one line, and the rest stay distinct. */
  lemma {:induction false} WithoutLineDistinct(lines: seq<DraftLine>, id: nat)
    requires forall i, j | 0 <= i < j < |lines| :: lines[i].id != lines[j].id
    ensures var rest := WithoutLine(lines, id);
            && |lines| - 1 <= |rest| <= |lines|
            && forall i, j | 0 <= i < j < |rest| :: rest[i].id != rest[j].id
  {
    if lines != [] {
      var tail := WithoutLine(lines[1..], id);
      WithoutLineDistinct(lines[1..], id);
      WithoutLineMembers(lines[1..], id);
      forall i | 0 <= i < |tail| ensures tail[i].id != lines[0].id {
        assert tail[i] in lines[1..];
      }
    }
  }

  lemma RemovalKeepsLines(form: Form, id: nat)
    requires LinesSound(form) && |form.lines| > 2
    ensures LinesSound(form.(lines := WithoutLine(form.lines, id), key := None))
  {
    WithoutLineMembers(form.lines, id);
    WithoutLineDistinct(form.lines, id);
    var rest := WithoutLine(form.lines, id);
    forall i | 0 <= i < |rest| ensures rest[i].id < form.nextLine {
      assert rest[i] in form.lines;
    }
  }

  lemma EditedIds(lines: seq<DraftLine>, id: nat, column: Column, value: Str)
    ensures |WithLine(lines, id, column, value)| == |lines|
    ensures forall i | 0 <= i < |lines| :: WithLine(lines, id, column, value)[i].id == lines[i].id
  {
  }

  lemma EditKeepsLines(form: Form, options: Options, e: Event)
    requires LinesSound(form)
    ensures LinesSound(Edited(form, options, e))
    ensures Edited(form, options, e).key.Some? ==>
      Edited(form, options, e) == form.(busy := Edited(form, options, e).busy)
  {
    hide WithoutLine, FindEntity, Ascii, WithColumn;
    if e.EditLine? {
      EditedIds(form.lines, e.id, e.column, e.value);
      hide WithLine;
    }
    if e.RemoveLine? && |form.lines| > 2 {
      RemovalKeepsLines(form, e.line);
    }
  }

  lemma SubmitKeeps(s: State, options: Options, newKey: Str)
    requires Sound(s, options) && Enabled(s, Submit(newKey))
    ensures Sound(After(s, options, Submit(newKey)), options)
  {
    hide Body, Balanced, AllMoney, Print;
    if !Submittable(s.form, options) {
      return;
    }
    var key := if s.form.key.Some? then s.form.key.value else newKey;
    var r := RequestOf(s.form, options, key);
    SentOneMore(s.sent, r);
    var t := After(s, options, Submit(newKey));
    BusyIrrelevant(s.form, t.form, options, key);
  }

  /** Key and busy flag are no part of the command. */
  lemma BusyIrrelevant(a: Form, b: Form, options: Options, key: Str)
    requires b == a.(key := b.key, busy := b.busy)
    ensures Shown(a, options) == Shown(b, options)
    ensures Shown(a, options).Some? ==> RequestOf(a, options, key) == RequestOf(b, options, key)
  {
  }

  lemma StepKeeps(s: State, options: Options, e: Event)
    requires Sound(s, options) && Enabled(s, e)
    ensures Sound(After(s, options, e), options)
  {
    if e.Submit? {
      SubmitKeeps(s, options, e.newKey);
    } else {
      hide RequestOf, Edited, Balanced, AllMoney, LinesSound;
      EditKeepsLines(s.form, options, e);
      var t := After(s, options, e);
      if t.form.key.Some? {
        BusyIrrelevant(s.form, t.form, options, s.form.key.value);
      }
    }
  }

  // --------------------------------------------------------------------- runs

  predicate Start(s: State) {
    && s.form.lines == EMPTY_LINES && s.form.nextLine == 3 && s.form.key == None && !s.form.busy
    && s.sent == [] && s.forms == [] && s.made == {}
  }

  predicate Run(states: seq<State>, events: seq<Event>, options: Options) {
    && |states| == |events| + 1 && Start(states[0])
    && forall i | 0 <= i < |events| ::
         Enabled(states[i], events[i]) && states[i + 1] == After(states[i], options, events[i])
  }

  lemma {:induction false} RunsSound(states: seq<State>, events: seq<Event>, options: Options, i: nat)
    requires Run(states, events, options) && i < |states|
    ensures Sound(states[i], options)
  {
    if i == 0 {
      assert |EMPTY_LINES| == 2;
    } else {
      RunsSound(states, events, options, i - 1);
      StepKeeps(states[i - 1], options, events[i - 1]);
    }
  }

  /** In every run, two requests with one key are the same request, and against a server
      that heeds keys each takes effect at most once. */
  lemma KeysNeverReused(states: seq<State>, events: seq<Event>, options: Options, i: nat, arrivals: seq<Request>)
    requires Run(states, events, options) && i < |states|
    requires forall k | 0 <= k < |arrivals| :: arrivals[k] in states[i].sent
    ensures OneCommandPerKey(states[i].sent)
    ensures forall k, m | 0 <= k < m < |Applied(arrivals)| :: Applied(arrivals)[k].key != Applied(arrivals)[m].key
    ensures forall r <- arrivals :: r in Applied(arrivals)
  {
    RunsSound(states, events, options, i);
    AppliedOnce(arrivals, states[i].sent);
  }

  /** An unedited retry after a lost or refused answer sends the same request again. */
  lemma RetrySame(s: State, options: Options, first: Str, second: Str, answer: Event)
    requires Sound(s, options) && Enabled(s, Submit(first))
    requires answer == AnswerLost || answer == Refused
    requires second != [] && second != first && second !in s.made
    ensures Submittable(s.form, options) ==>
      var t := After(After(s, options, Submit(first)), options, answer);
      && Enabled(t, Submit(second))
      && var u := After(t, options, Submit(second));
         |u.sent| == |s.sent| + 2 && u.sent[|s.sent|] == u.sent[|s.sent| + 1]
  {
    hide RequestOf, Balanced, AllMoney;
    if !Submittable(s.form, options) {
      return;
    }
    var key := if s.form.key.Some? then s.form.key.value else first;
    var t := After(After(s, options, Submit(first)), options, answer);
    BusyIrrelevant(s.form, t.form, options, key);
    assert Submittable(t.form, options);
  }

  // ------------------------------------------------------- what the body says

  function TextOf(j: Json): Str {
    if j.JStr? then j.s else []
  }

  /** A line as a reader of the body takes it, its amounts from the named properties. */
  function LineRead(j: Json, debit: Str, credit: Str): DraftLine {
    var fields := if j.JObj? then j.fields else [];
    DraftLine(0, TextOf(Get(fields, ACCOUNT_COMBINATION_ID)), TextOf(Get(fields, MEMO)),
              TextOf(Get(fields, debit)), TextOf(Get(fields, credit)))
  }

  function LinesRead(body: Str, debit: Str, credit: Str): seq<DraftLine> {
    match Parse(body)
    case Fail => []
    case Done(j, rest) =>
      var items := if j.JObj? && Get(j.fields, LINES).JArr? then Get(j.fields, LINES).items else [];
      seq(|items|, i requires 0 <= i < |items| => LineRead(items[i], debit, credit))
  }

  /** What a server reads of a request besides the amounts: whose journal it is, when, why and
      under which key, and the terms of each line. */
  predicate SaysJournal(body: Str, form: Form, entity: Entity, key: Str) {
    var p := Parse(body);
    && p.Done? && p.value.JObj? && SaysWhere(p.value.fields, form, entity) && SaysWhy(p.value.fields, form, key)
    && SaysLines(Get(p.value.fields, Ascii("lines")), form, entity)
  }

  predicate SaysWhere(fields: seq<Entry<Json>>, form: Form, entity: Entity) {
    && Get(fields, Ascii("ledgerId")) == JStr(entity.ledger) && Get(fields, Ascii("legalEntityId")) == JStr(entity.id)
    && Get(fields, Ascii("periodId")) == JStr(form.period)
  }

  predicate SaysWhy(fields: seq<Entry<Json>>, form: Form, key: Str) {
    && Get(fields, Ascii("accountingDate")) == JStr(form.date) && Get(fields, Ascii("purpose")) == JStr(form.purpose)
    && Get(fields, Ascii("description")) == JStr(Trim(form.description))
    && Get(fields, Ascii("idempotencyKey")) == JStr(key)
  }

  predicate SaysLines(lines: Json, form: Form, entity: Entity) {
    && lines.JArr? && |lines.items| == |form.lines|
    && forall i | 0 <= i < |form.lines| ::
         lines.items[i].JObj? && SaysTerms(lines.items[i].fields, form.lines[i], entity.currency, form.date)
  }

  /** One line: its account, at par in the entity's own currency at noon, and its memo if any. */
  predicate SaysTerms(fields: seq<Entry<Json>>, line: DraftLine, currency: Str, date: Str) {
    && Get(fields, Ascii("accountCombinationId")) == JStr(line.account) && SaysPar(fields, currency, date)
    && Get(fields, Ascii("memo")) == if White(line.memo) then JNull else JStr(Trim(line.memo))
  }

  predicate SaysPar(fields: seq<Entry<Json>>, currency: Str, date: Str) {
    && Get(fields, Ascii("transactionCurrency")) == JStr(currency) && Get(fields, Ascii("fxRate")) == JStr(Ascii("1"))
    && Get(fields, Ascii("fxRateSource")) == JStr(Ascii("functional-currency"))
    && Get(fields, Ascii("fxRateEffectiveAt")) == JStr(date + Ascii("T12:00:00.000Z"))
  }

  lemma BodyKeysDiffer()
    ensures |LEDGER_ID| == 8 && |LEGAL_ENTITY_ID| == 13 && |PERIOD_ID| == 8 && |ACCOUNTING_DATE| == 14
    ensures |PURPOSE| == 7 && |DESCRIPTION| == 11 && |IDEMPOTENCY_KEY| == 14 && |LINES| == 5
    ensures LEDGER_ID != PERIOD_ID && ACCOUNTING_DATE != IDEMPOTENCY_KEY
  {
    assert LEDGER_ID[0] == 108 && PERIOD_ID[0] == 112;
    assert ACCOUNTING_DATE[0] == 97 && IDEMPOTENCY_KEY[0] == 105;
  }

  lemma WhiteTrimmed(t: Str)
    ensures White(t) <==> Trim(t) == []
  {
    var w, v := TrimParts(t);
    assert White(t) ==> t + [] + [] == t;
    if White(t) {
      TrimPadded(t, [], []);
    }
  }

  lemma ParSaid(line: DraftLine, currency: Str, date: Str)
    ensures SaysPar(LineBody(line, currency, date).fields, currency, date)
  {
    LineKeysDiffer();
    ParIsOne();
    hide Normalized, Trim, Get, Ascii;
    var f := LineBody(line, currency, date).fields;
    GetAt(f, TRANSACTION_CURRENCY, 3);
    GetAt(f, FX_RATE, 6);
    GetAt(f, FX_RATE_SOURCE, 7);
    GetAt(f, FX_RATE_EFFECTIVE_AT, 8);
  }

  lemma ParIsOne()
    ensures Ascii("1") == [49]
  {
  }

  lemma TermsSaid(line: DraftLine, currency: Str, date: Str)
    ensures SaysTerms(LineBody(line, currency, date).fields, line, currency, date)
  {
    hide SaysPar;
    ParSaid(line, currency, date);
    WhiteTrimmed(line.memo);
    LineKeysDiffer();
    hide Normalized, Trim, Get, Ascii, White;
    var f := LineBody(line, currency, date).fields;
    GetAt(f, ACCOUNT_COMBINATION_ID, 0);
    if Trim(line.memo) == [] {
      GetAbsent(f, MEMO);
    } else {
      GetAt(f, MEMO, 9);
    }
  }

  lemma LinesSaid(form: Form, entity: Entity, key: Str)
    ensures SaysLines(Get(Body(form, entity, key).fields, Ascii("lines")), form, entity)
  {
    hide Get, Ascii, LineBody, SaysTerms, Trim;
    GetAt(Body(form, entity, key).fields, LINES, 7);
    forall i | 0 <= i < |form.lines|
      ensures SaysTerms(LineBody(form.lines[i], entity.currency, form.date).fields, form.lines[i], entity.currency,
                        form.date)
    {
      TermsSaid(form.lines[i], entity.currency, form.date);
    }
  }

  lemma HeaderSaid(form: Form, entity: Entity, key: Str)
    ensures SaysWhere(Body(form, entity, key).fields, form, entity)
    ensures SaysWhy(Body(form, entity, key).fields, form, key)
  {
    BodyKeysDiffer();
    hide Get, Ascii, LineBody, Trim;
    var f := Body(form, entity, key).fields;
    GetAt(f, LEDGER_ID, 0);
    GetAt(f, LEGAL_ENTITY_ID, 1);
    GetAt(f, PERIOD_ID, 2);
    GetAt(f, ACCOUNTING_DATE, 3);
    GetAt(f, PURPOSE, 4);
    GetAt(f, DESCRIPTION, 5);
    GetAt(f, IDEMPOTENCY_KEY, 6);
  }

  /** Every body says what the form showed. */
  lemma JournalReadsBack(form: Form, entity: Entity, key: Str)
    ensures SaysJournal(Print(Body(form, entity, key)), form, entity, key)
  {
    hide Print, Parse, SaysWhere, SaysWhy, SaysLines, Get, Ascii, LineBody;
    PrintReadsBack(Body(form, entity, key));
    HeaderSaid(form, entity, key);
    LinesSaid(form, entity, key);
  }

  /** Two lists of lines with the same accounts and amounts. */
  predicate SameJournal(a: seq<DraftLine>, b: seq<DraftLine>) {
    && |a| == |b|
    && forall i | 0 <= i < |a| ::
         && a[i].account == b[i].account && ParseMoney(a[i].debit) == ParseMoney(b[i].debit)
         && ParseMoney(a[i].credit) == ParseMoney(b[i].credit)
  }

  lemma SameJournalSame(a: seq<DraftLine>, b: seq<DraftLine>, limit: nat)
    requires SameJournal(a, b)
    ensures AllMoney(a) <==> AllMoney(b)
    ensures AmountsBelow(a, limit) <==> AmountsBelow(b, limit)
    ensures TrulyBalanced(a) <==> TrulyBalanced(b)
  {
    hide ParseMoney;
    assert Debits(a) == Debits(b) && Credits(a) == Credits(b);
  }

  lemma NormalizedSame(value: Str)
    ensures ParseMoney(Normalized(value)) == ParseMoney(value)
  {
    assert Normalized(Normalized(value)) == Normalized(value);
  }

  lemma LineKeysDiffer()
    ensures |ACCOUNT_COMBINATION_ID| == 20 && |DEBIT_FUNCTIONAL| == 15 && |CREDIT_FUNCTIONAL| == 16
    ensures |TRANSACTION_CURRENCY| == 19 && |DEBIT_TRANSACTION| == 16 && |CREDIT_TRANSACTION| == 17
    ensures |FX_RATE| == 6 && |FX_RATE_SOURCE| == 12 && |FX_RATE_EFFECTIVE_AT| == 17 && |MEMO| == 4
    ensures CREDIT_FUNCTIONAL != DEBIT_TRANSACTION && CREDIT_TRANSACTION != FX_RATE_EFFECTIVE_AT
  {
    assert CREDIT_FUNCTIONAL[0] == 99 && DEBIT_TRANSACTION[0] == 100;
    assert CREDIT_TRANSACTION[0] == 99 && FX_RATE_EFFECTIVE_AT[0] == 102;
  }

  lemma FunctionalReadsBack(line: DraftLine, currency: Str, date: Str)
    ensures var f := LineBody(line, currency, date).fields;
      && Get(f, DEBIT_FUNCTIONAL) == JStr(Normalized(line.debit))
      && Get(f, CREDIT_FUNCTIONAL) == JStr(Normalized(line.credit))
  {
    LineKeysDiffer();
    hide Normalized, Trim, Get, Ascii;
    var f := LineBody(line, currency, date).fields;
    GetAt(f, DEBIT_FUNCTIONAL, 1);
    GetAt(f, CREDIT_FUNCTIONAL, 2);
  }

  lemma TransactionReadsBack(line: DraftLine, currency: Str, date: Str)
    ensures var f := LineBody(line, currency, date).fields;
      && Get(f, DEBIT_TRANSACTION) == JStr(Normalized(line.debit))
      && Get(f, CREDIT_TRANSACTION) == JStr(Normalized(line.credit))
  {
    LineKeysDiffer();
    hide Normalized, Trim, Get, Ascii;
    var f := LineBody(line, currency, date).fields;
    GetAt(f, DEBIT_TRANSACTION, 4);
    GetAt(f, CREDIT_TRANSACTION, 5);
  }

  lemma AccountReadsBack(line: DraftLine, currency: Str, date: Str)
    ensures var f := LineBody(line, currency, date).fields;
      Get(f, ACCOUNT_COMBINATION_ID) == JStr(line.account) && TextOf(Get(f, MEMO)) == Trim(line.memo)
  {
    LineKeysDiffer();
    hide Normalized, Trim, Get, Ascii;
    var f := LineBody(line, currency, date).fields;
    GetAt(f, ACCOUNT_COMBINATION_ID, 0);
    if Trim(line.memo) == [] {
      GetAbsent(f, MEMO);
    } else {
      GetAt(f, MEMO, 9);
    }
  }

  /** Functional and transaction amounts of a line read as the amounts of the form. */
  lemma LineReadsBack(line: DraftLine, currency: Str, date: Str)
    ensures LineRead(LineBody(line, currency, date), DEBIT_FUNCTIONAL, CREDIT_FUNCTIONAL) ==
            DraftLine(0, line.account, Trim(line.memo), Normalized(line.debit), Normalized(line.credit))
    ensures LineRead(LineBody(line, currency, date), DEBIT_TRANSACTION, CREDIT_TRANSACTION) ==
            DraftLine(0, line.account, Trim(line.memo), Normalized(line.debit), Normalized(line.credit))
  {
    hide LineBody, Normalized, Trim, Get, Ascii;
    AccountReadsBack(line, currency, date);
    FunctionalReadsBack(line, currency, date);
    TransactionReadsBack(line, currency, date);
  }

  /** The lines read off a body have the accounts and amounts of the form's. */
  lemma BodyReadsBack(form: Form, entity: Entity, key: Str)
    ensures SameJournal(LinesRead(Print(Body(form, entity, key)), DEBIT_FUNCTIONAL, CREDIT_FUNCTIONAL), form.lines)
    ensures SameJournal(LinesRead(Print(Body(form, entity, key)), DEBIT_TRANSACTION, CREDIT_TRANSACTION), form.lines)
  {
    hide Print, Parse, LineBody, LineRead, ParseMoney, Get, Ascii;
    var j := Body(form, entity, key);
    PrintReadsBack(j);
    GetAt(j.fields, LINES, 7);
    forall i | 0 <= i < |form.lines|
      ensures LineRead(LineBody(form.lines[i], entity.currency, form.date), DEBIT_FUNCTIONAL, CREDIT_FUNCTIONAL)
           == LineRead(LineBody(form.lines[i], entity.currency, form.date), DEBIT_TRANSACTION, CREDIT_TRANSACTION)
           == DraftLine(0, form.lines[i].account, Trim(form.lines[i].memo), Normalized(form.lines[i].debit),
                        Normalized(form.lines[i].credit))
      ensures ParseMoney(Normalized(form.lines[i].debit)) == ParseMoney(form.lines[i].debit)
      ensures ParseMoney(Normalized(form.lines[i].credit)) == ParseMoney(form.lines[i].credit)
    {
      LineReadsBack(form.lines[i], entity.currency, form.date);
      NormalizedSame(form.lines[i].debit);
      NormalizedSame(form.lines[i].credit);
    }
  }

  /** Two to two hundred lines of amounts, which truly balance if none has more than 38
      integer digits. */
  predicate SoundJournal(lines: seq<DraftLine>) {
    && 2 <= |lines| <= 200 && AllMoney(lines)
    && (AmountsBelow(lines, Pow10(47)) ==> TrulyBalanced(lines))
  }

  /** What the request of a form that passed the gates says: nothing in it is blank that must
      not be, and every account is valid for the entity on the date. */
  predicate SaysForm(r: Request, form: Form, options: Options)
    requires Shown(form, options).Some?
  {
    var entity := Shown(form, options).value;
    && r.url == Ascii("/api/ledger/journals") && SaysJournal(r.body, form, entity, r.key)
    && form.period != [] && form.date != [] && !White(form.description)
    && (FindEntity(options.entities, form.entity) == None || entity.id == form.entity)
    && forall i | 0 <= i < |form.lines| ::
         && options.validAccount(entity.id, form.date, form.lines[i].account)
         && ParseMoney(form.lines[i].debit).Amount? && ParseMoney(form.lines[i].credit).Amount?
  }

  lemma {:induction false} FoundEntity(entities: seq<Entity>, id: Str)
    ensures FindEntity(entities, id).Some? ==> FindEntity(entities, id).value.id == id
  {
    if entities != [] {
      FoundEntity(entities[1..], id);
    }
  }

  lemma SentSays(r: Request, form: Form, options: Options)
    requires SentFrom(r, form, options)
    ensures SaysForm(r, form, options)
  {
    hide ParseMoney, Balanced, SaysJournal, Body, Print, Ascii, White, Trim, FindEntity;
    WhiteTrimmed(form.description);
    FoundEntity(options.entities, form.entity);
    JournalReadsBack(form, Shown(form, options).value, r.key);
  }

  lemma SentBalances(r: Request, form: Form, options: Options)
    requires SentFrom(r, form, options)
    ensures SoundJournal(LinesRead(r.body, DEBIT_FUNCTIONAL, CREDIT_FUNCTIONAL))
    ensures SoundJournal(LinesRead(r.body, DEBIT_TRANSACTION, CREDIT_TRANSACTION))
  {
    hide Balanced, TrulyBalanced, LinesRead, Body, Print, AllMoney, AmountsBelow, Ascii;
    BodyReadsBack(form, Shown(form, options).value, r.key);
    if AmountsBelow(form.lines, Pow10(47)) {
      GateIsTrue(form.lines, Pow10(47));
    }
    SameJournalSame(LinesRead(r.body, DEBIT_FUNCTIONAL, CREDIT_FUNCTIONAL), form.lines, Pow10(47));
    SameJournalSame(LinesRead(r.body, DEBIT_TRANSACTION, CREDIT_TRANSACTION), form.lines, Pow10(47));
  }

  /** Every request any run sends is that of a form that passed the gates and says what that
      form showed, and whoever reads its body finds two to two hundred lines of amounts,
      functional and transaction alike, that truly balance while none has more than 38
      integer digits. */
  lemma SentJournalsBalance(states: seq<State>, events: seq<Event>, options: Options, i: nat, k: nat)
    requires Run(states, events, options) && i < |states| && k < |states[i].sent|
    ensures k < |states[i].forms| && SentFrom(states[i].sent[k], states[i].forms[k], options)
    ensures SaysForm(states[i].sent[k], states[i].forms[k], options)
    ensures SoundJournal(LinesRead(states[i].sent[k].body, DEBIT_FUNCTIONAL, CREDIT_FUNCTIONAL))
    ensures SoundJournal(LinesRead(states[i].sent[k].body, DEBIT_TRANSACTION, CREDIT_TRANSACTION))
  {
    RunsSound(states, events, options, i);
    var r, form := states[i].sent[k], states[i].forms[k];
    hide SaysForm, LinesRead, SoundJournal, Run, RequestOf, AllMoney, Balanced;
    assert SentFrom(r, form, options);
    SentSays(r, form, options);
    SentBalances(r, form, options);
  }

  // ------------------------------------------------------- what was typed last

  function LastDate(start: Str, events: seq<Event>, i: nat): Str
    requires i <= |events|
  {
    if i == 0 then start else if events[i - 1].SetDate? then events[i - 1].date else LastDate(start, events, i - 1)
  }

  function LastPurpose(start: Str, events: seq<Event>, i: nat): Str
    requires i <= |events|
  {
    if i == 0 then start
    else if events[i - 1].SetPurpose? then events[i - 1].purpose
    else LastPurpose(start, events, i - 1)
  }

  /** The description is emptied once a journal is saved. */
  function LastDescription(start: Str, events: seq<Event>, i: nat): Str
    requires i <= |events|
  {
    if i == 0 then start
    else if events[i - 1].SetDescription? then events[i - 1].text
    else if events[i - 1].Saved? then []
    else LastDescription(start, events, i - 1)
  }

  function LastEntity(start: Str, events: seq<Event>, i: nat): Str
    requires i <= |events|
  {
    if i == 0 then start
    else if events[i - 1].ChangeEntity? then events[i - 1].entity
    else LastEntity(start, events, i - 1)
  }

  /** A change of entity proposes that entity's first period. */
  function LastPeriod(start: Str, options: Options, events: seq<Event>, i: nat): Str
    requires i <= |events|
  {
    if i == 0 then start
    else match events[i - 1]
      case SetPeriod(period) => period
      case ChangeEntity(id) =>
        var next := FindEntity(options.entities, id);
        if next.Some? then next.value.firstPeriod else []
      case _ => LastPeriod(start, options, events, i - 1)
  }

  /** What was last typed into a cell since the lines were last replaced. */
  function LastCell(events: seq<Event>, i: nat, id: nat, column: Column): Str
    requires i <= |events|
  {
    if i == 0 then []
    else match events[i - 1]
      case EditLine(line, edited, value) =>
        if line == id && edited == column then value else LastCell(events, i - 1, id, column)
      case ChangeEntity(entity) => []
      case Saved => []
      case _ => LastCell(events, i - 1, id, column)
  }

  function Cell(line: DraftLine, column: Column): Str {
    match column
    case Account => line.account
    case Memo => line.memo
    case Debit => line.debit
    case Credit => line.credit
  }

  /** Every cell of every line shows what was last typed into it. */
  predicate CellsShown(form: Form, events: seq<Event>, i: nat)
    requires i <= |events|
  {
    forall n, column: Column | 0 <= n < |form.lines| ::
      Cell(form.lines[n], column) == LastCell(events, i, form.lines[n].id, column)
  }

  /** Nothing has been typed yet into the lines to come. */
  ghost predicate CellsToCome(form: Form, events: seq<Event>, i: nat)
    requires i <= |events|
  {
    forall id: nat, column: Column | id >= form.nextLine :: LastCell(events, i, id, column) == []
  }

  ghost predicate CellsTyped(form: Form, events: seq<Event>, i: nat)
    requires i <= |events|
  {
    CellsShown(form, events, i) && CellsToCome(form, events, i)
  }

  /** What one event does to one cell. */
  lemma CellStep(events: seq<Event>, i: nat, id: nat, column: Column)
    requires i < |events|
    ensures LastCell(events, i + 1, id, column) ==
            if events[i].EditLine? && events[i].id == id && events[i].column == column then events[i].value
            else if events[i].ChangeEntity? || events[i].Saved? then []
            else LastCell(events, i, id, column)
  {
  }

  lemma CellsToComeKept(s: State, options: Options, events: seq<Event>, i: nat)
    requires i < |events| && LinesSound(s.form) && Enabled(s, events[i]) && CellsToCome(s.form, events, i)
    ensures CellsToCome(After(s, options, events[i]).form, events, i + 1)
  {
    hide RequestOf, Submittable, WithLine, WithoutLine, LastCell, FindEntity;
    var t := After(s, options, events[i]).form;
    var next := i + 1;
    forall id: nat, column: Column | id >= t.nextLine ensures LastCell(events, next, id, column) == [] {
      CellStep(events, i, id, column);
    }
  }

  lemma CellsKept(s: State, options: Options, events: seq<Event>, i: nat)
    requires i < |events| && LinesSound(s.form) && Enabled(s, events[i]) && CellsTyped(s.form, events, i)
    ensures CellsTyped(After(s, options, events[i]).form, events, i + 1)
  {
    CellsToComeKept(s, options, events, i);
    hide RequestOf, Submittable, LinesSound, LastCell, FindEntity, CellsToCome, WithoutLine;
    var t := After(s, options, events[i]).form;
    forall n, column: Column | 0 <= n < |t.lines|
      ensures Cell(t.lines[n], column) == LastCell(events, i + 1, t.lines[n].id, column)
    {
      CellStep(events, i, t.lines[n].id, column);
      CellShown(s, options, events, i, n, column);
    }
  }

  lemma CellShown(s: State, options: Options, events: seq<Event>, i: nat, n: nat, column: Column)
    requires i < |events| && Enabled(s, events[i]) && CellsTyped(s.form, events, i)
    requires n < |After(s, options, events[i]).form.lines|
    ensures var e, line := events[i], After(s, options, events[i]).form.lines[n];
      Cell(line, column) ==
        if e.EditLine? && e.id == line.id && e.column == column then e.value
        else if e.ChangeEntity? || e.Saved? then []
        else LastCell(events, i, line.id, column)
  {
    hide RequestOf, Submittable, LastCell, FindEntity, WithoutLine;
    var e, t := events[i], After(s, options, events[i]).form;
    if e.RemoveLine? {
      WithoutLineMembers(s.form.lines, e.line);
      assert t.lines[n] in s.form.lines;
      var m :| 0 <= m < |s.form.lines| && s.form.lines[m] == t.lines[n];
      assert Cell(s.form.lines[m], column) == LastCell(events, i, s.form.lines[m].id, column);
    }
  }

  /** The fields besides the lines show what was last typed into them. */
  predicate FieldsTyped(start: Form, form: Form, options: Options, events: seq<Event>, i: nat)
    requires i <= |events|
  {
    && form.date == LastDate(start.date, events, i) && form.purpose == LastPurpose(start.purpose, events, i)
    && form.description == LastDescription(start.description, events, i)
    && form.entity == LastEntity(start.entity, events, i)
    && form.period == LastPeriod(start.period, options, events, i)
  }

  lemma FieldsKept(start: Form, s: State, options: Options, events: seq<Event>, i: nat)
    requires i < |events| && Enabled(s, events[i]) && FieldsTyped(start, s.form, options, events, i)
    ensures FieldsTyped(start, After(s, options, events[i]).form, options, events, i + 1)
  {
    hide RequestOf, Submittable, WithLine, WithoutLine, FindEntity;
  }

  /** In every state of every run each field shows what was last typed into it, and every
      account, memo and amount of every line likewise. */
  lemma {:induction false} ShowsTyped(states: seq<State>, events: seq<Event>, options: Options, i: nat)
    requires Run(states, events, options) && i < |states|
    ensures FieldsTyped(states[0].form, states[i].form, options, events, i)
    ensures CellsTyped(states[i].form, events, i)
  {
    if i == 0 {
      StartTyped(states[0], events);
    } else {
      ShowsTyped(states, events, options, i - 1);
      RunsSound(states, events, options, i - 1);
      hide CellsTyped, FieldsTyped, Enabled, After;
      CellsKept(states[i - 1], options, events, i - 1);
      FieldsKept(states[0].form, states[i - 1], options, events, i - 1);
    }
  }

  lemma StartTyped(s: State, events: seq<Event>)
    requires Start(s)
    ensures CellsTyped(s.form, events, 0)
  {
  }

  /** Lines come and go as asked: a new one is blank and last, a removed one is gone and takes
      no other with it, and any answer gives the form back. */
  lemma LinesFollow(s: State, options: Options, e: Event)
    requires LinesSound(s.form) && Enabled(s, e)
    ensures var before, t := s.form.lines, After(s, options, e).form;
      && (e.AddLine? ==>
            if |before| < 200 then
              t.lines == before + [DraftLine(s.form.nextLine, [], [], [], [])] && t.nextLine == s.form.nextLine + 1
            else t.lines == before)
      && (e.RemoveLine? && |before| > 2 ==>
            && !HasLine(t.lines, e.line)
            && forall n | 0 <= n < |before| && before[n].id != e.line :: before[n] in t.lines)
      && (e.RemoveLine? && |before| <= 2 ==> t.lines == before)
      && (e.EditLine? ==> |t.lines| == |before| && forall n | 0 <= n < |before| :: t.lines[n].id == before[n].id)
      && (e.ChangeEntity? || e.Saved? ==> t.lines == EMPTY_LINES && t.nextLine == 3)
      && (e.Saved? || e.Refused? || e.AnswerLost? ==> !t.busy)
  {
    hide RequestOf, Submittable, LinesSound, FindEntity;
    if e.RemoveLine? {
      WithoutLineGone(s.form.lines, e.line);
    }
  }

  lemma {:induction false} WithoutLineGone(lines: seq<DraftLine>, id: nat)
    ensures forall line <- WithoutLine(lines, id) :: line.id != id
    ensures forall n | 0 <= n < |lines| && lines[n].id != id :: lines[n] in WithoutLine(lines, id)
  {
    if lines != [] {
      WithoutLineGone(lines[1..], id);
      assert lines == [lines[0]] + lines[1..];
    }
  }

  /** Request `k` went out of the state in which it was submitted, with what had been typed
      until then. */
  lemma {:induction false} SentAsTyped(states: seq<State>, events: seq<Event>, options: Options, i: nat, k: nat)
    returns (j: nat)
    requires Run(states, events, options) && i < |states| && k < |states[i].sent|
    ensures j < i && events[j].Submit? && |states[j].sent| == k
    ensures k < |states[i].forms| && states[i].forms[k] == states[j].form
    ensures CellsTyped(states[j].form, events, j)
  {
    hide RequestOf, Submittable, Edited, Sound, CellsTyped;
    RunsSound(states, events, options, i);
    FormsFollow(states, events, options, i);
    if k < |states[i - 1].sent| {
      j := SentAsTyped(states, events, options, i - 1, k);
    } else {
      j := i - 1;
      ShowsTyped(states, events, options, j);
    }
  }

  lemma FormsFollow(states: seq<State>, events: seq<Event>, options: Options, i: nat)
    requires Run(states, events, options) && i < |states|
    ensures |states[i].forms| == |states[i].sent|
    ensures i > 0 ==> |states[i - 1].forms| == |states[i - 1].sent|
  {
    RunsSound(states, events, options, i);
    if i > 0 {
      RunsSound(states, events, options, i - 1);
    }
  }
}
