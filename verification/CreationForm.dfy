/** The period creation form (src/app/_components/period-creation-form.client.tsx): an
    in-flight latch, and a reference that ties an idempotency key to one command. */
module CreationForm {
  import opened Text
  import opened Json
  import opened JsonRoundTrip
  import opened Keys

  datatype Fields = Fields(ledger: Str, year: int, reason: Str)
  datatype Command = Command(fingerprint: Str, key: Str)
  datatype Stage = Idle | SteppingUp(fields: Fields) | Waiting

  const LEDGER_ID: Str := Ascii("ledgerId")
  const FISCAL_YEAR: Str := Ascii("fiscalYear")
  const PERIOD_PATTERN: Str := Ascii("periodPattern")
  const INITIAL_STATE: Str := Ascii("initialState")
  const REASON: Str := Ascii("reason")
  const IDEMPOTENCY_KEY: Str := Ascii("idempotencyKey")
  const PERIODS_URL: Str := Ascii("/api/ledger/periods")

  function Members(f: Fields): seq<Entry<Json>> {
    [Entry(LEDGER_ID, JStr(f.ledger)), Entry(FISCAL_YEAR, JNum(f.year)), Entry(PERIOD_PATTERN, JStr(Ascii("MONTHLY"))),
     Entry(INITIAL_STATE, JStr(Ascii("OPEN"))), Entry(REASON, JStr(f.reason))]
  }

  /** `JSON.stringify(fields)` */
  function Fingerprint(f: Fields): Str {
    Print(JObj(Members(f)))
  }

  function RequestOf(f: Fields, key: Str): Request {
    Request(key, PERIODS_URL, Print(JObj(Members(f) + [Entry(IDEMPOTENCY_KEY, JStr(key))])))
  }

  /** What a server reads of a request: an open year of monthly periods for a ledger, why, and
      under which key. */
  predicate Says(r: Request, f: Fields) {
    && r.url == Ascii("/api/ledger/periods")
    && var p := Parse(r.body);
       p.Done? && p.value.JObj? && SaysFields(p.value.fields, f) && SaysTerms(p.value.fields, r.key)
  }

  predicate SaysFields(fields: seq<Entry<Json>>, f: Fields) {
    && Get(fields, Ascii("ledgerId")) == JStr(f.ledger) && Get(fields, Ascii("fiscalYear")) == JNum(f.year)
    && Get(fields, Ascii("reason")) == JStr(f.reason)
  }

  predicate SaysTerms(fields: seq<Entry<Json>>, key: Str) {
    && Get(fields, Ascii("periodPattern")) == JStr(Ascii("MONTHLY"))
    && Get(fields, Ascii("initialState")) == JStr(Ascii("OPEN"))
    && Get(fields, Ascii("idempotencyKey")) == JStr(key)
  }

  lemma NamesDiffer()
    ensures |LEDGER_ID| == 8 && |FISCAL_YEAR| == 10 && |PERIOD_PATTERN| == 13 && |INITIAL_STATE| == 12
    ensures |REASON| == 6 && |IDEMPOTENCY_KEY| == 14
  {
  }

  /** Every request says what was entered. */
  lemma RequestReadsBack(f: Fields, key: Str)
    ensures Says(RequestOf(f, key), f)
  {
    NamesDiffer();
    hide Ascii, Print, Parse, Get;
    var fields := Members(f) + [Entry(IDEMPOTENCY_KEY, JStr(key))];
    PrintReadsBack(JObj(fields));
    GetAt(fields, LEDGER_ID, 0);
    GetAt(fields, FISCAL_YEAR, 1);
    GetAt(fields, PERIOD_PATTERN, 2);
    GetAt(fields, INITIAL_STATE, 3);
    GetAt(fields, REASON, 4);
    GetAt(fields, IDEMPOTENCY_KEY, 5);
  }

  /** Different commands have different fingerprints. */
  lemma FingerprintInjective(f: Fields, g: Fields)
    requires Fingerprint(f) == Fingerprint(g)
    ensures f == g
  {
    hide Print;
    PrintInjective(JObj(Members(f)), JObj(Members(g)));
    assert Members(f)[0] == Members(g)[0] && Members(f)[1] == Members(g)[1] && Members(f)[4] == Members(g)[4];
  }

  /** The key a command goes out with: the retained one if it is the retained command. */
  function KeyFor(retained: Maybe<Command>, f: Fields, newKey: Str): Str {
    if retained.Some? && retained.value.fingerprint == Fingerprint(f) then retained.value.key else newKey
  }

  class PeriodCreationForm {
    const canCreate: bool
    const demoOnly: bool
    /** `Number(text)` where that is an integer. */
    const integer: Str -> Maybe<int>

    var ledger: Str
    var fiscalYear: Str
    var reason: Str
    var otp: Str
    var stepUpReady: bool
    var busy: bool
    var inFlight: bool
    var command: Maybe<Command>
    var stage: Stage
    /** Requests sent, the commands they carried, and the keys made. */
    var sent: seq<Request>
    var carried: seq<Fields>
    var made: set<Str>

    predicate Tied()
      reads this
    {
      && |carried| == |sent|
      && (forall i | 0 <= i < |sent| :: sent[i] == RequestOf(carried[i], sent[i].key) && sent[i].key in made)
      && (command.Some? ==>
            && command.value.key in made
            && forall i | 0 <= i < |sent| && sent[i].key == command.value.key ::
                 Fingerprint(carried[i]) == command.value.fingerprint)
    }

    /** Every command sent names a ledger, a year from 2000 to 2200, and a
        reason of at least eight units. */
    predicate Fitting()
      reads this
    {
      && (forall i | 0 <= i < |carried| ::
            carried[i].ledger != [] && 2000 <= carried[i].year <= 2200 && 8 <= |carried[i].reason|)
      && (stage.SteppingUp? ==>
            stage.fields.ledger != [] && 2000 <= stage.fields.year <= 2200 && 8 <= |stage.fields.reason|)
    }

    predicate Valid()
      reads this
    {
      Fitting() && Tied() && OneCommandPerKey(sent) && (inFlight <==> stage != Idle) && (busy <==> inFlight)
    }

    constructor (canCreate: bool, demoOnly: bool, integer: Str -> Maybe<int>, ledger: Str, fiscalYear: Str,
                 recentStepUp: bool)
      ensures Valid() && sent == [] && stage == Idle && this.ledger == ledger && this.fiscalYear == fiscalYear
      ensures this.canCreate == canCreate && this.demoOnly == demoOnly && this.integer == integer
      ensures stepUpReady == recentStepUp && reason == [] && otp == [] && command == None
    {
      this.canCreate, this.demoOnly, this.integer := canCreate, demoOnly, integer;
      this.ledger, this.fiscalYear, this.reason, this.otp := ledger, fiscalYear, [], [];
      this.stepUpReady, this.busy, this.inFlight := recentStepUp, false, false;
      this.command, this.stage := None, Idle;
      this.sent, this.carried, this.made := [], [], {};
    }

    predicate Fits(year: Maybe<int>, text: Str) {
      year.Some? && 2000 <= year.value <= 2200 && |Trim(text)| >= 8
    }

    predicate SixDigits(code: Str) {
      |code| == 6 && AllDigits(code)
    }

    /** The command the inputs spell. */
    function Entered(): Fields
      reads this
    {
      Fields(ledger, if integer(fiscalYear).Some? then integer(fiscalYear).value else 0, Trim(reason))
    }

    /** Inputs are disabled while busy. A change of command keeps the reference. */
    method Edit(ledger: Str, fiscalYear: Str, reason: Str, otp: Str)
      requires Valid() && !busy
      modifies this`ledger, this`fiscalYear, this`reason, this`otp
      ensures Valid()
      ensures this.ledger == ledger && this.fiscalYear == fiscalYear && this.reason == reason && this.otp == otp
    {
      this.ledger, this.fiscalYear, this.reason, this.otp := ledger, fiscalYear, reason, otp;
    }

    /** The tail of `create` once confirmation is in hand: the key is kept while the
        command is the one it was made for, and replaced otherwise. */
    method Send(f: Fields, newKey: Str)
      requires Tied() && Fitting() && OneCommandPerKey(sent) && newKey !in made && inFlight && busy
      requires f.ledger != [] && 2000 <= f.year <= 2200 && 8 <= |f.reason|
      modifies this`command, this`stage, this`sent, this`carried, this`made
      ensures Valid() && stage == Waiting
      ensures command.Some? && command.value.fingerprint == Fingerprint(f)
      ensures made <= old(made) + {newKey}
      ensures sent == old(sent) + [RequestOf(f, command.value.key)] && carried == old(carried) + [f]
      ensures command.value.key == KeyFor(old(command), f, newKey)
    {
      var fingerprint := Fingerprint(f);
      if command.None? || command.value.fingerprint != fingerprint {
        command := Some(Command(fingerprint, newKey));
        made := made + {newKey};
      }
      var r := RequestOf(f, command.value.key);
      SameFingerprint(f);
      SentOneMore(sent, r);
      sent := sent + [r];
      carried := carried + [f];
      stage := Waiting;
    }

    /** Everything sent under the current key carried this very command. */
    lemma SameFingerprint(f: Fields)
      requires Tied() && command.Some? && command.value.fingerprint == Fingerprint(f)
      ensures forall i | 0 <= i < |sent| && sent[i].key == command.value.key ::
        carried[i] == f && sent[i] == RequestOf(f, command.value.key)
    {
      hide Fingerprint, RequestOf;
      forall i | 0 <= i < |sent| && sent[i].key == command.value.key
        ensures carried[i] == f && sent[i] == RequestOf(f, command.value.key)
      {
        FingerprintInjective(carried[i], f);
      }
    }

    /** `create` up to its first wait. A second submission while one is under way, and one
        that fails a check, changes nothing that matters. */
    method Create(newKey: Str)
      requires Valid() && newKey !in made
      modifies this
      ensures Valid()
      ensures ledger == old(ledger) && fiscalYear == old(fiscalYear) && reason == old(reason)
      ensures var year := integer(fiscalYear);
              var fits := year.Some? && 2000 <= year.value <= 2200 && |Trim(reason)| >= 8;
              var go := !old(inFlight) && canCreate && ledger != [] && fits;
              var confirmed := demoOnly || old(stepUpReady);
              && (!go || (!confirmed && !SixDigits(old(otp))) ==>
                    sent == old(sent) && stage == old(stage) && command == old(command) && made == old(made))
              && (stage.SteppingUp? && !old(stage).SteppingUp? ==>
                    |old(otp)| == 6 && forall i | 0 <= i < 6 :: 48 <= old(otp)[i] <= 57)
              && (go && !confirmed && SixDigits(old(otp)) ==>
                    sent == old(sent) && command == old(command) && stage == SteppingUp(Entered()))
              && (go && confirmed ==>
                    && stage == Waiting && made <= old(made) + {newKey} && stepUpReady == old(stepUpReady)
                    && command == Some(Command(Fingerprint(Entered()), KeyFor(old(command), Entered(), newKey)))
                    && sent == old(sent) + [RequestOf(Entered(), KeyFor(old(command), Entered(), newKey))])
    {
      hide Fingerprint, RequestOf, Trim;
      if inFlight || !canCreate || ledger == [] {
        return;
      }
      var year := integer(fiscalYear);
      if !Fits(year, reason) {
        return;
      }
      inFlight := true;
      busy := true;
      var f := Fields(ledger, year.value, Trim(reason));
      if !demoOnly && !stepUpReady {
        if !SixDigits(otp) {
          inFlight := false;
          busy := false;
          return;
        }
        stage := SteppingUp(f);
        return;
      }
      Send(f, newKey);
    }

    /** The confirmation came back, refused or granted. */
    method StepUpAnswered(granted: bool, newKey: Str)
      requires Valid() && stage.SteppingUp? && newKey !in made
      modifies this
      ensures Valid()
      ensures !granted ==> stage == Idle && sent == old(sent) && command == old(command)
      ensures !granted ==> stepUpReady == old(stepUpReady) && otp == old(otp)
      ensures granted ==> stepUpReady && otp == []
      ensures ledger == old(ledger) && fiscalYear == old(fiscalYear) && reason == old(reason)
      ensures granted ==>
        var f := old(stage.fields);
        && stage == Waiting && command == Some(Command(Fingerprint(f), KeyFor(old(command), f, newKey)))
        && sent == old(sent) + [RequestOf(f, KeyFor(old(command), f, newKey))]
    {
      if !granted {
        stage := Idle;
        inFlight := false;
        busy := false;
        return;
      }
      var f := stage.fields;
      stepUpReady := true;
      otp := [];
      Send(f, newKey);
    }

    /** The answer, of whatever kind, or its loss: the reference survives all of them. */
    method Answered(expired: bool)
      requires Valid() && stage == Waiting
      modifies this`stage, this`inFlight, this`busy, this`stepUpReady, this`otp
      ensures Valid() && stage == Idle && command == old(command)
      ensures stepUpReady == (old(stepUpReady) && !expired) && otp == (if expired then [] else old(otp))
    {
      if expired {
        stepUpReady := false;
        otp := [];
      }
      stage := Idle;
      inFlight := false;
      busy := false;
    }
  }

  /** Submit, lose the answer, submit again unedited: the same request goes out twice. */
  method RetryAfterLostAnswer(form: PeriodCreationForm, first: Str, second: Str)
    requires form.Valid() && form.stage == Idle && first !in form.made && second !in form.made && first != second
    requires form.canCreate && form.ledger != [] && form.Fits(form.integer(form.fiscalYear), form.reason)
    requires form.demoOnly || form.stepUpReady
    modifies form
    ensures form.Valid() && |form.sent| == |old(form.sent)| + 2
    ensures form.sent[|old(form.sent)|] == form.sent[|old(form.sent)| + 1]
  {
    hide RequestOf, Fingerprint, Trim, OneCommandPerKey;
    form.Create(first);
    form.Answered(false);
    form.Create(second);
  }
}
