/** Editing an invoice or bill draft: frozen exchange-rate evidence and review flags over
    whole runs of edits (src/app/_components/ar-ap-workspace.client.tsx). */
module DraftFx {
  import opened Text

  datatype Evidence = Evidence(rate: Str, source: Str, effectiveAt: Str)
  datatype Mode = Auto | Preserve | Explicit

  /** The editable facts of a line; `rounding` and `override` are the two source-tax switches. */
  datatype Line = Line(key: Str, texts: map<Field, Str>, override: bool, rounding: bool, reviewed: bool)

  datatype Field =
    | Description | Account | NetAmount | LineType | Category | RecoverablePercent | TaxEvidence
    | SourceRate | SourceAmount | Jurisdiction | ComponentKey | EffectiveFrom | EffectiveTo
    | SourceReason | SourceEvidence | Treatment | AdjustmentReason | AdjustmentEvidence

  datatype Draft = Draft(
    editing: Maybe<nat>, number: Str, entity: Str, party: Str, period: Str, documentDate: Str, accountingDate: Str,
    dueOn: Str, currency: Str, mode: Mode, fx: Evidence, lines: seq<Line>)

  datatype Document = Document(
    number: Str, version: nat, business: bool, entity: Str, party: Str, period: Str, documentDate: Str,
    accountingDate: Str, dueOn: Str, currency: Str, functionalCurrency: Str, fx: Evidence, lines: seq<Line>)

  datatype Party = Party(id: Str, currency: Maybe<Str>)

  /** `start` is today if a period covers it, else the first period's first day. */
  datatype Entity = Entity(
    id: Str, functionalCurrency: Str, parties: seq<Party>, start: Str, periodOn: Str -> Str, lineAccount: Str)

  datatype Workspace = Workspace(
    documents: seq<Document>, entities: seq<Entity>, suggest: (Str, Str, Str) -> Evidence, inThirtyDays: Str -> Str,
    blank: Draft)

  function FindEntity(entities: seq<Entity>, id: Str): Maybe<Entity> {
    if entities == [] then None else if entities[0].id == id then Some(entities[0]) else FindEntity(entities[1..], id)
  }

  function FindParty(parties: seq<Party>, id: Str): Maybe<Party> {
    if parties == [] then None else if parties[0].id == id then Some(parties[0]) else FindParty(parties[1..], id)
  }

  /** The first document with a number, a version and the page's kind. */
  function FindDocument(documents: seq<Document>, number: Str, version: nat): Maybe<Document> {
    if documents == [] then None
    else if documents[0].number == number && documents[0].version == version && documents[0].business then
      Some(documents[0])
    else FindDocument(documents[1..], number, version)
  }

  /** `businessDraftCanPreserveFx` */
  predicate CanPreserve(ws: Workspace, d: Draft) {
    && d.editing.Some?
    && var found := FindDocument(ws.documents, d.number, d.editing.value);
       && found.Some? && found.value.currency == d.currency && found.value.accountingDate == d.accountingDate
       && FindEntity(ws.entities, d.entity).Some?
       && found.value.functionalCurrency == FindEntity(ws.entities, d.entity).value.functionalCurrency
  }

  /** `defaultDocumentDraft` for a stored document. */
  function Loaded(doc: Document): Draft {
    Draft(Some(doc.version), doc.number, doc.entity, doc.party, doc.period, doc.documentDate, doc.accountingDate,
          doc.dueOn, doc.currency, Preserve, doc.fx, doc.lines)
  }

  // ------------------------------------------------------------------- events

  datatype Event =
    | OpenNew
    | OpenDocument(document: Document)
    | SetNumber(number: Str)
    | ChooseEntity(entity: Str)
    | ChooseParty(party: Str)
    | ChooseCurrency(currency: Str)
    | SetDocumentDate(date: Str)
    | SetAccountingDate(date: Str)
    | SetPeriod(period: Str)
    | SetDueOn(date: Str)
    | SetMode(mode: Mode)
    | ChooseSuggestion(fx: Evidence)
    | EditRate(text: Str)
    | EditSource(text: Str)
    | EditEffectiveAt(text: Str)
    | AddLine(line: Line)
    | RemoveLine(key: Str)
    | SetText(key: Str, field: Field, text: Str)
    | TickReviewed(key: Str, on: bool)
    | SwitchRounding(key: Str, on: bool)
    | SwitchOverride(key: Str, on: bool)

  datatype State = State(draft: Draft, loaded: Maybe<Document>)

  /** What the page lets happen. */
  predicate Enabled(ws: Workspace, s: State, e: Event) {
    if e.OpenNew? then true
    else if e.OpenDocument? then e.document in ws.documents && e.document.business
    else
      var entity := FindEntity(ws.entities, s.draft.entity);
      entity.Some? && Offered(ws, s.draft, entity.value, e)
  }

  predicate Offered(ws: Workspace, d: Draft, entity: Entity, e: Event) {
    match e
    case SetNumber(n) => d.editing.None?
    case ChooseEntity(id) => d.editing.None? && FindEntity(ws.entities, id).Some?
    case ChooseParty(id) => d.editing.None?
    case ChooseCurrency(c) =>
      FindParty(entity.parties, d.party).Some? ==> FindParty(entity.parties, d.party).value.currency.None?
    case SetMode(m) => d.currency != entity.functionalCurrency && (m == Preserve ==> CanPreserve(ws, d))
    case EditRate(t) => d.mode == Explicit && d.currency != entity.functionalCurrency
    case EditSource(t) => d.mode == Explicit
    case EditEffectiveAt(t) => d.mode == Explicit
    case AddLine(line) => !line.override && !line.rounding && !line.reviewed
    case RemoveLine(key) => |d.lines| != 1
    case _ => true
  }

  function Unreviewed(lines: seq<Line>): seq<Line> {
    seq(|lines|, i requires 0 <= i < |lines| => lines[i].(reviewed := false))
  }

  function Reassigned(lines: seq<Line>, account: Str): seq<Line> {
    seq(|lines|, i requires 0 <= i < |lines| =>
      lines[i].(reviewed := false, texts := lines[i].texts[Account := account]))
  }

  /** `{ ...line, sourceTaxRoundingReviewed: false, ...patch }` */
  function Patched(line: Line, e: Event, documentDate: Str): Line {
    var reset := line.(reviewed := false);
    match e
    case SetText(key, field, text) => reset.(texts := line.texts[field := text])
    case TickReviewed(key, on) => reset.(reviewed := on)
    case SwitchRounding(key, on) => reset.(rounding := on, override := false)
    case SwitchOverride(key, on) =>
      reset.(override := on, rounding := false,
             texts := if EffectiveFrom in line.texts && line.texts[EffectiveFrom] != [] then line.texts
                      else line.texts[EffectiveFrom := documentDate])
    case _ => reset
  }

  /** `updateLine` */
  function Updated(lines: seq<Line>, key: Str, e: Event, documentDate: Str): seq<Line> {
    if lines == [] then []
    else
      [if lines[0].key == key then Patched(lines[0], e, documentDate) else lines[0]]
      + Updated(lines[1..], key, e, documentDate)
  }

  function Without(lines: seq<Line>, key: Str): seq<Line> {
    if lines == [] then [] else (if lines[0].key == key then [] else [lines[0]]) + Without(lines[1..], key)
  }

  function Resolved(ws: Workspace, d: Draft, functional: Str): Draft {
    d.(mode := Auto, fx := ws.suggest(d.currency, functional, d.accountingDate), lines := Unreviewed(d.lines))
  }

  /** `chooseDocumentEntity` */
  function Moved(ws: Workspace, d: Draft, next: Entity): Draft {
    var party := if next.parties == [] then None else Some(next.parties[0]);
    var currency :=
      if party.Some? && party.value.currency.Some? then party.value.currency.value else next.functionalCurrency;
    d.(entity := next.id, party := if party.Some? then party.value.id else [], period := next.periodOn(next.start),
       documentDate := next.start, accountingDate := next.start, dueOn := ws.inThirtyDays(next.start),
       currency := currency, mode := Auto, fx := ws.suggest(currency, next.functionalCurrency, next.start),
       lines := Reassigned(d.lines, next.lineAccount))
  }

  /** `chooseDocumentParty` */
  function WithParty(ws: Workspace, d: Draft, entity: Entity, id: Str): Draft {
    var party := FindParty(entity.parties, id);
    var currency := if party.Some? && party.value.currency.Some? then party.value.currency.value else d.currency;
    if currency == d.currency then d.(party := id, lines := Unreviewed(d.lines))
    else Resolved(ws, d.(party := id, currency := currency), entity.functionalCurrency)
  }

  /** Every other change of the draft. */
  function Edited(ws: Workspace, d: Draft, entity: Entity, e: Event): Draft {
    match e
    case SetNumber(n) => d.(number := n)
    case ChooseEntity(id) =>
      var next := FindEntity(ws.entities, id);
      if next.Some? then Moved(ws, d, next.value) else d
    case ChooseParty(id) => WithParty(ws, d, entity, id)
    case ChooseCurrency(c) => if c == d.currency then d else Resolved(ws, d.(currency := c), entity.functionalCurrency)
    case SetDocumentDate(date) => d.(documentDate := date, dueOn := ws.inThirtyDays(date), lines := Unreviewed(d.lines))
    case SetAccountingDate(date) =>
      if d.mode == Explicit then d.(accountingDate := date, lines := Unreviewed(d.lines))
      else Resolved(ws, d.(accountingDate := date), entity.functionalCurrency)
    case SetPeriod(period) => d.(period := period)
    case SetDueOn(date) => d.(dueOn := date)
    case SetMode(m) => d.(mode := m)
    case ChooseSuggestion(fx) => d.(mode := Explicit, fx := fx)
    case EditRate(t) => d.(fx := d.fx.(rate := t))
    case EditSource(t) => d.(fx := d.fx.(source := t))
    case EditEffectiveAt(t) => d.(fx := d.fx.(effectiveAt := t))
    case AddLine(line) => d.(lines := d.lines + [line])
    case RemoveLine(key) => d.(lines := Without(d.lines, key))
    case SetText(key, field, text) => d.(lines := Updated(d.lines, key, e, d.documentDate))
    case TickReviewed(key, on) => d.(lines := Updated(d.lines, key, e, d.documentDate))
    case SwitchRounding(key, on) => d.(lines := Updated(d.lines, key, e, d.documentDate))
    case SwitchOverride(key, on) => d.(lines := Updated(d.lines, key, e, d.documentDate))
    case _ => d
  }

  function After(ws: Workspace, s: State, e: Event): State
    requires Enabled(ws, s, e)
  {
    if e.OpenNew? then State(ws.blank, None)
    else if e.OpenDocument? then State(Loaded(e.document), Some(e.document))
    else s.(draft := Edited(ws, s.draft, FindEntity(ws.entities, s.draft.entity).value, e))
  }

  // --------------------------------------------------- preserved frozen evidence

  /** Preserved evidence belongs to a stored document: the one being edited, or the first
      one of the same number, version and kind. */
  predicate PreserveSound(ws: Workspace, s: State) {
    && (s.draft.editing.Some? <==> s.loaded.Some?)
    && (s.loaded.Some? ==>
          && s.draft.editing == Some(s.loaded.value.version) && s.draft.number == s.loaded.value.number
          && s.loaded.value.business && s.loaded.value in ws.documents)
    && (s.draft.mode == Preserve ==>
          && s.loaded.Some?
          && (AsStored(s.draft, s.loaded.value)
              || exists doc <- ws.documents :: Twin(ws, s.loaded.value, doc) && AsStored(s.draft, doc)))
  }

  predicate AsStored(d: Draft, doc: Document) {
    d.currency == doc.currency && d.accountingDate == doc.accountingDate
  }

  /** The document that a search by number, version and kind turns up. */
  predicate Twin(ws: Workspace, doc: Document, found: Document) {
    FindDocument(ws.documents, doc.number, doc.version) == Some(found)
  }

  /** A new draft is not being edited and asks for no preservation. */
  predicate BlankSound(ws: Workspace) {
    ws.blank.editing.None? && ws.blank.mode == Auto && forall i | 0 <= i < |ws.blank.lines| ::
      !ws.blank.lines[i].override && !ws.blank.lines[i].rounding && !ws.blank.lines[i].reviewed
  }

  lemma {:induction false} FoundIsStored(documents: seq<Document>, number: Str, version: nat)
    ensures var found := FindDocument(documents, number, version);
            found.Some? ==>
              && found.value in documents && found.value.number == number && found.value.version == version
              && found.value.business
    ensures FindDocument(documents, number, version).None? ==>
      forall doc <- documents :: !(doc.number == number && doc.version == version && doc.business)
  {
    if documents != [] {
      FoundIsStored(documents[1..], number, version);
      assert documents == [documents[0]] + documents[1..];
    }
  }

  lemma PreserveKept(ws: Workspace, s: State, e: Event)
    requires BlankSound(ws) && PreserveSound(ws, s) && Enabled(ws, s, e)
    ensures PreserveSound(ws, After(ws, s, e))
  {
    if e.OpenNew? || e.OpenDocument? {
      return;
    }
    EvidenceKept(ws, s, e);
    hide Enabled, After, AsStored, FindDocument;
    if e == SetMode(Preserve) {
      CanPreserveNow(ws, s);
      FoundIsStored(ws.documents, s.draft.number, s.draft.editing.value);
    }
  }

  lemma CanPreserveNow(ws: Workspace, s: State)
    requires Enabled(ws, s, SetMode(Preserve))
    ensures CanPreserve(ws, s.draft)
  {
    hide FindDocument, FindEntity;
  }

  /** An edit of a loaded draft keeps its document, and preserved evidence only with currency
      and accounting date. */
  lemma EvidenceKept(ws: Workspace, s: State, e: Event)
    requires Enabled(ws, s, e) && !e.OpenNew? && !e.OpenDocument?
    ensures var d, t := s.draft, After(ws, s, e);
      && t.loaded == s.loaded && t.draft.editing == d.editing && (d.editing.Some? ==> t.draft.number == d.number)
      && (t.draft.mode == Preserve ==>
            && (d.mode == Preserve || e == SetMode(Preserve))
            && t.draft.currency == d.currency && t.draft.accountingDate == d.accountingDate)
  {
    hide FindDocument, FindParty, FindEntity, Updated, Without, Unreviewed, Reassigned;
  }

  // ------------------------------------------------------------------- runs

  predicate Run(ws: Workspace, states: seq<State>, events: seq<Event>) {
    && |states| == |events| + 1 && states[0] == State(ws.blank, None)
    && forall i | 0 <= i < |events| ::
         Enabled(ws, states[i], events[i]) && states[i + 1] == After(ws, states[i], events[i])
  }

  lemma {:induction false} RunsPreserve(ws: Workspace, states: seq<State>, events: seq<Event>, i: nat)
    requires BlankSound(ws) && Run(ws, states, events) && i < |states|
    ensures PreserveSound(ws, states[i])
  {
    if i > 0 {
      RunsPreserve(ws, states, events, i - 1);
      PreserveKept(ws, states[i - 1], events[i - 1]);
    }
  }

  /** The storage guarantee: a unique index on organization, source type, number and
      version, so one stored document of the page's kind for each number and version. */
  predicate UniqueIndex(ws: Workspace) {
    forall i, j | 0 <= i < j < |ws.documents| && ws.documents[i].business && ws.documents[j].business ::
      ws.documents[i].number != ws.documents[j].number || ws.documents[i].version != ws.documents[j].version
  }

  /** The search for a stored document then turns up that document. */
  lemma {:induction false} IndexedFinds(documents: seq<Document>, doc: Document)
    requires doc in documents && doc.business
    requires forall i, j | 0 <= i < j < |documents| && documents[i].business && documents[j].business ::
      documents[i].number != documents[j].number || documents[i].version != documents[j].version
    ensures FindDocument(documents, doc.number, doc.version) == Some(doc)
  {
    var k :| 0 <= k < |documents| && documents[k] == doc;
    if k > 0 {
      assert documents[1..][k - 1] == doc;
      IndexedFinds(documents[1..], doc);
    }
  }

  /** In every run preserved evidence goes with the loaded currency and accounting date. */
  lemma PreservedMeansUnchanged(ws: Workspace, states: seq<State>, events: seq<Event>, i: nat)
    requires BlankSound(ws) && UniqueIndex(ws) && Run(ws, states, events) && i < |states|
    requires states[i].draft.mode == Preserve
    ensures states[i].loaded.Some? && AsStored(states[i].draft, states[i].loaded.value)
  {
    RunsPreserve(ws, states, events, i);
    IndexedFinds(ws.documents, states[i].loaded.value);
  }

  // ------------------------------------------- the component without the index

  predicate KeepsStored(s: State, doc: Document) {
    s.loaded == Some(doc) && s.draft.mode == Preserve ==> AsStored(s.draft, doc)
  }

  /** Every run in which evidence is preserved keeps the loaded currency and date. */
  ghost predicate PreserveSafe(ws: Workspace, doc: Document) {
    forall states: seq<State>, events: seq<Event>, i: nat | Run(ws, states, events) && i < |states| ::
      KeepsStored(states[i], doc)
  }

  /** The document's party has a currency of its own, so the page offers no other. */
  predicate PartyFixesCurrency(entity: Entity, doc: Document) {
    FindParty(entity.parties, doc.party).Some? && FindParty(entity.parties, doc.party).value.currency.Some?
  }

  /** What lets a document that the search turns up mislead the page. */
  predicate CanMislead(ws: Workspace, doc: Document, other: Document) {
    var entity := FindEntity(ws.entities, doc.entity);
    && entity.Some?
    && (other.currency != doc.currency || other.accountingDate != doc.accountingDate)
    && other.functionalCurrency == entity.value.functionalCurrency
    && other.currency != entity.value.functionalCurrency
    && (other.currency != doc.currency ==> !PartyFixesCurrency(entity.value, doc))
  }

  /** Open the document, move currency and date to the other's, then preserve. */
  lemma LookAlikeMisleads(ws: Workspace, doc: Document, other: Document)
    requires doc in ws.documents && doc.business && Twin(ws, doc, other) && CanMislead(ws, doc, other)
    ensures !PreserveSafe(ws, doc)
  {
    hide Twin, CanMislead, PreserveSafe;
    if other.currency == doc.currency {
      DateMisleads(ws, doc, other);
    } else {
      CurrencyMisleads(ws, doc, other);
    }
  }

  /** Open, take the twin's date, keep the evidence. */
  lemma DateMisleads(ws: Workspace, doc: Document, other: Document)
    requires doc in ws.documents && doc.business && Twin(ws, doc, other) && CanMislead(ws, doc, other)
    requires other.currency == doc.currency
    ensures !PreserveSafe(ws, doc)
  {
    hide FindEntity, FindDocument, FindParty;
    var s0 := State(ws.blank, None);
    var s1 := After(ws, s0, OpenDocument(doc));
    var dated := SetAccountingDate(other.accountingDate);
    var s2 := After(ws, s1, dated);
    var s3 := After(ws, s2, SetMode(Preserve));
    assert Run(ws, [s0, s1, s2, s3], [OpenDocument(doc), dated, SetMode(Preserve)]);
    assert !KeepsStored([s0, s1, s2, s3][3], doc);
  }

  /** Open, take the twin's currency and date, keep the evidence. */
  lemma CurrencyMisleads(ws: Workspace, doc: Document, other: Document)
    requires doc in ws.documents && doc.business && Twin(ws, doc, other) && CanMislead(ws, doc, other)
    requires other.currency != doc.currency
    ensures !PreserveSafe(ws, doc)
  {
    hide FindEntity, FindDocument, FindParty;
    var s0 := State(ws.blank, None);
    var s1 := After(ws, s0, OpenDocument(doc));
    var dated := SetAccountingDate(other.accountingDate);
    var s2 := After(ws, s1, ChooseCurrency(other.currency));
    var s3 := After(ws, s2, dated);
    var s4 := After(ws, s3, SetMode(Preserve));
    assert Run(ws, [s0, s1, s2, s3, s4],
               [OpenDocument(doc), ChooseCurrency(other.currency), dated, SetMode(Preserve)]);
    assert !KeepsStored([s0, s1, s2, s3, s4][4], doc);
  }

  /** Whatever the workspace holds, preservation is safe for a document exactly when the
      document that the search turns up cannot mislead. */
  lemma PreserveSafeExactly(ws: Workspace, doc: Document, other: Document)
    requires BlankSound(ws) && doc in ws.documents && doc.business && Twin(ws, doc, other)
    ensures PreserveSafe(ws, doc) <==> !CanMislead(ws, doc, other)
  {
    if CanMislead(ws, doc, other) {
      LookAlikeMisleads(ws, doc, other);
    } else {
      forall states: seq<State>, events: seq<Event>, i: nat | Run(ws, states, events) && i < |states|
        ensures KeepsStored(states[i], doc)
      {
        NeverMisled(ws, states, events, i, doc, other);
      }
    }
  }

  /** While a document is edited its entity and party stay, and its currency if the party
      fixes it. */
  predicate Bound(ws: Workspace, s: State, doc: Document) {
    s.loaded == Some(doc) ==>
      && s.draft.entity == doc.entity && s.draft.party == doc.party
      && var entity := FindEntity(ws.entities, doc.entity);
         entity.Some? && PartyFixesCurrency(entity.value, doc) ==> s.draft.currency == doc.currency
  }

  lemma {:induction false} NeverMisled(ws: Workspace, states: seq<State>, events: seq<Event>, i: nat, doc: Document,
                                       other: Document)
    requires BlankSound(ws) && Run(ws, states, events) && i < |states| && Twin(ws, doc, other)
    requires !CanMislead(ws, doc, other)
    ensures Bound(ws, states[i], doc) && KeepsStored(states[i], doc)
  {
    if i > 0 {
      NeverMisled(ws, states, events, i - 1, doc, other);
      RunsPreserve(ws, states, events, i - 1);
      NotMisledNext(ws, states[i - 1], events[i - 1], doc, other);
    }
  }

  lemma NotMisledNext(ws: Workspace, s: State, e: Event, doc: Document, other: Document)
    requires BlankSound(ws) && PreserveSound(ws, s) && Enabled(ws, s, e) && Twin(ws, doc, other)
    requires !CanMislead(ws, doc, other) && Bound(ws, s, doc) && KeepsStored(s, doc)
    ensures Bound(ws, After(ws, s, e), doc) && KeepsStored(After(ws, s, e), doc)
  {
    hide FindDocument, FindParty, FindEntity, Updated, Without, Unreviewed, Reassigned;
  }

  // -------------------------------------------------------- explicit evidence

  /** Direct edits, chosen suggestions, a change of mode, of entity or of currency, and
      opening another draft. */
  predicate TouchesEvidence(ws: Workspace, s: State, e: Event)
    requires Enabled(ws, s, e)
  {
    match e
    case OpenNew => true
    case OpenDocument(doc) => true
    case ChooseEntity(id) => true
    case ChooseParty(id) => After(ws, s, e).draft.currency != s.draft.currency
    case ChooseCurrency(c) => c != s.draft.currency
    case SetMode(m) => true
    case ChooseSuggestion(fx) => true
    case EditRate(t) => true
    case EditSource(t) => true
    case EditEffectiveAt(t) => true
    case _ => false
  }

  /** Over any stretch of a run without these, explicit evidence stays what it was. */
  lemma {:induction false} ExplicitEvidenceStays(ws: Workspace, states: seq<State>, events: seq<Event>, i: nat, j: nat)
    requires Run(ws, states, events) && i <= j < |states| && states[i].draft.mode == Explicit
    requires forall k | i <= k < j :: !TouchesEvidence(ws, states[k], events[k])
    ensures states[j].draft.mode == Explicit && states[j].draft.fx == states[i].draft.fx
    decreases j
  {
    if i < j {
      ExplicitEvidenceStays(ws, states, events, i, j - 1);
      hide FindDocument, FindParty, FindEntity, Updated, Without;
      assert !TouchesEvidence(ws, states[j - 1], events[j - 1]);
    }
  }

  // -------------------------------------------------------------- review flags

  function LineOf(lines: seq<Line>, key: Str): Maybe<Line> {
    if lines == [] then None else if lines[0].key == key then Some(lines[0]) else LineOf(lines[1..], key)
  }

  predicate ReviewedLine(d: Draft, key: Str) {
    LineOf(d.lines, key).Some? && LineOf(d.lines, key).value.reviewed
  }

  /** What a review was made of. */
  predicate SameBasis(a: Draft, b: Draft, key: Str) {
    && LineOf(a.lines, key) == LineOf(b.lines, key) && a.entity == b.entity && a.party == b.party
    && a.currency == b.currency && a.documentDate == b.documentDate && a.accountingDate == b.accountingDate
  }

  lemma {:induction false} UnreviewedLine(lines: seq<Line>, key: Str)
    ensures LineOf(Unreviewed(lines), key).Some? ==> !LineOf(Unreviewed(lines), key).value.reviewed
  {
    if lines != [] {
      UnreviewedLine(lines[1..], key);
      assert Unreviewed(lines)[1..] == Unreviewed(lines[1..]);
    }
  }

  lemma {:induction false} ReassignedLine(lines: seq<Line>, account: Str, key: Str)
    ensures LineOf(Reassigned(lines, account), key).Some? ==> !LineOf(Reassigned(lines, account), key).value.reviewed
  {
    if lines != [] {
      ReassignedLine(lines[1..], account, key);
      assert Reassigned(lines, account)[1..] == Reassigned(lines[1..], account);
    }
  }

  lemma {:induction false} UpdatedLine(lines: seq<Line>, target: Str, e: Event, date: Str, key: Str)
    ensures LineOf(Updated(lines, target, e, date), key) ==
            match LineOf(lines, key)
            case None => None
            case Some(line) => Some(if key == target then Patched(line, e, date) else line)
  {
    if lines != [] {
      UpdatedLine(lines[1..], target, e, date, key);
    }
  }

  lemma {:induction false} WithoutLine(lines: seq<Line>, target: Str, key: Str)
    ensures LineOf(Without(lines, target), key) == if key == target then None else LineOf(lines, key)
  {
    if lines != [] {
      var rest := Without(lines[1..], target);
      WithoutLine(lines[1..], target, key);
      assert lines[0].key == target ==> Without(lines, target) == rest;
      assert lines[0].key != target ==> Without(lines, target) == [lines[0]] + rest && ([lines[0]] + rest)[1..] == rest;
    }
  }

  lemma {:induction false} AddedLine(lines: seq<Line>, line: Line, key: Str)
    ensures LineOf(lines + [line], key) ==
            if LineOf(lines, key).Some? then LineOf(lines, key) else if line.key == key then Some(line) else None
  {
    if lines == [] {
      assert lines + [line] == [line] && [line][1..] == [];
    } else {
      AddedLine(lines[1..], line, key);
      assert (lines + [line])[1..] == lines[1..] + [line];
    }
  }

  /** Ticking the flag of the line, or opening a draft. */
  predicate StartsReview(e: Event, key: Str) {
    e == TickReviewed(key, true) || e.OpenNew? || e.OpenDocument?
  }

  /** A flag that is set after any other step was set before it, on the same facts. */
  lemma ReviewOutlives(ws: Workspace, s: State, e: Event, key: Str)
    requires Enabled(ws, s, e) && !StartsReview(e, key) && ReviewedLine(After(ws, s, e).draft, key)
    ensures ReviewedLine(s.draft, key) && SameBasis(s.draft, After(ws, s, e).draft, key)
  {
    hide FindDocument, FindParty, FindEntity, Updated, Without, LineOf, Unreviewed, Reassigned;
    var d := s.draft;
    UnreviewedLine(d.lines, key);
    match e
    case ChooseEntity(id) =>
      ReassignedLine(d.lines, FindEntity(ws.entities, id).value.lineAccount, key);
    case AddLine(line) => AddedLine(d.lines, line, key);
    case RemoveLine(target) => WithoutLine(d.lines, target, key);
    case SetText(target, field, text) => UpdatedLine(d.lines, target, e, d.documentDate, key);
    case TickReviewed(target, on) => UpdatedLine(d.lines, target, e, d.documentDate, key);
    case SwitchRounding(target, on) => UpdatedLine(d.lines, target, e, d.documentDate, key);
    case SwitchOverride(target, on) => UpdatedLine(d.lines, target, e, d.documentDate, key);
    case _ =>
  }

  /** Over whole runs: a flag still set was set all along since it was last ticked or
      loaded, and the line, party, entity, currency and both dates are as they were then. */
  lemma {:induction false} ReviewedMeansUnchanged(ws: Workspace, states: seq<State>, events: seq<Event>, key: Str,
                                                  i: nat, j: nat)
    requires Run(ws, states, events) && i <= j < |states| && ReviewedLine(states[j].draft, key)
    requires forall k | i <= k < j :: !StartsReview(events[k], key)
    ensures ReviewedLine(states[i].draft, key) && SameBasis(states[i].draft, states[j].draft, key)
    decreases j
  {
    hide Enabled, After, ReviewedLine, SameBasis;
    if i < j {
      assert !StartsReview(events[j - 1], key);
      ReviewOutlives(ws, states[j - 1], events[j - 1], key);
      ReviewedMeansUnchanged(ws, states, events, key, i, j - 1);
      BasisTransitive(states[i].draft, states[j - 1].draft, states[j].draft, key);
    } else {
      BasisTransitive(states[i].draft, states[j].draft, states[j].draft, key);
    }
  }

  lemma BasisTransitive(a: Draft, b: Draft, c: Draft, key: Str)
    ensures SameBasis(a, b, key) && SameBasis(b, c, key) ==> SameBasis(a, c, key)
    ensures SameBasis(a, a, key)
  {
  }

  // -------------------------------------------------------- exclusive switches

  predicate Exclusive(lines: seq<Line>) {
    forall i | 0 <= i < |lines| :: !(lines[i].override && lines[i].rounding)
  }

  lemma {:induction false} UpdatedExclusive(lines: seq<Line>, key: Str, e: Event, date: Str)
    requires Exclusive(lines)
    ensures Exclusive(Updated(lines, key, e, date))
  {
    if lines != [] {
      UpdatedExclusive(lines[1..], key, e, date);
    }
  }

  lemma {:induction false} WithoutExclusive(lines: seq<Line>, key: Str)
    requires Exclusive(lines)
    ensures Exclusive(Without(lines, key))
  {
    if lines != [] {
      WithoutExclusive(lines[1..], key);
    }
  }

  /** Rounding and override are never both on, if no stored document has them so. */
  lemma {:induction false} SwitchesExclusive(ws: Workspace, states: seq<State>, events: seq<Event>, i: nat)
    requires BlankSound(ws) && Run(ws, states, events) && i < |states|
    requires forall doc <- ws.documents :: Exclusive(doc.lines)
    ensures Exclusive(states[i].draft.lines)
  {
    if i > 0 {
      SwitchesExclusive(ws, states, events, i - 1);
      StepExclusive(ws, states[i - 1], events[i - 1]);
    }
  }

  lemma StepExclusive(ws: Workspace, s: State, e: Event)
    requires BlankSound(ws) && Enabled(ws, s, e) && Exclusive(s.draft.lines)
    requires forall doc <- ws.documents :: Exclusive(doc.lines)
    ensures Exclusive(After(ws, s, e).draft.lines)
  {
    hide FindDocument, FindParty, FindEntity, Updated, Without;
    if e.RemoveLine? {
      WithoutExclusive(s.draft.lines, e.key);
    } else if e.SetText? || e.TickReviewed? || e.SwitchRounding? || e.SwitchOverride? {
      UpdatedExclusive(s.draft.lines, e.key, e, s.draft.documentDate);
    }
  }

  // ----------------------------------------------------------- what is sent

  datatype Resolution = Resolve | Keep | Given
  datatype FxFields = FxFields(fx: Maybe<Evidence>, expectedVersion: Maybe<nat>, resolution: Maybe<Resolution>)

  /** `businessDraftFxMutationFields` */
  function FxMutation(d: Draft): FxFields {
    FxFields(if d.mode == Explicit then Some(d.fx) else None, d.editing,
             if d.editing.None? then None
             else Some(match d.mode case Auto => Resolve case Preserve => Keep case Explicit => Given))
  }

  /** In every run a request that asks to keep frozen evidence names the version of a
      stored document whose currency and accounting date it carries; evidence is sent
      exactly when it is explicit. */
  lemma KeepNamesItsDocument(ws: Workspace, states: seq<State>, events: seq<Event>, i: nat)
    requires BlankSound(ws) && UniqueIndex(ws) && Run(ws, states, events) && i < |states|
    ensures var d := states[i].draft; var m := FxMutation(d);
            && (m.fx.Some? <==> d.mode == Explicit)
            && (m.resolution == Some(Keep) ==>
                  exists doc <- ws.documents ::
                    doc.number == d.number && m.expectedVersion == Some(doc.version) && AsStored(d, doc))
            && (d.mode == Preserve ==> m.resolution == Some(Keep))
  {
    RunsPreserve(ws, states, events, i);
    if states[i].draft.mode == Preserve {
      PreservedMeansUnchanged(ws, states, events, i);
    }
  }

  // ------------------------------------------------------------ what is typed

  predicate HasKey(lines: seq<Line>, key: Str) {
    exists n | 0 <= n < |lines| :: lines[n].key == key
  }

  /** What was entered stands in the draft. */
  predicate Entered(ws: Workspace, before: Draft, t: Draft, e: Event) {
    match e
    case SetNumber(n) => t.number == n
    case ChooseEntity(id) => t.entity == id
    case ChooseParty(id) => t.party == id
    case ChooseCurrency(c) => t.currency == c
    case SetDocumentDate(date) => t.documentDate == date && t.dueOn == ws.inThirtyDays(date)
    case SetAccountingDate(date) => t.accountingDate == date
    case SetPeriod(period) => t.period == period
    case SetDueOn(date) => t.dueOn == date
    case SetMode(m) => t.mode == m && t.fx == before.fx
    case ChooseSuggestion(fx) => t.mode == Explicit && t.fx == fx
    case EditRate(text) => t.fx == Evidence(text, before.fx.source, before.fx.effectiveAt)
    case EditSource(text) => t.fx == Evidence(before.fx.rate, text, before.fx.effectiveAt)
    case EditEffectiveAt(text) => t.fx == Evidence(before.fx.rate, before.fx.source, text)
    case _ => true
  }

  /** Evidence is typed in explicit mode only, and a rate only for a foreign currency. */
  lemma EvidenceOffered(ws: Workspace, s: State, e: Event)
    requires Enabled(ws, s, e)
    ensures e.EditRate? || e.EditSource? || e.EditEffectiveAt? ==> s.draft.mode == Explicit
    ensures e.EditRate? ==>
      FunctionalCurrency(ws, s.draft).Some? && FunctionalCurrency(ws, s.draft) != Some(s.draft.currency)
  {
    hide FindDocument, FindParty, FindEntity;
  }

  lemma {:induction false} PartyFound(parties: seq<Party>, id: Str)
    ensures match FindParty(parties, id)
      case None => forall party <- parties :: party.id != id
      case Some(party) => party in parties && party.id == id
  {
    if parties != [] {
      PartyFound(parties[1..], id);
      assert parties == [parties[0]] + parties[1..];
    }
  }

  lemma {:induction false} EntityFound(entities: seq<Entity>, id: Str)
    ensures FindEntity(entities, id).Some? ==> FindEntity(entities, id).value.id == id
  {
    if entities != [] {
      EntityFound(entities[1..], id);
    }
  }

  lemma EnteredShows(ws: Workspace, s: State, e: Event)
    requires Enabled(ws, s, e)
    ensures Entered(ws, s.draft, After(ws, s, e).draft, e)
  {
    hide FindDocument, FindParty, FindEntity, Updated, Without, Unreviewed, Reassigned;
    if e.ChooseEntity? {
      EntityFound(ws.entities, e.entity);
    }
  }

  /** And what was not entered stays: each field changes only by its own events and those that
      reset it. */
  lemma OthersStay(ws: Workspace, s: State, e: Event)
    requires Enabled(ws, s, e) && !e.OpenNew? && !e.OpenDocument?
    ensures var d, t := s.draft, After(ws, s, e).draft;
      && (!e.SetNumber? ==> t.number == d.number) && t.editing == d.editing
      && (!e.ChooseEntity? ==> t.entity == d.entity)
      && (!e.ChooseEntity? && !e.ChooseParty? ==> t.party == d.party)
      && (!e.ChooseEntity? && !e.SetPeriod? ==> t.period == d.period)
      && (!e.ChooseEntity? && !e.SetDocumentDate? ==> t.documentDate == d.documentDate)
      && (!e.ChooseEntity? && !e.SetDocumentDate? && !e.SetDueOn? ==> t.dueOn == d.dueOn)
      && (!e.ChooseEntity? && !e.SetAccountingDate? ==> t.accountingDate == d.accountingDate)
      && (!e.ChooseEntity? && !e.ChooseParty? && !e.ChooseCurrency? ==> t.currency == d.currency)
  {
    hide FindDocument, FindParty, FindEntity, Updated, Without, Unreviewed, Reassigned;
  }

  /** The functional currency of the entity a draft shows. */
  function FunctionalCurrency(ws: Workspace, d: Draft): Maybe<Str> {
    match FindEntity(ws.entities, d.entity)
    case None => None
    case Some(entity) => Some(entity.functionalCurrency)
  }

  /** Where currency, entity or accounting date changed, evidence that is not explicit is the
      workspace's suggestion for what the draft now shows. */
  lemma Resuggested(ws: Workspace, s: State, e: Event)
    requires Enabled(ws, s, e) && !e.OpenNew? && !e.OpenDocument?
    ensures var d, t := s.draft, After(ws, s, e).draft;
      || t.entity != d.entity || t.currency != d.currency
      || (t.accountingDate != d.accountingDate && d.mode != Explicit) ==>
        && t.mode == Auto && FunctionalCurrency(ws, t).Some?
        && t.fx == ws.suggest(t.currency, FunctionalCurrency(ws, t).value, t.accountingDate)
  {
    hide FindDocument, FindParty, FindEntity, Updated, Without, Unreviewed, Reassigned;
    if e.ChooseEntity? {
      EntityFound(ws.entities, e.entity);
    }
  }

  /** A new entity brings its first party, that party's currency or its own, its first day and
      its line account. */
  lemma EntityBrings(ws: Workspace, s: State, id: Str)
    requires Enabled(ws, s, ChooseEntity(id))
    ensures var t, next := After(ws, s, ChooseEntity(id)).draft, FindEntity(ws.entities, id).value;
      && t.party == (if next.parties == [] then [] else next.parties[0].id)
      && t.currency == (if next.parties != [] && next.parties[0].currency.Some? then next.parties[0].currency.value
                        else next.functionalCurrency)
      && t.documentDate == t.accountingDate == next.start && t.period == next.periodOn(next.start)
      && t.dueOn == ws.inThirtyDays(next.start) && |t.lines| == |s.draft.lines|
      && forall n | 0 <= n < |t.lines| ::
           t.lines[n].key == s.draft.lines[n].key && !t.lines[n].reviewed
           && Account in t.lines[n].texts && t.lines[n].texts[Account] == next.lineAccount
  {
    hide FindDocument, FindParty, FindEntity, Updated, Without, Unreviewed;
  }

  /** A party with a currency of its own brings that one, another party leaves the currency. */
  lemma PartyBrings(ws: Workspace, s: State, id: Str)
    requires Enabled(ws, s, ChooseParty(id))
    ensures var t := After(ws, s, ChooseParty(id)).draft;
      var parties := FindEntity(ws.entities, s.draft.entity).value.parties;
      || (exists party <- parties :: party.id == id &&
            t.currency == if party.currency.Some? then party.currency.value else s.draft.currency)
      || ((forall party <- parties :: party.id != id) && t.currency == s.draft.currency)
  {
    PartyFound(FindEntity(ws.entities, s.draft.entity).value.parties, id);
    hide FindDocument, FindParty, FindEntity, Updated, Without, Unreviewed, Reassigned;
  }

  /** What a document holds is what its draft shows. */
  lemma OpenedShows(ws: Workspace, s: State, doc: Document)
    requires Enabled(ws, s, OpenDocument(doc))
    ensures var t := After(ws, s, OpenDocument(doc)).draft;
      && t.editing == Some(doc.version) && t.number == doc.number && t.entity == doc.entity && t.party == doc.party
      && t.period == doc.period && t.documentDate == doc.documentDate && t.accountingDate == doc.accountingDate
      && t.dueOn == doc.dueOn && t.currency == doc.currency && t.mode == Preserve && t.fx == doc.fx
      && t.lines == doc.lines
  {
  }

  /** What one edit of a line makes of it. */
  predicate LineEntered(before: Line, t: Line, e: Event, documentDate: Str) {
    && t.key == before.key
    && match e
       case SetText(key, field, text) =>
         && t.override == before.override && t.rounding == before.rounding && !t.reviewed
         && t.texts == before.texts[field := text]
       case TickReviewed(key, on) =>
         t.reviewed == on && t.override == before.override && t.rounding == before.rounding && t.texts == before.texts
       case SwitchRounding(key, on) =>
         t.rounding == on && !t.override && !t.reviewed && t.texts == before.texts
       case SwitchOverride(key, on) =>
         && t.override == on && !t.rounding && !t.reviewed && EffectiveFrom in t.texts
         && (EffectiveFrom in before.texts && before.texts[EffectiveFrom] != [] ==> t.texts == before.texts)
         && (EffectiveFrom !in before.texts || before.texts[EffectiveFrom] == [] ==>
               t.texts == before.texts[EffectiveFrom := documentDate])
       case _ => t == before.(reviewed := false)
  }

  predicate EditsLine(e: Event) {
    e.SetText? || e.TickReviewed? || e.SwitchRounding? || e.SwitchOverride?
  }

  lemma {:induction false} UpdatedEntered(lines: seq<Line>, key: Str, e: Event, documentDate: Str)
    ensures |Updated(lines, key, e, documentDate)| == |lines|
    ensures forall n | 0 <= n < |lines| ::
      if lines[n].key == key then LineEntered(lines[n], Updated(lines, key, e, documentDate)[n], e, documentDate)
      else Updated(lines, key, e, documentDate)[n] == lines[n]
  {
    if lines != [] {
      UpdatedEntered(lines[1..], key, e, documentDate);
    }
  }

  lemma {:induction false} WithoutKey(lines: seq<Line>, key: Str)
    ensures !HasKey(Without(lines, key), key)
    ensures forall n | 0 <= n < |lines| && lines[n].key != key :: lines[n] in Without(lines, key)
    ensures forall line <- Without(lines, key) :: line in lines
  {
    if lines != [] {
      WithoutKey(lines[1..], key);
      assert lines == [lines[0]] + lines[1..];
    }
  }

  /** An edit of a line does what it says to the lines of its key and nothing to the others; a
      new line is last; a removed one is gone and takes no other with it. */
  lemma LinesFollow(ws: Workspace, s: State, e: Event)
    requires Enabled(ws, s, e)
    ensures var before, t := s.draft.lines, After(ws, s, e).draft.lines;
      && (EditsLine(e) ==>
            && |t| == |before|
            && forall n | 0 <= n < |before| ::
                 if before[n].key == e.key then LineEntered(before[n], t[n], e, s.draft.documentDate)
                 else t[n] == before[n])
      && (e.AddLine? ==> t == before + [e.line])
      && (e.RemoveLine? ==>
            && !HasKey(t, e.key) && (forall line <- t :: line in before)
            && forall n | 0 <= n < |before| && before[n].key != e.key :: before[n] in t)
  {
    hide FindDocument, FindParty, FindEntity, Unreviewed, Reassigned, Patched, LineEntered, Updated, Without;
    if EditsLine(e) {
      UpdatedEntered(s.draft.lines, e.key, e, s.draft.documentDate);
    } else if e.RemoveLine? {
      WithoutKey(s.draft.lines, e.key);
    }
  }

  /** With a key of its own for each line, no edit takes the last line away. */
  lemma KeepsALine(ws: Workspace, s: State, e: Event)
    requires Enabled(ws, s, e) && !e.OpenNew? && !e.OpenDocument? && s.draft.lines != []
    requires forall i, j | 0 <= i < j < |s.draft.lines| :: s.draft.lines[i].key != s.draft.lines[j].key
    ensures After(ws, s, e).draft.lines != []
  {
    if e.RemoveLine? {
      LinesFollow(ws, s, e);
      assert s.draft.lines[0].key != e.key || s.draft.lines[1].key != e.key;
    } else {
      LineCountKept(ws, s, e);
    }
  }

  lemma LineCountKept(ws: Workspace, s: State, e: Event)
    requires Enabled(ws, s, e) && !e.OpenNew? && !e.OpenDocument? && !e.RemoveLine?
    ensures |After(ws, s, e).draft.lines| >= |s.draft.lines|
  {
    if EditsLine(e) {
      LinesFollow(ws, s, e);
    }
  }
}
