/** Tax facts of a document line: stored snapshot to editable draft to what is sent back
    (src/app/_components/ar-ap-workspace.client.tsx). */
module TaxFields {
  import opened Text

  datatype Override = Override(
    ratePercent: Str, amount: Str, jurisdiction: Str, componentKey: Str, effectiveFrom: Str, effectiveTo: Maybe<Str>,
    reason: Str, evidence: Str, treatment: Maybe<Str>, adjustmentReason: Maybe<Str>, adjustmentEvidence: Maybe<Str>)

  datatype Rounding = Rounding(amount: Str, reason: Str, evidence: Str, reviewed: bool)

  /** The stored facts, and equally the fields of a mutation. */
  datatype Facts = Facts(
    evidence: Maybe<Str>, recoverable: Maybe<Str>, override: Maybe<Override>, rounding: Maybe<Rounding>)

  datatype LineDraft = LineDraft(
    recoverable: Str, evidence: Str, overrideOn: bool, roundingOn: bool, reviewed: bool, rate: Str, amount: Str,
    jurisdiction: Str, componentKey: Str, effectiveFrom: Str, effectiveTo: Str, reason: Str, sourceEvidence: Str,
    treatment: Str, adjustmentReason: Str, adjustmentEvidence: Str)

  const HST_SOURCE: Str := Ascii("HST_SOURCE")
  const HUNDRED: Str := Ascii("100")

  function Or(a: Maybe<Str>, other: Str): Str {
    if a.Some? then a.value else other
  }

  /** `text ? { field: text } : {}` */
  function Given(t: Str): Maybe<Str> {
    if t == [] then None else Some(t)
  }

  /** `businessDocumentLineDraftsFromSnapshot` for one line of a bill or an invoice. */
  function FromSnapshot(f: Facts, bill: bool, documentDate: Str): LineDraft {
    var o, r := f.override, f.rounding;
    LineDraft(
      if bill then Or(f.recoverable, HUNDRED) else [],
      Or(f.evidence, []),
      o.Some?, r.Some?, r.Some? && r.value.reviewed,
      if o.Some? then o.value.ratePercent else [],
      if o.Some? then o.value.amount else if r.Some? then r.value.amount else [],
      if o.Some? then o.value.jurisdiction else [],
      if o.Some? then o.value.componentKey else HST_SOURCE,
      if o.Some? then o.value.effectiveFrom else documentDate,
      if o.Some? then Or(o.value.effectiveTo, []) else [],
      if o.Some? then o.value.reason else if r.Some? then r.value.reason else [],
      if o.Some? then o.value.evidence else if r.Some? then r.value.evidence else [],
      if o.Some? then Or(o.value.treatment, []) else [],
      if o.Some? then Or(o.value.adjustmentReason, []) else [],
      if o.Some? then Or(o.value.adjustmentEvidence, []) else [])
  }

  /** `businessDocumentLineTaxMutationFields` */
  function Mutation(d: LineDraft, payables: bool): Facts {
    Facts(
      Given(d.evidence),
      if payables then Given(d.recoverable) else None,
      if d.overrideOn then
        Some(Override(d.rate, d.amount, d.jurisdiction, d.componentKey, d.effectiveFrom, Given(d.effectiveTo), d.reason,
                      d.sourceEvidence, Given(d.treatment), Given(d.adjustmentReason), Given(d.adjustmentEvidence)))
      else None,
      if d.roundingOn then Some(Rounding(d.amount, d.reason, d.sourceEvidence, d.reviewed)) else None)
  }

  /** A field that is stored is not stored empty. */
  predicate NotBlank(m: Maybe<Str>) {
    m != Some([])
  }

  /** Both switches share amount, reason and evidence in the draft. */
  predicate Agree(f: Facts) {
    f.override.Some? && f.rounding.Some? ==>
      && f.rounding.value.amount == f.override.value.amount
      && f.rounding.value.reason == f.override.value.reason
      && f.rounding.value.evidence == f.override.value.evidence
  }

  predicate OverrideNotBlank(f: Facts) {
    f.override.Some? ==>
      && NotBlank(f.override.value.effectiveTo) && NotBlank(f.override.value.treatment)
      && NotBlank(f.override.value.adjustmentReason) && NotBlank(f.override.value.adjustmentEvidence)
  }

  /** Saving a line unedited sends back exactly the stored facts if and only if no optional
      text is stored empty, a bill states its recoverable percentage and an invoice none,
      and an override and a rounding on one line agree. */
  lemma UneditedLineUnchangedExactly(f: Facts, bill: bool, documentDate: Str)
    ensures Mutation(FromSnapshot(f, bill, documentDate), bill) == f <==>
            && NotBlank(f.evidence) && OverrideNotBlank(f) && Agree(f)
            && (if bill then f.recoverable.Some? && NotBlank(f.recoverable) else f.recoverable.None?)
  {
  }

  /** Sending a second time changes nothing more exactly unless a bill's percentage was
      stored blank: then nothing is sent first, and the default the second time. */
  lemma SavingSettlesExactly(f: Facts, bill: bool, documentDate: Str)
    ensures var sent := Mutation(FromSnapshot(f, bill, documentDate), bill);
            Mutation(FromSnapshot(sent, bill, documentDate), bill) == sent <==> !(bill && f.recoverable == Some([]))
  {
    var sent := Mutation(FromSnapshot(f, bill, documentDate), bill);
    UneditedLineUnchangedExactly(sent, bill, documentDate);
  }
}
