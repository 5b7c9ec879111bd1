/** The substring checks `do_staple` and `do_verify` apply to the text the
    stapling and assessment tools print. */
module Markers {
  import opened Text
  import opened Tools

  const StapledMarker := "The staple and validate action worked!"
  const NotarizedMarker := "Notarized Developer ID"
  const ValidatedMarker := "The validate action worked!"

  /** `marker in (stdout + "\r\n" + stderr)`. */
  predicate SeenIn(o: ToolOutput, marker: string) {
    Contains(Combined(o), marker)
  }

  /** `do_staple`: whether `xcrun stapler staple -v` reports success. */
  predicate Stapled(o: ToolOutput) {
    SeenIn(o, StapledMarker)
  }

  /** What the two tools of one `do_verify` call would print; the second is
      only read when the script runs it. */
  datatype VerifyOracle = VerifyOracle(assessment: ToolOutput, validation: ToolOutput)

  /** The answer of one `do_verify` call and the commands it ran. */
  datatype Verdict = Verdict(notarized: bool, calls: seq<Action>)

  /** `do_verify`: assess the bundle; only when the assessment names a
      notarized Developer ID, validate the stapled ticket, whose answer then
      replaces the first. */
  function DoVerify(appfile: string, v: VerifyOracle): Verdict {
    var ret := SeenIn(v.assessment, NotarizedMarker);
    if ret then
      Verdict(SeenIn(v.validation, ValidatedMarker), [Assess(appfile), ValidateTicket(appfile)])
    else
      Verdict(false, [Assess(appfile)])
  }

  /** The markers hold no line break, so each check asks whether either
      stream holds its marker. */
  lemma StapledByStreams(o: ToolOutput)
    ensures Stapled(o) <==> Contains(o.stdout, StapledMarker) || Contains(o.stderr, StapledMarker)
  {
    ContainsCombined(o, StapledMarker);
  }

  /** `do_verify` is true exactly when the assessment shows the notarized
      marker and the ticket validation shows its own, in either stream. */
  lemma VerifyByStreams(appfile: string, v: VerifyOracle)
    ensures DoVerify(appfile, v).notarized <==>
              (Contains(v.assessment.stdout, NotarizedMarker) || Contains(v.assessment.stderr, NotarizedMarker))
              && (Contains(v.validation.stdout, ValidatedMarker) || Contains(v.validation.stderr, ValidatedMarker))
  {
    ContainsCombined(v.assessment, NotarizedMarker);
    ContainsCombined(v.validation, ValidatedMarker);
  }

  /** The ticket validation runs only after a positive assessment, and a
      negative assessment is the answer whatever the second tool would say. */
  lemma ValidationOnlyAfterAssessment(appfile: string, v: VerifyOracle)
    ensures var r := DoVerify(appfile, v);
      r.calls[0] == Assess(appfile)
      && (ValidateTicket(appfile) in r.calls <==> SeenIn(v.assessment, NotarizedMarker))
      && (!SeenIn(v.assessment, NotarizedMarker) ==> !r.notarized)
  {
  }
}
