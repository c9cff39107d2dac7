/**
 How the form's local guard relates to the route's length rule. The form
 sends its tone as the `tone_hint` string; the route strips both texts and
 asks for 200 characters of each, while the form asks for only 50 of the
 job description.
 */
module FormAndRoute {
  import opened Wrappers
  import opened Strings
  import GeneratorForm
  import GenerateRoute

  /** The route request built from what the form sends. */
  function AsRouteRequest(req: GeneratorForm.GenerateRequest): (r: GenerateRoute.GenerateRequest)
    ensures r.resumeText == req.resumeText && r.jobDescription == req.jobDescription
    ensures r.toneHint == Some(req.toneHint)
  {
    GenerateRoute.GenerateRequest(req.resumeText, req.jobDescription, Some(req.toneHint))
  }

  /** Whatever the route admits, the form's guard lets through: Python's
      `len` counts characters, which never exceeds JavaScript's count of
      UTF-16 code units. */
  lemma RouteAdmitsOnlyWhatFormSends(req: GeneratorForm.GenerateRequest)
    requires GenerateRoute.Admissible(AsRouteRequest(req))
    ensures GeneratorForm.PassesGuard(req.resumeText, req.jobDescription)
  {
  }

  /** A job description of 50 or more UTF-16 code units but fewer than 200
      characters after trimming passes the form's guard, so a request is sent,
      and the route then refuses it with 422 before any prompt, whatever the
      model would reply. */
  lemma ShortJobDescriptionRefusedByRoute(req: GeneratorForm.GenerateRequest,
                                          coverCall: GenerateRoute.ModelCall, bulletsCall: GenerateRoute.ModelCall)
    requires Utf16Length(Trim(req.resumeText)) >= GeneratorForm.MinResumeLength
    requires Utf16Length(Trim(req.jobDescription)) >= GeneratorForm.MinJobDescriptionLength
    requires |Trim(req.jobDescription)| < GenerateRoute.SafeMin
    ensures GeneratorForm.PassesGuard(req.resumeText, req.jobDescription)
    ensures GenerateRoute.GenerateAll(AsRouteRequest(req), coverCall, bulletsCall) ==
      GenerateRoute.Outcome(GenerateRoute.Err(GenerateRoute.StatusUnprocessable), [])
  {
    GenerateRoute.RejectedBeforeAnyPrompt(AsRouteRequest(req), coverCall, bulletsCall);
  }
}
