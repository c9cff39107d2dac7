/**
 The generator form: the view state of `JobDescriptionForm` (resume, job
 description, tone, cover letter, bullets, loading flag, error message) and
 the handlers that change it. The call to the generation service is an
 oracle: the caller passes in what the service would reply, and the form
 reports whether it sent a request at all.
 */
module GeneratorForm {
  import opened Wrappers
  import opened Strings
  import opened Bullets

  const MinResumeLength := 200
  const MinJobDescriptionLength := 50
  const GuardMessage := "Please provide at least 200 characters for resume and JD."
  const FallbackMessage := "Generating failed"
  const DefaultTone := "balanced professional"

  /** What the service call throws: an `Error` with its message, or some
      other value. */
  datatype Thrown = ErrorObject(message: string) | OtherValue

  /** The service reply: the JSON record `{cover_letter, bullets}`, or a throw. */
  datatype ServiceReply = Replied(coverLetter: string, bullets: string) | Threw(thrown: Thrown)

  /** The body the form sends to `/generate/all`. */
  datatype GenerateRequest = GenerateRequest(resumeText: string, jobDescription: string, toneHint: string)

  /** The local length guard lets the request through. Lengths are
      JavaScript's `.length`, counted in UTF-16 code units. */
  predicate PassesGuard(resumeText: string, jd: string) {
    !(Utf16Length(Trim(resumeText)) < MinResumeLength || Utf16Length(Trim(jd)) < MinJobDescriptionLength)
  }

  /** `e instanceof Error ? e.message : "Generating failed"` */
  function ErrorMessage(t: Thrown): (m: string)
    ensures t.ErrorObject? ==> m == t.message
    ensures t.OtherValue? ==> m == FallbackMessage
  {
    match t
    case ErrorObject(msg) => msg
    case OtherValue => FallbackMessage
  }

  /** Characters above the Basic Multilingual Plane count twice: a resume of
      100 such characters after trimming is long enough for the guard. */
  lemma GuardCountsCodeUnits(resumeText: string, jd: string)
    requires |Trim(resumeText)| * 2 >= MinResumeLength
    requires forall k :: 0 <= k < |Trim(resumeText)| ==> Trim(resumeText)[k] > '\U{FFFF}'
    requires Utf16Length(Trim(jd)) >= MinJobDescriptionLength
    ensures PassesGuard(resumeText, jd)
  {
    Utf16LengthExtremes(Trim(resumeText));
  }

  class JobDescriptionForm {
    var resumeText: string
    var jd: string
    var tone: string
    var cover: string
    var bullets: seq<string>
    var loading: bool
    var error: Option<string>
    /** The cover overlay's flag: initialised to false and never set. */
    const isLoading: bool

    /** Between handler runs nothing is loading, and the stored bullets are
        always the output of a segmentation. */
    ghost predicate Valid()
      reads this
    {
      !loading && !isLoading && AllBullets(bullets)
    }

    constructor ()
      ensures Valid()
      ensures resumeText == "" && jd == "" && tone == DefaultTone
      ensures cover == "" && bullets == [] && error == None
    {
      resumeText, jd, tone := "", "", DefaultTone;
      cover, bullets := "", [];
      loading, error := false, None;
      isLoading := false;
    }

    /** The resume textarea and the upload both call `setResumeText`. */
    method EditResume(text: string)
      requires Valid()
      modifies this
      ensures Valid() && resumeText == text
      ensures jd == old(jd) && tone == old(tone) && cover == old(cover)
      ensures bullets == old(bullets) && error == old(error)
    {
      resumeText := text;
    }

    method EditJobDescription(text: string)
      requires Valid()
      modifies this
      ensures Valid() && jd == text
      ensures resumeText == old(resumeText) && tone == old(tone) && cover == old(cover)
      ensures bullets == old(bullets) && error == old(error)
    {
      jd := text;
    }

    method ChooseTone(t: string)
      requires Valid()
      modifies this
      ensures Valid() && tone == t
      ensures resumeText == old(resumeText) && jd == old(jd) && cover == old(cover)
      ensures bullets == old(bullets) && error == old(error)
    {
      tone := t;
    }

    method EditCover(text: string)
      requires Valid()
      modifies this
      ensures Valid() && cover == text
      ensures resumeText == old(resumeText) && jd == old(jd) && tone == old(tone)
      ensures bullets == old(bullets) && error == old(error)
    {
      cover := text;
    }

    /** The text of the bullets textarea. */
    function BulletsBoxText(): string
      reads this
    {
      BoxText(bullets)
    }

    /** An edit of the bullets textarea re-segments its text with every line
        break read as a `.`. */
    method EditBullets(text: string)
      requires Valid()
      modifies this
      ensures Valid() && bullets == Resegment(text)
      ensures resumeText == old(resumeText) && jd == old(jd) && tone == old(tone)
      ensures cover == old(cover) && error == old(error)
    {
      ConvertShape(ReplaceChar(text, '\n', '.'));
      bullets := Resegment(text);
    }

    /** `onGenerate`: clear the error; stop with the guard message when the
        trimmed resume or job description is too short; otherwise send the
        request, store the reply (or the error message) and clear `loading`. */
    method OnGenerate(reply: ServiceReply) returns (sent: Option<GenerateRequest>)
      requires Valid()
      modifies this
      ensures Valid()
      ensures resumeText == old(resumeText) && jd == old(jd) && tone == old(tone)
      ensures sent.Some? <==> PassesGuard(old(resumeText), old(jd))
      ensures sent.Some? ==> sent.value == GenerateRequest(old(resumeText), old(jd), old(tone))
      ensures sent.None? ==>
        error == Some(GuardMessage) && cover == old(cover) && bullets == old(bullets)
      ensures sent.Some? && reply.Replied? ==>
        error == None && cover == reply.coverLetter && bullets == ConvertToBullets(reply.bullets)
      ensures sent.Some? && reply.Threw? ==>
        error == Some(ErrorMessage(reply.thrown)) && cover == old(cover) && bullets == old(bullets)
    {
      error := None;
      if Utf16Length(Trim(resumeText)) < MinResumeLength || Utf16Length(Trim(jd)) < MinJobDescriptionLength {
        error := Some(GuardMessage);
        return None;
      }
      loading := true;
      sent := Some(GenerateRequest(resumeText, jd, tone));
      match reply {
        case Replied(c, b) =>
          cover := c;
          ConvertShape(b);
          bullets := ConvertToBullets(b);
        case Threw(t) =>
          error := Some(ErrorMessage(t));
      }
      loading := false;
    }

    /** Copy and Download of the cover letter:
        `disabled={!cover || cover.trim().length === 0 || isLoading}`. */
    function CoverActionsEnabled(): (enabled: bool)
      reads this
      ensures enabled <==> !isLoading && exists k :: 0 <= k < |cover| && !IsSpace(cover[k])
    {
      !(cover == "" || Utf16Length(Trim(cover)) == 0 || isLoading)
    }

    /** Copy All and Download of the bullets: `disabled={bullets.length === 0}`. */
    function BulletActionsEnabled(): (enabled: bool)
      reads this
      requires Valid()
      ensures enabled <==> BulletsBoxText() != ""
    {
      assert |bullets| > 0 ==> |bullets[0]| >= 2;
      !(|bullets| == 0)
    }
  }
}
