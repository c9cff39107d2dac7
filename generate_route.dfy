/**
 The `POST /generate/all` route as a decision function: prompt hygiene
 (`sanitize`), the minimum-length rule, the two generation calls, the bullets
 cleanup and the mapping of exceptions to status codes. The two calls to the
 generation model are inputs: each either raises an exception or returns a
 reply whose text may be missing. The prompt templates are opaque; a prompt
 is recorded by the values substituted into its template.
 */
module GenerateRoute {
  import opened Wrappers
  import opened Strings

  /** `SAFE_MIN` as rebound at module load; the earlier binding to 50 is dead. */
  const SafeMin := 200
  const DefaultTone := "balanced professional"
  const StatusUnprocessable := 422
  const StatusServerError := 500

  /** The request body; a missing `tone_hint` defaults to `""`, and an
      explicit `null` is `None`. */
  datatype GenerateRequest = GenerateRequest(resumeText: string, jobDescription: string, toneHint: Option<string>)

  datatype Exception = HttpException(status: int) | OtherException

  /** A step that either yields a value or raises. */
  datatype Try<+T> = Done(value: T) | Raises(exception: Exception)

  /** A generation call: it raises, or returns a reply whose `.text` is
      missing (`None`) or present. A missing reply object is a missing text. */
  type ModelCall = Try<Option<string>>

  /** The prompt sent to the model, by the values filled into its template. */
  datatype Prompt =
    | CoverLetterPrompt(resume: string, jobDescription: string, tone: string)
    | BulletsPrompt(resume: string, jobDescription: string)

  datatype RouteResult = Ok(cover: string, bullets: string) | Err(status: int)

  /** The route's result and the prompts it sent, in order. */
  datatype Outcome = Outcome(result: RouteResult, prompts: seq<Prompt>)

  // ---------------------------------------------------------------------
  // FORBIDDEN: (password|ssn|social\s*security|credit\s*card|api\s*key), re.I

  /** `s` starts with the lower-case word `w`, compared case-insensitively. */
  predicate HasPrefixCI(s: string, w: string) {
    |w| <= |s| && forall k :: 0 <= k < |w| ==> LowerChar(s[k]) == w[k]
  }

  /** `s` matches `\s*w` at its start. */
  predicate SpacesThen(s: string, w: string)
    decreases |s|
  {
    HasPrefixCI(s, w) || (|s| > 0 && IsSpace(s[0]) && SpacesThen(s[1..], w))
  }

  /** `s` matches `a\s*b` at its start. */
  predicate PairAt(s: string, a: string, b: string) {
    HasPrefixCI(s, a) && SpacesThen(s[|a|..], b)
  }

  /** One of the forbidden patterns matches at the start of `s`. */
  predicate ForbiddenAt(s: string) {
    || HasPrefixCI(s, "password")
    || HasPrefixCI(s, "ssn")
    || PairAt(s, "social", "security")
    || PairAt(s, "credit", "card")
    || PairAt(s, "api", "key")
  }

  /** `FORBIDDEN.search(s)` finds a match: one starts at some position. */
  predicate ContainsForbidden(s: string) {
    exists i :: 0 <= i <= |s| && ForbiddenAt(s[i..])
  }

  /** The search as a left-to-right scan: try a match here, else move on. */
  predicate ScanForbidden(s: string)
    decreases |s|
  {
    ForbiddenAt(s) || (|s| > 0 && ScanForbidden(s[1..]))
  }

  /** `sanitize(text)`: 422 when a forbidden pattern occurs anywhere;
      otherwise the text with its whitespace margins stripped. */
  function Sanitize(text: string): (r: Try<string>)
    ensures r.Raises? <==> ContainsForbidden(text)
    ensures r.Raises? ==> r.exception == HttpException(StatusUnprocessable)
    ensures r.Done? ==> IsTrimmed(r.value) && |r.value| <= |text|
  {
    if ContainsForbidden(text) then Raises(HttpException(StatusUnprocessable))
    else Done(Trim(text))
  }

  /** What a successful sanitising returns is the text without its whitespace
      margins and is the only trimmed string of that kind. */
  lemma SanitizeStripsMargins(text: string, r: string)
    requires Sanitize(text).Done?
    ensures IsInfixBetweenSpaces(Sanitize(text).value, text)
    ensures IsTrimmed(r) && IsInfixBetweenSpaces(r, text) ==> r == Sanitize(text).value
  {
    TrimIsInfix(text);
    if IsTrimmed(r) && IsInfixBetweenSpaces(r, text) {
      TrimUnique(text, r);
    }
  }

  /** The scan finds a match exactly when some position starts one. */
  lemma {:induction false} ScanFindsAnyMatch(s: string)
    ensures ScanForbidden(s) <==> ContainsForbidden(s)
    decreases |s|
  {
    assert s[0..] == s;
    if |s| > 0 {
      var t := s[1..];
      ScanFindsAnyMatch(t);
      if ContainsForbidden(t) {
        var i :| 0 <= i <= |t| && ForbiddenAt(t[i..]);
        assert t[i..] == s[i + 1..];
      }
      if ContainsForbidden(s) {
        var i :| 0 <= i <= |s| && ForbiddenAt(s[i..]);
        if i > 0 {
          assert t[i - 1..] == s[i..];
        }
      }
    }
  }

  /** A match inside a longer word is still found. */
  lemma ForbiddenInside(a: string, w: string, b: string)
    requires ForbiddenAt(w + b)
    ensures ContainsForbidden(a + w + b)
  {
    var s := a + w + b;
    assert s[|a|..] == w + b;
  }

  lemma ClassnameIsForbidden()
    ensures ContainsForbidden("classname")
  {
    assert "classname" == "cla" + "ssn" + "ame";
    assert HasPrefixCI("ssn" + "ame", "ssn");
    ForbiddenInside("cla", "ssn", "ame");
  }

  /** `\s*` may match any number of whitespace characters. */
  lemma {:induction false} SpacesThenMeaning(s: string, w: string)
    ensures SpacesThen(s, w) <==> exists k :: 0 <= k <= |s| && SpacesIn(s, 0, k) && HasPrefixCI(s[k..], w)
    decreases |s|
  {
    assert s[0..] == s;
    if HasPrefixCI(s, w) {
      assert SpacesIn(s, 0, 0);
    }
    if |s| > 0 {
      var t := s[1..];
      SpacesThenMeaning(t, w);
      if exists k :: 0 <= k <= |s| && SpacesIn(s, 0, k) && HasPrefixCI(s[k..], w) {
        var k :| 0 <= k <= |s| && SpacesIn(s, 0, k) && HasPrefixCI(s[k..], w);
        if k > 0 {
          assert t[k - 1..] == s[k..];
          assert SpacesIn(t, 0, k - 1) by {
            forall m | 0 <= m < k - 1 ensures IsSpace(t[m]) { assert t[m] == s[m + 1]; }
          }
        }
      }
      if IsSpace(s[0]) && SpacesThen(t, w) {
        var k :| 0 <= k <= |t| && SpacesIn(t, 0, k) && HasPrefixCI(t[k..], w);
        assert t[k..] == s[k + 1..];
        assert SpacesIn(s, 0, k + 1) by {
          forall m | 0 <= m < k + 1 ensures IsSpace(s[m]) { if m > 0 { assert s[m] == t[m - 1]; } }
        }
      }
    }
  }

  /** Two strings that agree up to ASCII case. */
  predicate SameIgnoringCase(s: string, t: string) {
    |s| == |t| && forall k :: 0 <= k < |s| ==> LowerChar(s[k]) == LowerChar(t[k])
  }

  lemma SameIgnoringCaseSpace(c: char, d: char)
    requires LowerChar(c) == LowerChar(d)
    ensures IsSpace(c) == IsSpace(d)
  {
  }

  lemma {:induction false} SpacesThenIgnoresCase(s: string, t: string, w: string)
    requires SameIgnoringCase(s, t)
    ensures SpacesThen(s, w) == SpacesThen(t, w)
    decreases |s|
  {
    if |s| > 0 {
      SameIgnoringCaseSpace(s[0], t[0]);
      SuffixIgnoresCase(s, t, 1);
      PrefixIgnoresCase(s, t, w);
      SpacesThenIgnoresCase(s[1..], t[1..], w);
    }
  }

  lemma SuffixIgnoresCase(s: string, t: string, n: nat)
    requires SameIgnoringCase(s, t) && n <= |s|
    ensures SameIgnoringCase(s[n..], t[n..])
  {
    forall k | 0 <= k < |s[n..]| ensures LowerChar(s[n..][k]) == LowerChar(t[n..][k]) {
      assert s[n..][k] == s[n + k] && t[n..][k] == t[n + k];
    }
  }

  lemma PrefixIgnoresCase(s: string, t: string, w: string)
    requires SameIgnoringCase(s, t)
    ensures HasPrefixCI(s, w) == HasPrefixCI(t, w)
  {
  }

  lemma PairIgnoresCase(s: string, t: string, a: string, b: string)
    requires SameIgnoringCase(s, t)
    ensures PairAt(s, a, b) == PairAt(t, a, b)
  {
    PrefixIgnoresCase(s, t, a);
    if |a| <= |s| {
      SuffixIgnoresCase(s, t, |a|);
      SpacesThenIgnoresCase(s[|a|..], t[|a|..], b);
    }
  }

  lemma ForbiddenAtIgnoresCase(s: string, t: string)
    requires SameIgnoringCase(s, t)
    ensures ForbiddenAt(s) == ForbiddenAt(t)
  {
    PrefixIgnoresCase(s, t, "password");
    PrefixIgnoresCase(s, t, "ssn");
    PairIgnoresCase(s, t, "social", "security");
    PairIgnoresCase(s, t, "credit", "card");
    PairIgnoresCase(s, t, "api", "key");
  }

  /** The check is case-insensitive: strings equal up to ASCII case are
      treated alike. */
  lemma ContainsForbiddenIgnoresCase(s: string, t: string)
    requires SameIgnoringCase(s, t)
    ensures ContainsForbidden(s) == ContainsForbidden(t)
  {
    if ContainsForbidden(s) {
      var i :| 0 <= i <= |s| && ForbiddenAt(s[i..]);
      SuffixIgnoresCase(s, t, i);
      ForbiddenAtIgnoresCase(s[i..], t[i..]);
    }
    if ContainsForbidden(t) {
      var i :| 0 <= i <= |t| && ForbiddenAt(t[i..]);
      SuffixIgnoresCase(s, t, i);
      ForbiddenAtIgnoresCase(s[i..], t[i..]);
    }
  }

  /** The first three letters of one of the forbidden words. */
  predicate WordStart(c: char, d: char, e: char) {
    || (c == 'p' && d == 'a' && e == 's')
    || (c == 's' && d == 's' && e == 'n')
    || (c == 's' && d == 'o' && e == 'c')
    || (c == 'c' && d == 'r' && e == 'e')
    || (c == 'a' && d == 'p' && e == 'i')
  }
  /** No three consecutive characters from index `i` on lower-case to the
      start of a forbidden word, so no pattern can match there. */
  predicate ClearFrom(s: string, i: nat)
    decreases |s| - i
  {
    i + 2 >= |s| || (!WordStart(LowerChar(s[i]), LowerChar(s[i + 1]), LowerChar(s[i + 2])) && ClearFrom(s, i + 1))
  }
  lemma ClearHere(s: string)
    requires |s| >= 3 ==> !WordStart(LowerChar(s[0]), LowerChar(s[1]), LowerChar(s[2]))
    ensures !ForbiddenAt(s)
  {
  }
  /** No match starts in a clear stretch of text. */
  lemma {:induction false} ClearFromClean(s: string, i: nat)
    requires i <= |s| && ClearFrom(s, i)
    ensures forall j :: i <= j <= |s| ==> !ForbiddenAt(s[j..])
    decreases |s| - i
  {
    ClearHere(s[i..]);
    if i < |s| {
      ClearFromClean(s, i + 1);
    }
  }

  /** The default tone passes the check. */
  lemma DefaultToneIsClean()
    ensures !ContainsForbidden(DefaultTone)
  {
    var s := DefaultTone;
    assert ClearFrom(s, 19);
    assert ClearFrom(s, 18);
    assert ClearFrom(s, 17);
    assert ClearFrom(s, 16);
    assert ClearFrom(s, 15);
    assert ClearFrom(s, 14);
    assert ClearFrom(s, 13);
    assert ClearFrom(s, 12);
    assert ClearFrom(s, 11);
    assert ClearFrom(s, 10);
    assert ClearFrom(s, 9);
    assert ClearFrom(s, 8);
    assert ClearFrom(s, 7);
    assert ClearFrom(s, 6);
    assert ClearFrom(s, 5);
    assert ClearFrom(s, 4);
    assert ClearFrom(s, 3);
    assert ClearFrom(s, 2);
    assert ClearFrom(s, 1);
    assert ClearFrom(s, 0);
    assert s[0..] == s;
    ClearFromClean(s, 0);
  }

  // ---------------------------------------------------------------------
  // bullets_text.replace("\n\n", "\n").strip()

  /** Python `s.replace("\n\n", "\n")`: one left-to-right pass replacing
      non-overlapping pairs of line breaks by one. */
  function CollapseBlankLines(s: string): (r: string)
    ensures |r| <= |s|
    ensures |s| > 0 && s[0] != '\n' ==> |r| > 0 && r[0] == s[0]
    ensures |s| > 0 && s[|s| - 1] != '\n' ==> |r| > 0 && r[|r| - 1] == s[|s| - 1]
    decreases |s|
  {
    if |s| >= 2 && s[0] == '\n' && s[1] == '\n' then
      "\n" + CollapseBlankLines(s[2..])
    else if |s| == 0 then ""
    else [s[0]] + CollapseBlankLines(s[1..])
  }

  /** The characters of `s` other than line breaks, in order. */
  function WithoutLineBreaks(s: string): string {
    if |s| == 0 then "" else (if s[0] == '\n' then "" else [s[0]]) + WithoutLineBreaks(s[1..])
  }

  /** The replacement removes line breaks only: every other character is
      kept, in order. */
  lemma {:induction false} CollapseKeepsOtherCharacters(s: string)
    ensures WithoutLineBreaks(CollapseBlankLines(s)) == WithoutLineBreaks(s)
    decreases |s|
  {
    if |s| >= 2 && s[0] == '\n' && s[1] == '\n' {
      CollapseKeepsOtherCharacters(s[2..]);
      assert s[1..][1..] == s[2..];
      assert WithoutLineBreaks(s) == WithoutLineBreaks(s[2..]);
      var r := CollapseBlankLines(s[2..]);
      assert ("\n" + r)[1..] == r;
    } else if |s| > 0 {
      CollapseKeepsOtherCharacters(s[1..]);
      var r := CollapseBlankLines(s[1..]);
      assert ([s[0]] + r)[1..] == r;
    }
  }

  /** No two adjacent line breaks in `s`. */
  predicate NoBlankLine(s: string) {
    forall k :: 0 <= k < |s| - 1 ==> !(s[k] == '\n' && s[k + 1] == '\n')
  }

  /** Without a blank line the replacement changes nothing. */
  lemma {:induction false} CollapseNoBlankLine(s: string)
    requires NoBlankLine(s)
    ensures CollapseBlankLines(s) == s
    decreases |s|
  {
    if |s| > 0 {
      var t := s[1..];
      assert NoBlankLine(t) by {
        forall k | 0 <= k < |t| - 1 ensures !(t[k] == '\n' && t[k + 1] == '\n') {
          assert t[k] == s[k + 1] && t[k + 1] == s[k + 2];
        }
      }
      CollapseNoBlankLine(t);
      assert s == [s[0]] + t;
    }
  }

  /** A text with a blank line gets shorter, so the replacement leaves a text
      unchanged exactly when it has no blank line. */
  lemma {:induction false} CollapseShortens(s: string, k: nat)
    requires k + 1 < |s| && s[k] == '\n' && s[k + 1] == '\n'
    ensures |CollapseBlankLines(s)| < |s|
    decreases |s|
  {
    if !(s[0] == '\n' && s[1] == '\n') {
      assert s[1..][k - 1] == s[k] && s[1..][k] == s[k + 1];
      CollapseShortens(s[1..], k - 1);
    }
  }

  lemma CollapseChangesIffBlankLine(s: string)
    ensures CollapseBlankLines(s) == s <==> NoBlankLine(s)
  {
    if NoBlankLine(s) {
      CollapseNoBlankLine(s);
    } else {
      var k :| 0 <= k < |s| - 1 && s[k] == '\n' && s[k + 1] == '\n';
      CollapseShortens(s, k);
    }
  }

  /** The replacement goes left to right: the text up to the first pair of
      line breaks is kept, the pair becomes one line break, and the rest is
      replaced independently. */
  lemma CollapseFirstPair(a: string, b: string)
    requires NoBlankLine(a) && (a == "" || a[|a| - 1] != '\n')
    ensures CollapseBlankLines(a + "\n\n" + b) == a + "\n" + CollapseBlankLines(b)
  {
    var s := a + "\n\n" + b;
    assert s[..|a|] == a && s[|a| + 2..] == b;
    CollapseAtFirstPair(s, |a|);
  }

  /** `CollapseFirstPair` with the first pair at index `k` of `s`. */
  lemma {:induction false} CollapseAtFirstPair(s: string, k: nat)
    requires k + 1 < |s| && s[k] == '\n' && s[k + 1] == '\n'
    requires NoBlankLine(s[..k]) && (k == 0 || s[k - 1] != '\n')
    ensures CollapseBlankLines(s) == s[..k] + "\n" + CollapseBlankLines(s[k + 2..])
    decreases k
  {
    if k > 0 {
      var t := s[1..];
      var rest := CollapseBlankLines(s[k + 2..]);
      assert t[..k - 1] == s[..k][1..];
      NoBlankLineTail(s[..k]);
      assert k - 1 > 0 ==> t[k - 2] == s[k - 1];
      assert t[k + 1..] == s[k + 2..];
      CollapseAtFirstPair(t, k - 1);
      assert CollapseBlankLines(t[k + 1..]) == rest;
      CollapseKeepsFirst(s, k);
      ConsPrefix(s, k, rest);
    }
  }

  /** A first character that does not begin a pair of line breaks is kept. */
  lemma CollapseKeepsFirst(s: string, k: nat)
    requires 0 < k < |s| && NoBlankLine(s[..k]) && (s[k] == '\n' ==> s[k - 1] != '\n')
    ensures CollapseBlankLines(s) == [s[0]] + CollapseBlankLines(s[1..])
  {
    if k == 1 {
      assert s[k - 1] == s[0];
    } else {
      assert s[..k][0] == s[0] && s[..k][1] == s[1];
    }
  }

  lemma ConsPrefix(s: string, k: nat, x: string)
    requires 0 < k <= |s|
    ensures [s[0]] + (s[1..][..k - 1] + "\n" + x) == s[..k] + "\n" + x
  {
    assert s[..k] == [s[0]] + s[1..][..k - 1];
  }

  lemma NoBlankLineTail(a: string)
    requires NoBlankLine(a) && a != ""
    ensures NoBlankLine(a[1..])
  {
    var t := a[1..];
    forall k | 0 <= k < |t| - 1 ensures !(t[k] == '\n' && t[k + 1] == '\n') {
      assert t[k] == a[k + 1] && t[k + 1] == a[k + 2];
    }
  }

  /** One pass does not remove every blank line: three line breaks leave two. */
  lemma CollapseLeavesBlankLine()
    ensures CollapseBlankLines("a\n\n\nb") == "a\n\nb"
  {
    var s := "a\n\n\nb";
    assert s[1..] == "\n\n\nb" && s[1..][2..] == "\nb" && "\nb"[1..] == "b" && "b"[1..] == "";
  }

  /** The bullets cleanup on stripped, non-empty text. */
  function CleanBullets(text: string): (r: string)
    requires IsTrimmed(text) && text != ""
    ensures r != "" && |r| <= |text|
    ensures r == CollapseBlankLines(text)
    ensures WithoutLineBreaks(r) == WithoutLineBreaks(text)
  {
    var c := CollapseBlankLines(text);
    CollapseKeepsOtherCharacters(text);
    assert IsTrimmed(c);
    TrimTrimmed(c);
    Trim(c)
  }

  // ---------------------------------------------------------------------
  // generate_all

  /** `req.tone_hint or "balanced professional"` */
  function ToneOrDefault(hint: Option<string>): (tone: string)
    ensures tone == (if hint == None || hint == Some("") then DefaultTone else hint.value)
  {
    match hint
    case None => DefaultTone
    case Some(t) => if t == "" then DefaultTone else t
  }

  /** `cl.text.strip() if cl and cl.text else ""`: a stripped text, blank
      exactly when the reply is missing or all whitespace. */
  function ReplyText(text: Option<string>): (r: string)
    ensures IsTrimmed(r)
    ensures r == "" <==> text.None? || AllSpace(text.value)
  {
    match text
    case None => ""
    case Some(t) => Trim(t)
  }

  /** The `except` clauses: an `HTTPException` keeps its status, anything
      else becomes 500. */
  function StatusOf(e: Exception): (status: int)
    ensures e.HttpException? ==> status == e.status
    ensures e.OtherException? ==> status == StatusServerError
  {
    match e
    case HttpException(s) => s
    case OtherException => StatusServerError
  }

  function Fail(e: Exception, prompts: seq<Prompt>): Outcome {
    Outcome(Err(StatusOf(e)), prompts)
  }

  /** Sanitising and the length rule both pass. */
  predicate Admissible(req: GenerateRequest) {
    && !ContainsForbidden(req.resumeText)
    && !ContainsForbidden(req.jobDescription)
    && !ContainsForbidden(ToneOrDefault(req.toneHint))
    && |Trim(req.resumeText)| >= SafeMin
    && |Trim(req.jobDescription)| >= SafeMin
  }

  /** `generate_all` with the two model calls given as inputs. */
  function GenerateAll(req: GenerateRequest, coverCall: ModelCall, bulletsCall: ModelCall): (o: Outcome)
    ensures |o.prompts| <= 2
    ensures o.prompts != [] ==> Admissible(req)
    ensures o.result.Ok? ==> |o.prompts| == 2
    ensures o.result.Ok? ==> o.result.cover != "" && IsTrimmed(o.result.cover)
    ensures o.result.Ok? ==> o.result.bullets != "" && IsTrimmed(o.result.bullets)
    ensures o.result.Err? && o.result.status != StatusUnprocessable && o.result.status != StatusServerError ==>
      o.prompts != [] && (coverCall.Raises? || bulletsCall.Raises?)
  {
    var resume := Sanitize(req.resumeText);
    if resume.Raises? then Fail(resume.exception, []) else
    var jd := Sanitize(req.jobDescription);
    if jd.Raises? then Fail(jd.exception, []) else
    var tone := Sanitize(ToneOrDefault(req.toneHint));
    if tone.Raises? then Fail(tone.exception, []) else
    if |resume.value| < SafeMin || |jd.value| < SafeMin then
      Fail(HttpException(StatusUnprocessable), [])
    else
      var coverPrompt := CoverLetterPrompt(resume.value, jd.value, tone.value);
      if coverCall.Raises? then Fail(coverCall.exception, [coverPrompt]) else
      var coverLetter := ReplyText(coverCall.value);
      if coverLetter == "" then Fail(HttpException(StatusServerError), [coverPrompt]) else
      var bulletsPrompt := BulletsPrompt(resume.value, jd.value);
      var prompts := [coverPrompt, bulletsPrompt];
      if bulletsCall.Raises? then Fail(bulletsCall.exception, prompts) else
      var bulletsText := ReplyText(bulletsCall.value);
      if bulletsText == "" then Fail(HttpException(StatusServerError), prompts) else
      Outcome(Ok(coverLetter, CleanBullets(bulletsText)), prompts)
  }

  /** Any sanitising or length failure ends the route with 422 before a
      prompt is sent, whatever the model would have replied. */
  lemma RejectedBeforeAnyPrompt(req: GenerateRequest, coverCall: ModelCall, bulletsCall: ModelCall)
    requires !Admissible(req)
    ensures GenerateAll(req, coverCall, bulletsCall) == Outcome(Err(StatusUnprocessable), [])
  {
  }

  /** With forbidden-free input, the route stops before any prompt exactly
      when one of the stripped texts is shorter than 200 characters. */
  lemma LengthRule(req: GenerateRequest, coverCall: ModelCall, bulletsCall: ModelCall)
    requires !ContainsForbidden(req.resumeText) && !ContainsForbidden(req.jobDescription)
    requires !ContainsForbidden(ToneOrDefault(req.toneHint))
    ensures GenerateAll(req, coverCall, bulletsCall).prompts == [] <==>
      |Trim(req.resumeText)| < SafeMin || |Trim(req.jobDescription)| < SafeMin
  {
    assert Sanitize(req.resumeText) == Done(Trim(req.resumeText));
    assert Sanitize(req.jobDescription) == Done(Trim(req.jobDescription));
  }

  /** The prompts carry the stripped resume, job description and tone: the
      cover letter prompt first, then the bullets prompt, which is sent
      exactly when the cover letter call returned non-blank text. */
  lemma PromptsSent(req: GenerateRequest, coverCall: ModelCall, bulletsCall: ModelCall)
    requires Admissible(req)
    ensures var o := GenerateAll(req, coverCall, bulletsCall);
      && |o.prompts| >= 1
      && o.prompts[0] == CoverLetterPrompt(Trim(req.resumeText), Trim(req.jobDescription), Trim(ToneOrDefault(req.toneHint)))
      && (|o.prompts| == 2 <==> coverCall.Done? && ReplyText(coverCall.value) != "")
      && (|o.prompts| == 2 ==> o.prompts[1] == BulletsPrompt(Trim(req.resumeText), Trim(req.jobDescription)))
  {
  }

  /** A failing cover letter call ends the route before the bullets call:
      an exception gives its status, a blank reply gives 500. */
  lemma CoverLetterFailure(req: GenerateRequest, coverCall: ModelCall, bulletsCall: ModelCall, other: ModelCall)
    requires Admissible(req)
    requires coverCall.Raises? || ReplyText(coverCall.value) == ""
    ensures GenerateAll(req, coverCall, bulletsCall) == GenerateAll(req, coverCall, other)
    ensures GenerateAll(req, coverCall, bulletsCall).result ==
      Err(if coverCall.Raises? then StatusOf(coverCall.exception) else StatusServerError)
  {
  }

  /** A failing bullets call: an exception gives its status, a blank reply 500. */
  lemma BulletsFailure(req: GenerateRequest, coverCall: ModelCall, bulletsCall: ModelCall)
    requires Admissible(req) && coverCall.Done? && ReplyText(coverCall.value) != ""
    requires bulletsCall.Raises? || ReplyText(bulletsCall.value) == ""
    ensures GenerateAll(req, coverCall, bulletsCall).result ==
      Err(if bulletsCall.Raises? then StatusOf(bulletsCall.exception) else StatusServerError)
  {
  }

  /** The route succeeds exactly when the input is admissible and both calls
      return non-blank text; the cover letter is then the stripped reply and
      the bullets are the stripped reply with each pair of line breaks
      collapsed in one pass, keeping every other character. */
  lemma Success(req: GenerateRequest, coverCall: ModelCall, bulletsCall: ModelCall)
    ensures var o := GenerateAll(req, coverCall, bulletsCall);
      o.result.Ok? <==>
        && Admissible(req)
        && coverCall.Done? && coverCall.value.Some? && !AllSpace(coverCall.value.value)
        && bulletsCall.Done? && bulletsCall.value.Some? && !AllSpace(bulletsCall.value.value)
    ensures var o := GenerateAll(req, coverCall, bulletsCall);
      o.result.Ok? ==>
        && o.result.cover == Trim(coverCall.value.value)
        && o.result.bullets == CollapseBlankLines(Trim(bulletsCall.value.value))
        && WithoutLineBreaks(o.result.bullets) == WithoutLineBreaks(Trim(bulletsCall.value.value))
        && |o.result.bullets| <= |Trim(bulletsCall.value.value)|
  {
    if bulletsCall.Done? && bulletsCall.value.Some? {
      CollapseKeepsOtherCharacters(Trim(bulletsCall.value.value));
    }
  }

  lemma SanitizeBlank()
    ensures Sanitize(" ") == Done("")
  {
    assert AllSpace(" ");
    assert " "[0..] == " ";
    ClearFromClean(" ", 0);
  }

  lemma DefaultToneTrimmed()
    ensures Trim(DefaultTone) == DefaultTone
  {
    assert DefaultTone[0] == 'b' && DefaultTone[|DefaultTone| - 1] == 'l';
    TrimTrimmed(DefaultTone);
  }

  lemma SanitizeDefaultTone()
    ensures Sanitize(DefaultTone) == Done(DefaultTone)
  {
    DefaultToneIsClean();
    DefaultToneTrimmed();
  }

  /** A missing or empty tone hint is replaced by the default tone. */
  lemma MissingToneHint(req: GenerateRequest, coverCall: ModelCall, bulletsCall: ModelCall)
    requires !ContainsForbidden(req.resumeText) && !ContainsForbidden(req.jobDescription)
    requires |Trim(req.resumeText)| >= SafeMin && |Trim(req.jobDescription)| >= SafeMin
    requires req.toneHint.None? || req.toneHint == Some("")
    ensures var o := GenerateAll(req, coverCall, bulletsCall);
      |o.prompts| >= 1 && o.prompts[0].tone == DefaultTone
  {
    SanitizeDefaultTone();
    PromptsSent(req, coverCall, bulletsCall);
  }

  /** The default applies only to a missing or empty hint: a hint of blanks
      is kept, and becomes the empty tone once stripped. */
  lemma BlankToneHint(resume: string, jd: string, coverCall: ModelCall, bulletsCall: ModelCall)
    requires !ContainsForbidden(resume) && !ContainsForbidden(jd)
    requires |Trim(resume)| >= SafeMin && |Trim(jd)| >= SafeMin
    ensures var o := GenerateAll(GenerateRequest(resume, jd, Some(" ")), coverCall, bulletsCall);
      |o.prompts| >= 1 && o.prompts[0].tone == ""
  {
    var req := GenerateRequest(resume, jd, Some(" "));
    assert ToneOrDefault(req.toneHint) == " ";
    SanitizeBlank();
    assert Admissible(req);
    PromptsSent(req, coverCall, bulletsCall);
  }
}
