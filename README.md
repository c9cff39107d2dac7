# Resume and cover letter generator: a Dafny model of its core

The application takes a resume and a job description and asks a generation
model for a cover letter and a set of resume bullets. This project models
three parts of it and proves what they promise.

- **The generator form** (`JobDescriptionForm`, frontend). This part covers:
  - `convertToBullets`, which splits a paragraph on `.`, trims each fragment, drops the empty ones and appends `.` to the rest;
  - the editable bullets box, which shows the list one bullet per line and re-segments the box's text after each edit, reading every line break as a `.`;
  - the `onGenerate` handler with its local length guard and its success and failure paths;
  - the enabledness of the Copy and Download buttons.

  The form is the class `GeneratorForm.JobDescriptionForm`. Its fields are the form's view state, and its methods are the handlers. The reply of the generation service is an input to `OnGenerate`.
- **The `POST /generate/all` route** (backend). It is modelled as the function `GenerateRoute.GenerateAll`, which runs these steps in order:
  1. it checks resume, job description and tone against the forbidden patterns and strips them (`sanitize`);
  2. it requires 200 characters of stripped resume and of stripped job description;
  3. it calls the model for the cover letter, then for the bullets;
  4. it refuses an empty reply with 500;
  5. it collapses blank lines in the bullets;
  6. it maps exceptions to status codes.

  The two model calls are inputs: each one raises an exception or returns a text that may be missing. The prompts are recorded by the values filled into their templates. This makes visible how many calls were made and with what.
- **The IP block middleware** (`IPBlockMiddleware`, backend). It keeps a failure count per client address and a temporary block per address. This is the class `IpBlock.IpBlockMiddleware`, with its two tables as `map` fields. `Dispatch` updates them in place and is proved against the transition function `IpBlock.Transition`. The lemmas about `Transition` state the middleware's behaviour, including an invariant that holds across any sequence of requests. The application does not install this middleware: the lines that would are commented out at `backend/app/main.py:9` and `:55`.

`Strings` models the string built-ins the code relies on:
- JavaScript `trim`, `split`, `join` and global `replace`;
- Python `strip` and `replace`;
- ASCII case-insensitive matching.

Each has its own reference properties. Examples are the uniqueness of the trimmed form, and split and join being inverse.

## Behaviour worth knowing

- The form's guard asks for 200 trimmed UTF-16 code units of resume but only 50 of job description. Its own message and the route both ask for 200. A job description of 50 or more code units but fewer than 200 characters is therefore sent, and the route refuses it with 422 (`FormAndRoute.ShortJobDescriptionRefusedByRoute`). The form is modelled as written.
- The default tone replaces only a missing or empty tone hint. A hint made only of blanks is kept, and stripping turns it into the empty tone (`GenerateRoute.BlankToneHint`).
- The pattern check finds a match inside longer words. For example, "classname" contains "ssn" and is refused (`GenerateRoute.ClassnameIsForbidden`).
- The blank-line cleanup is one pass, so three line breaks in a row leave two (`GenerateRoute.CollapseLeavesBlankLine`).
- A line break inside a bullet survives `convertToBullets`. The bullets box turns it into a `.`, so the next edit splits that bullet in two (`Bullets.EditSplitsBulletAtLineBreak`).
- `SAFE_MIN` is bound twice in `generate.py`. The second binding, to 200, is the one in force. `MAX_RESUME_LENGTH` and `MAX_JD_LENGTH` are never read, so no upper bound applies.

## Model

| member | source | states |
|---|---|---|
| Bullets.ConvertToBullets | frontend/src/components/JobDescriptionForm.tsx:19-25 | `convertToBullets` as split on `.`, then the trim/filter/append chain; its meaning is fixed by `ConvertShape`, `ConvertConcat`, `ConvertWithoutPeriod` and `ConvertEmptyIff` below |
| Bullets.ConvertShape | frontend/src/components/JobDescriptionForm.tsx:19-25 | every element of `convertToBullets(s)` is non-empty, ends with `.`, holds no other `.` and is trimmed before that `.` |
| Bullets.Bulletize | frontend/src/components/JobDescriptionForm.tsx:22-24 | trimming, dropping empties and appending `.` never yields more bullets than fragments |
| Bullets.BulletizeShape | frontend/src/components/JobDescriptionForm.tsx:22-24 | `.`-free fragments yield only well-formed bullets |
| Bullets.FragmentBullet | frontend/src/components/JobDescriptionForm.tsx:22-24 | a `.`-free fragment that trims to non-empty gives a well-formed bullet |
| Bullets.BulletizeConcat | frontend/src/components/JobDescriptionForm.tsx:22-24 | the trim/filter/append chain distributes over concatenation of fragment lists |
| Bullets.ConvertConcat | frontend/src/components/JobDescriptionForm.tsx:20-24 | left-to-right order: the bullets of `a + "." + b` are those of `a` followed by those of `b` |
| Bullets.ConvertWithoutPeriod | frontend/src/components/JobDescriptionForm.tsx:20-24 | text without `.` gives `[]` if it trims to empty, else exactly `[trim(s) + "."]` |
| Bullets.ConvertEdgeCases | frontend/src/components/JobDescriptionForm.tsx:20-24 | `""`, `"."` and `".."` all give `[]` |
| Bullets.ConvertEmptyIff | frontend/src/components/JobDescriptionForm.tsx:20-24 | the result is empty exactly when every character is `.` or whitespace |
| Bullets.ConvertBullet | frontend/src/components/JobDescriptionForm.tsx:19-25 | a well-formed bullet segments to itself |
| Bullets.ConvertConcatOfBullets | frontend/src/components/JobDescriptionForm.tsx:19-25 | segmenting the concatenation of well-formed bullets gives the list back |
| Bullets.ConvertIdempotent | frontend/src/components/JobDescriptionForm.tsx:19-25 | `convertToBullets(concat(convertToBullets(s))) == convertToBullets(s)` |
| Bullets.BoxText | frontend/src/components/JobDescriptionForm.tsx:131 | the box text is the bullets joined with line breaks; `ResegmentBoxText` and `BulletActionsEnabled` state what it holds |
| Bullets.Resegment | frontend/src/components/JobDescriptionForm.tsx:132 | what an edit stores: the box text with line breaks read as `.`, segmented; characterised by `ResegmentBoxText`, `ResegmentConverted` and `EditSplitsBulletAtLineBreak` |
| Bullets.ResegmentBoxText | frontend/src/components/JobDescriptionForm.tsx:131-132 | joining well-formed, line-break-free bullets with `\n`, replacing `\n` by `.` and segmenting gives the list back |
| Bullets.ResegmentConverted | frontend/src/components/JobDescriptionForm.tsx:131-132 | the box round trip holds for every segmented list without line breaks |
| Bullets.LineBreakStaysInsideBullet | frontend/src/components/JobDescriptionForm.tsx:20-24 | a line break does not split a fragment: `"a\nb"` gives `["a\nb."]` |
| Bullets.EditSplitsBulletAtLineBreak | frontend/src/components/JobDescriptionForm.tsx:131-132 | a bullet holding a line break comes back from the box as two bullets |
| GeneratorForm.PassesGuard | frontend/src/components/JobDescriptionForm.tsx:29 | the guard passes iff the trimmed resume has at least 200 and the trimmed job description at least 50 UTF-16 code units; related to the route by `FormAndRoute.RouteAdmitsOnlyWhatFormSends` |
| GeneratorForm.GuardCountsCodeUnits | frontend/src/components/JobDescriptionForm.tsx:29 | a character above the Basic Multilingual Plane counts as two code units, so 100 such characters satisfy the 200 resume minimum |
| GeneratorForm.ErrorMessage | frontend/src/components/JobDescriptionForm.tsx:45-46 | an `Error` gives its message; any other thrown value gives "Generating failed" |
| GeneratorForm.JobDescriptionForm.constructor | frontend/src/components/JobDescriptionForm.tsx:8-15 | the initial view state: empty texts, default tone, no bullets, no error, not loading |
| GeneratorForm.JobDescriptionForm.EditResume | frontend/src/components/JobDescriptionForm.tsx:65-67 | the resume textarea and the upload set the resume and nothing else |
| GeneratorForm.JobDescriptionForm.EditJobDescription | frontend/src/components/JobDescriptionForm.tsx:72 | the job description textarea sets the job description and nothing else |
| GeneratorForm.JobDescriptionForm.EditCover | frontend/src/components/JobDescriptionForm.tsx:92 | the cover textarea sets the cover and nothing else |
| GeneratorForm.JobDescriptionForm.ChooseTone | frontend/src/components/JobDescriptionForm.tsx:61 | the tone selector sets the tone and nothing else |
| GeneratorForm.JobDescriptionForm.EditBullets | frontend/src/components/JobDescriptionForm.tsx:131-132 | an edit stores the re-segmented box text and leaves every other field alone; the stored bullets stay well-formed |
| GeneratorForm.JobDescriptionForm.OnGenerate | frontend/src/components/JobDescriptionForm.tsx:27-54 | a request is sent iff the trimmed resume has 200 and the trimmed job description has 50 UTF-16 code units; otherwise the error is the guard message and cover and bullets are unchanged; on a reply, cover and segmented bullets are stored and the error is cleared; on a throw, the error is the thrown message or "Generating failed" and cover and bullets are unchanged; loading ends false and the inputs are untouched |
| GeneratorForm.JobDescriptionForm.CoverActionsEnabled | frontend/src/components/JobDescriptionForm.tsx:112-119 | cover Copy/Download are enabled iff the cover has a non-whitespace character and the overlay flag is off |
| GeneratorForm.JobDescriptionForm.BulletActionsEnabled | frontend/src/components/JobDescriptionForm.tsx:153-160 | bullet Copy All/Download are enabled iff the list is non-empty, that is iff the box text is non-empty |
| GenerateRoute.ForbiddenAt | backend/app/routers/generate.py:22-23 | one of the five alternatives, each `\s*` a run of whitespace, matches at the start of the text, ignoring ASCII case; `SpacesThenMeaning` and `ForbiddenAtIgnoresCase` characterise it |
| GenerateRoute.ContainsForbidden | backend/app/routers/generate.py:27 | `FORBIDDEN.search` finds a match iff one starts at some position; `ScanFindsAnyMatch` proves this equal to the left-to-right scan |
| GenerateRoute.Sanitize | backend/app/routers/generate.py:22-29 | raises 422 iff a forbidden pattern occurs; otherwise returns a trimmed string no longer than the input |
| GenerateRoute.SanitizeStripsMargins | backend/app/routers/generate.py:29 | the returned text is the input without whitespace margins, and the only trimmed string of that kind |
| GenerateRoute.ScanFindsAnyMatch | backend/app/routers/generate.py:27 | a left-to-right search finds a match iff a match starts at some position |
| GenerateRoute.ForbiddenInside | backend/app/routers/generate.py:22-23 | a pattern inside a longer text is found |
| GenerateRoute.ClassnameIsForbidden | backend/app/routers/generate.py:22-23 | "classname" is refused because it contains "ssn" |
| GenerateRoute.SpacesThenMeaning | backend/app/routers/generate.py:23 | `\s*w` matches iff some run of whitespace is followed by `w` |
| GenerateRoute.ContainsForbiddenIgnoresCase | backend/app/routers/generate.py:23 | texts equal up to ASCII case are refused alike |
| GenerateRoute.ClearFromClean | backend/app/routers/generate.py:22-23 | a text in which no three consecutive characters begin a forbidden word holds no match |
| GenerateRoute.DefaultToneIsClean | backend/app/routers/generate.py:107 | the default tone passes the check |
| GenerateRoute.CollapseBlankLines | backend/app/routers/generate.py:181 | the replacement never lengthens the text and keeps a first or last character that is not a line break |
| GenerateRoute.CollapseKeepsOtherCharacters | backend/app/routers/generate.py:181 | the replacement removes only line breaks: every other character is kept, in order |
| GenerateRoute.CollapseFirstPair | backend/app/routers/generate.py:181 | left to right: the text before the first pair of line breaks is kept, that pair becomes one line break, and the rest is replaced on its own |
| GenerateRoute.CollapseShortens | backend/app/routers/generate.py:181 | a text holding two adjacent line breaks gets strictly shorter |
| GenerateRoute.CollapseChangesIffBlankLine | backend/app/routers/generate.py:181 | the replacement leaves a text unchanged iff it has no two adjacent line breaks |
| GenerateRoute.CollapseNoBlankLine | backend/app/routers/generate.py:181 | text without two adjacent line breaks is unchanged |
| GenerateRoute.CollapseLeavesBlankLine | backend/app/routers/generate.py:181 | one pass turns three line breaks into two |
| GenerateRoute.CleanBullets | backend/app/routers/generate.py:181 | on stripped non-empty text the cleanup is non-empty, no longer, and the outer strip changes nothing |
| GenerateRoute.ToneOrDefault | backend/app/routers/generate.py:107 | the default tone is used exactly when the hint is missing or empty |
| GenerateRoute.ReplyText | backend/app/routers/generate.py:141 | a reply's text, stripped; blank iff the reply text is missing or all whitespace (the same expression is used for the bullets at line 171) |
| GenerateRoute.StatusOf | backend/app/routers/generate.py:200-209 | an `HTTPException` keeps its status; any other exception becomes 500 |
| GenerateRoute.Admissible | backend/app/routers/generate.py:105-114 | all three sanitised inputs are pattern-free and both stripped texts have at least 200 characters; `RejectedBeforeAnyPrompt`, `LengthRule` and `Success` state what it decides |
| GenerateRoute.GenerateAll | backend/app/routers/generate.py:90-209 | at most two prompts, none unless the input is admissible; success has both prompts, a non-empty trimmed cover and non-empty trimmed bullets; a status other than 422/500 comes from a raising model call |
| GenerateRoute.RejectedBeforeAnyPrompt | backend/app/routers/generate.py:105-114 | a forbidden pattern in any input or a short stripped text gives 422 with no prompt, whatever the model replies |
| GenerateRoute.LengthRule | backend/app/routers/generate.py:110-114 | for pattern-free input, no prompt is sent iff the stripped resume or the stripped job description is shorter than 200 |
| GenerateRoute.PromptsSent | backend/app/routers/generate.py:120-166 | the cover letter prompt carries the stripped resume, job description and tone; the bullets prompt follows iff the cover letter call returned non-blank text |
| GenerateRoute.CoverLetterFailure | backend/app/routers/generate.py:133-148 | a raising or blank cover letter call ends the route with that status or 500, whatever the bullets call would do |
| GenerateRoute.BulletsFailure | backend/app/routers/generate.py:158-177 | a raising or blank bullets call ends the route with that status or 500 |
| GenerateRoute.Success | backend/app/routers/generate.py:90-193 | the route succeeds iff the input is admissible and both calls return non-blank text; the cover is the stripped reply and the bullets are exactly the one-pass collapse of the stripped reply, which keeps every character other than line breaks |
| GenerateRoute.MissingToneHint | backend/app/routers/generate.py:107 | a missing or empty hint puts the default tone in the prompt |
| GenerateRoute.BlankToneHint | backend/app/routers/generate.py:107 | a blank hint is not replaced and becomes the empty tone |
| FormAndRoute.RouteAdmitsOnlyWhatFormSends | frontend/src/components/JobDescriptionForm.tsx:29 | every request the route admits also passes the form's guard, because the code-unit count is never below the character count |
| FormAndRoute.ShortJobDescriptionRefusedByRoute | frontend/src/components/JobDescriptionForm.tsx:29 | a job description of at least 50 trimmed code units but fewer than 200 trimmed characters passes the form's guard and is refused by the route with 422 |
| IpBlock.Count | backend/app/security.py:17 | the `defaultdict(int)` read: an unseen client counts 0 |
| IpBlock.Transition | backend/app/security.py:21-45 | one `dispatch` on the tables: the request is forwarded iff there is no active block, and the status is the downstream one if forwarded, else 403; the lemmas below state the new tables |
| IpBlock.ActiveBlockRefuses | backend/app/security.py:25-31 | a block with expiry strictly after `now` gives 403, downstream is not called, and the tables are unchanged |
| IpBlock.ForwardedAndCounted | backend/app/security.py:32-40 | without an active block the request is forwarded with its status passed back; the count restarts at 0 after an expired block, rises by exactly 1 on a status of 400 or more, and is otherwise unchanged |
| IpBlock.ExpiredBlockCleared | backend/app/security.py:32-34 | an expired block is removed and the count reset, and the client is blocked again only by a failure reaching the limit |
| IpBlock.BlockAtLimit | backend/app/security.py:39-43 | after a forwarded request the client is blocked iff it failed and its count reached the limit; the block lasts until the second clock reading plus the duration |
| IpBlock.OtherClientsUnchanged | backend/app/security.py:22-43 | only the requesting client's entries can change |
| IpBlock.TransitionKeepsConsistent | backend/app/security.py:25-43 | with a limit of at least 1, every count stays within 0 and the limit, and a client is blocked iff its count equals the limit |
| IpBlock.RunKeepsConsistent | backend/app/security.py:25-43 | that invariant holds after any sequence of requests |
| IpBlock.FailuresLeadToBlock | backend/app/security.py:39-43 | an unblocked client with `k` failures is blocked after `limit - k` further failures, until the last one's clock reading plus the duration |
| IpBlock.IpBlockMiddleware.constructor | backend/app/security.py:14-19 | both tables start empty, with the given limit and duration |
| IpBlock.IpBlockMiddleware.WithDefaults | backend/app/security.py:14 | the default limit is 10 failures and the default duration is 3600 seconds |
| IpBlock.IpBlockMiddleware.Dispatch | backend/app/security.py:21-45 | the new tables, the reply status and whether downstream was called are those of `Transition` on the old tables, and the invariant is kept |
| Strings.Trim | frontend/src/components/JobDescriptionForm.tsx:22 | JavaScript `trim` and Python `strip`, as one function over one whitespace set: the result is trimmed, no longer, and empty iff the input is all whitespace |
| Strings.TrimIsInfix | backend/app/routers/generate.py:29 | trimming removes a whitespace prefix and suffix and nothing else |
| Strings.TrimUnique | backend/app/routers/generate.py:29 | the trimmed form is the only trimmed string left by removing whitespace margins |
| Strings.TrimTrimmed | frontend/src/components/JobDescriptionForm.tsx:22 | trimming a trimmed string changes nothing |
| Strings.Utf16Length | frontend/src/components/JobDescriptionForm.tsx:29 | JavaScript `.length`: at least the number of characters and at most twice it |
| Strings.Utf16LengthExtremes | frontend/src/components/JobDescriptionForm.tsx:29 | the code-unit count equals the number of characters iff no character lies above the Basic Multilingual Plane, and is twice it iff all do |
| Strings.JoinWith | frontend/src/components/JobDescriptionForm.tsx:131 | `join`: the pieces with the separator between them; `JoinSplit` and `SplitJoin` make it the inverse of `Split` |
| Strings.Split | frontend/src/components/JobDescriptionForm.tsx:21 | JavaScript `split` by one character: at least one piece, none containing the separator |
| Strings.JoinSplit | frontend/src/components/JobDescriptionForm.tsx:21 | joining the pieces with the separator gives the text back |
| Strings.SplitJoin | frontend/src/components/JobDescriptionForm.tsx:131 | splitting a join of separator-free pieces gives the pieces back |
| Strings.SplitConcat | frontend/src/components/JobDescriptionForm.tsx:21 | splitting at a separator splits the two sides independently |
| Strings.ReplaceChar | frontend/src/components/JobDescriptionForm.tsx:132 | global replace of one character: same length, replaced positions changed, all others kept |
| Strings.LowerChar | backend/app/routers/generate.py:23 | ASCII lower case: upper-case letters move to lower case and everything else is kept |

## Left out

- Strings.IsSpace: JavaScript `trim` and Python `strip` and `\s` are modelled by one whitespace predicate, the six characters space, tab, line feed, carriage return, vertical tab and form feed. On ASCII text this is exact for JavaScript but not for Python:
  - Python's `str.strip` and `\s` (the characters for which `str.isspace` holds) also include the ASCII separators `\x1c`-`\x1f`. For example, `sanitize("social\x1csecurity")` raises 422, while `GenerateRoute.Sanitize` returns the text.
  - Both languages also treat non-ASCII characters as whitespace, and their sets differ. JavaScript `trim` removes U+FEFF and Python `strip` keeps it.
  - `re.I` also folds some non-ASCII letters. The model folds only `A`-`Z`.
- GenerateRoute.Sanitize: matches `\s*` and strips over `Strings.IsSpace`, so it misses a pattern separated by `\x1c`-`\x1f` and leaves those characters at the margins.
- FormAndRoute.RouteAdmitsOnlyWhatFormSends: holds because one `Trim` serves both languages. With the two real whitespace sets it fails. For example, a resume of 199 letters followed by U+FEFF, with a job description of 200 letters, is refused by the form (JavaScript trims it to 199) and admitted by the route (Python keeps 200 characters).
- Strings.Utf16Length: a character is a Unicode scalar value, so a string holding a lone surrogate cannot be represented.
- The model calls' timeout (`generate_with_timeout`) runs on threads and `asyncio`. A timeout appears only as the model call input raising an exception with status 504.
- The rate limiter decorators and the `RateLimitExceeded` branch are library behaviour. The API-key dependency and `backend/app/deps.py` are also left out.
- The client cache, the generation SDK, its sampling settings and the prompt templates are left out. The templates module is not part of this model. Prompts are recorded by their substituted values.
- Logging has no effect on the result and is left out.
- `backend/app/main.py` is application wiring and environment configuration. The middleware is not installed there.
- The tone selector, the upload component, the HTTP client, `download` and the clipboard are left out. They are I/O or presentation. The service reply is an input to `OnGenerate`.
- The stray expression statement `9` in `onGenerate` has no effect.
- GeneratorForm.JobDescriptionForm.OnGenerate: the handler is modelled as one step over the network round trip. The intermediate state is `loading` true while the request is in flight, and the Generate button is disabled then. That state is internal to the method and cannot be observed.
- IpBlock.IpBlockMiddleware.Dispatch: requests are handled one at a time. Interleaving of concurrent requests is not modelled.
- IpBlock.Transition: times are whole seconds. The source uses `datetime` with sub-second precision. A missing client address is not modelled.
- The request schema types `resume_text` and `job_description` as required strings. The `text or ""` fallback in `sanitize` for a missing text therefore never applies, and it is not modelled.
