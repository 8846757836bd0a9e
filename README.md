# Student report lookup page, modelled in Dafny

The page asks a student for their name, checks it, and builds the URL of the
student's report image on a fixed object-storage origin. It then loads that
image, retrying twice on failure, and shows either the report or an error.
This project models the page script's core in `main.js`:

- the checks `handleFormSubmit` applies to the name field;
- the derivation of the image URL through `encodeURIComponent`;
- the load and retry machine formed by `loadStudentReport`, the image's
  `load` and `error` handlers, the ten-second timeout and
  `handleImageLoadFailure`;
- the routines that add and remove the `hidden` class on the four page
  sections (input, loading, result, error);
- the keyboard shortcuts.

Files, one module each (plus `Wrappers`):

- `js_string.dfy` (`JsString`). ECMAScript strings as sequences of UTF-16
  code units. It defines the white space set shared by `String.prototype.trim`
  and the regular-expression escape `\s` (ECMA-262), and `Trim`.
- `name_validation.dfy` (`NameValidation`). `Validate` runs the four checks in
  the handler's order: trim, empty, longer than 20 code units, name pattern.
  It returns `Empty | TooLong | InvalidFormat | Ok(token)`.
- `uri_component.dfy` (`UriComponent`). `encodeURIComponent` as the Encode
  operation of ECMA-262: UTF-16 to code points, then UTF-8 (RFC 3629), then
  percent-encoding (section 2.1 of RFC 3986). Every unit outside the
  "unreserved" set of section 2.3 of RFC 2396 is escaped. A lone surrogate
  throws `URIError`, modelled as `None`. Its partner, `decodeURIComponent`
  (the Decode operation of ECMA-262), is proved to invert it.
- `report_locator.dfy` (`ReportLocator`). The URL is the origin, then the
  encoded name, then `.jpg`.
- `report_flow.dfy` (`ReportFlow`). The page state as a value:
  - the `hidden` set of sections;
  - the name field, the display name, the image source, and whether the
    image is still loading (`complete` is false);
  - the log of load attempts;
  - the attempts whose timeout is still armed;
  - the pending delayed calls of `loadStudentReport`.

  It has one function per routine and an `Event` type with `Step` and `Run`.
  `Inv` is an invariant every event preserves. Lemmas cover the retry bound,
  URL stability and complete scenarios.
- `page_controller.dfy` (`PageController`). The class `Page` holds those
  fields and has one method per routine and event handler. It updates the
  fields in the source's statement order. Each method is proved to take
  `State()` to the value the matching `ReportFlow` function computes. The
  event handlers also keep `ReportFlow.Inv`.

Timers are abstract events, not wall-clock time:

- A pending delayed call may fire at any later point, in any order relative
  to others.
- An armed timeout may fire as long as it has not been cleared.
- The image's `load` and `error` events can happen only while the image is
  loading. They run the handlers the latest attempt installed, because
  every attempt reassigns `onload` and `onerror`.

The model follows the code, including where it provides less than a reader
might expect:

- Nothing tags an attempt, and `resetToInput` cancels no timer.
- A timeout that fires while the image is loading runs the failure policy.
  The same attempt's `error` handler remains installed. A late `error` event
  then runs the policy a second time, and two retries with the same count
  are scheduled (`ReportFlow.LateErrorAfterTimeoutRetriesTwice`). Such a
  late error can therefore lead to more than three attempts in all.
- `showResultState` and `showErrorState` only hide the loading section and
  reveal their own. So after a reset while loading is still pending, more
  than one section can be visible. No "exactly one section visible"
  invariant is claimed.

## Model

| member | source | states |
|---|---|---|
| JsString.Trim | main.js:203 | the result is the slice of the input left after removing white space at both ends: it does not start or end with white space, everything cut off is white space, and it is empty exactly when the input is all white space |
| JsString.TrimIdempotent | main.js:203 | trimming an already trimmed value changes nothing |
| NameValidation.Validate | main.js:199-224 | the checks run in the handler's order: Empty exactly when the trimmed value is empty; TooLong exactly when it has more than 20 code units; InvalidFormat exactly when it has 1..20 units and one is outside the name class; Ok exactly when it has at most 20 units and matches the pattern, and then the token is the trimmed value |
| NameValidation.AcceptedNameShape | main.js:203-217 | an accepted name has 1..20 code units, each in U+4E00..U+9FA5, a-z, A-Z, 0-9, U+00B7, U+2022, `.` or white space, and starts and ends with a non-white-space unit |
| NameValidation.AcceptedNameIsFixpoint | main.js:203-223 | the accepted name passed to loading would pass the checks again unchanged |
| NameValidation.AcceptedNameHasNoSurrogate | main.js:216-217 | an accepted name contains no surrogate code unit |
| UriComponent.PairRoundTrip | main.js:278 | combining a high and a low surrogate into a code point and re-encoding it as UTF-16 gives the pair back |
| UriComponent.Utf8DecodeOne | main.js:278 | decoding one UTF-8 sequence, when it succeeds, yields a Unicode scalar value whose UTF-8 encoding is exactly those bytes |
| UriComponent.Utf8RoundTrip | main.js:278 | the UTF-8 encoding of a non-ASCII scalar value announces its own length in its lead byte and decodes back to that value |
| UriComponent.PercentEncode | main.js:278 | each byte becomes three units, `%` and two hex digits, so only `%` and unreserved units appear |
| UriComponent.HexDigit | main.js:278 | an escape digit is `0`-`9` or upper-case `A`-`F`, and reads back as the value it was written from |
| UriComponent.PercentEncodeLayout | main.js:278 | octet i is written at offset 3i as `%` followed by the upper-case digits of its high and low halves |
| UriComponent.EncodeUriComponent | main.js:278 | encoding succeeds exactly when the string has no lone surrogate; the result is at least as long as the input and contains only `%` and unreserved units; an unreserved first character is copied as it is, and any other first character starts an escape |
| UriComponent.UnreservedUnchanged | main.js:278 | a string made only of unreserved characters is its own encoding |
| UriComponent.EncodeCodePoint | main.js:278 | one code point's encoding: an unreserved character is itself, any other non-surrogate character is the escapes of its UTF-8 octets, and a surrogate pair is the escapes of the UTF-8 octets of the code point it stands for |
| UriComponent.EncodeAppend | main.js:278 | the encoding of two well-formed strings one after the other is the first's encoding followed by the second's, so the encoding of any string is the encodings of its code points in order |
| UriComponent.EncodeExample | main.js:278 | U+5F20 encodes to `%E5%BC%A0` with upper-case digits, and `T` followed by it to `T%E5%BC%A0` |
| UriComponent.DecodeEncode | main.js:278 | percent-decoding the encoding of a well-formed string gives the string back |
| UriComponent.NoSurrogateIsWellFormed | main.js:278 | a string without surrogate units never makes the encoding throw |
| ReportLocator.ReportUrl | main.js:278 | the URL exists exactly when the name has no lone surrogate; it is the origin, then exactly `encodeURIComponent` of the name, then `.jpg`; it depends on the name only, not on the retry count |
| ReportLocator.ReportUrlSegmentDecodes | main.js:278 | the URL's middle segment holds only `%` and unreserved units (so no `/`, `?` or `#`) and decodes back to the name |
| ReportLocator.AcceptedNameHasUrl | main.js:278 | building the URL never throws for a name the checks accepted |
| ReportFlow.ShowLoadingState | main.js:245-274 | from any combination of visible sections, afterwards exactly the loading section is visible; one start of loading with retry count 0 is scheduled for the name; nothing else changes |
| ReportFlow.HandleFormSubmit | main.js:199-224 | loading is scheduled for the trimmed name exactly when the checks accept it; a rejected value leaves the state unchanged |
| ReportFlow.LoadStudentReport | main.js:277-318 | if the URL can be built, one attempt is logged with that name, retry count and URL; its timeout is armed; the image source becomes the URL and is loading; the display name becomes the name; sections, field and pending calls are untouched; if the encoding throws, nothing changes |
| ReportFlow.ShowResultState | main.js:395-400 | the visible sections lose the loading section and gain the result section; nothing else changes |
| ReportFlow.ShowErrorState | main.js:424-429 | the visible sections lose the loading section and gain the error section; nothing else changes |
| ReportFlow.HandleImageLoadFailure | main.js:321-341 | below two retries, exactly one new call with the retry count one higher is scheduled and the sections are untouched; at the bound, the error section is shown in place of loading and nothing is scheduled |
| ReportFlow.ImageLoaded | main.js:303-308 | the load handler clears the latest attempt's timeout, marks the image complete and shows the result in place of loading |
| ReportFlow.ImageErrored | main.js:310-315 | the error handler clears the latest attempt's timeout and runs the failure policy with that attempt's own name and retry count |
| ReportFlow.TimeoutElapsed | main.js:295-301 | a timeout is disarmed; only while the image is not complete does it run the failure policy, with its own attempt's name and retry count |
| ReportFlow.DelayElapsed | main.js:271-273 | a pending delayed call is removed and loads its own name with its own retry count (0 for the start delay) |
| ReportFlow.ResetToInput | main.js:442-458 | afterwards exactly the input section is visible and the name field is empty; no timeout, pending retry or loading image is cancelled |
| ReportFlow.KeyDown | main.js:569-590 | Escape has exactly the effect of `resetToInput` when the result or the error section is visible; Enter has exactly the effect of submitting when the input section is visible and the field has focus; in every other case the state is unchanged |
| ReportFlow.SubmitKeepsInv | main.js:199-224 | submitting keeps the invariant, because an accepted name always has a URL |
| ReportFlow.FailureKeepsInv | main.js:321-341 | the failure policy, run for a logged attempt, keeps the invariant: scheduled retry counts stay within 1..2 |
| ReportFlow.DelayKeepsInv | main.js:271-273 | a delayed call firing keeps the invariant |
| ReportFlow.ImageErrorKeepsInv | main.js:310-315 | the error event keeps the invariant |
| ReportFlow.TimeoutKeepsInv | main.js:295-301 | a timeout firing keeps the invariant |
| ReportFlow.KeyKeepsInv | main.js:569-590 | a key press keeps the invariant |
| ReportFlow.StepKeepsInv | main.js:277-341 | every event keeps the invariant: attempts and pending calls are for names with a URL, retry counts stay within 0..2, each attempt requested its own name's URL, armed timeouts belong to logged attempts, and the image shows the latest attempt's URL |
| ReportFlow.RunKeepsInv | main.js:277-341 | every sequence of events keeps the invariant |
| ReportFlow.RetryCountBounded | main.js:322-340 | in every state reachable from the loaded page, no attempt has a retry count above 2 |
| ReportFlow.SameNameSameUrl | main.js:278 | any two attempts for the same name requested the same URL, whatever their retry counts |
| ReportFlow.TimeoutActsLikeError | main.js:295-315 | a timeout of the current attempt while the image is loading has the same effect as the error event, with the same retry count; only the image's loading flag differs |
| ReportFlow.LateErrorAfterTimeoutRetriesTwice | main.js:295-336 | after the current attempt's timeout counted as a failure, a later error event for the same image schedules a second retry with the same retry count |
| ReportFlow.FailedAttempt | main.js:271-340 | one pending call that fires and fails logs one attempt with its own retry count and runs the failure policy for it |
| ReportFlow.SubmitAccepted | main.js:199-224 | submitting an accepted field value schedules loading of the trimmed value, which has a URL |
| ReportFlow.ThreeFailedAttempts | main.js:277-341 | from one pending start of loading, three failing attempts log retry counts 0, 1 and 2 with one URL, then show the error section in place of loading, leaving nothing pending |
| ReportFlow.ErrorAfterThreeFailures | main.js:277-341 | from the loading section alone with one start of loading pending, three failures log three attempts with one URL, leave only the error section visible, and leave no timer or image event possible |
| ReportFlow.AlwaysFailingLoaderMakesThreeAttempts | main.js:199-341 | with a loader that reports an error for every attempt before that attempt's timeout fires, a submitted name gets exactly three attempts (retry counts 0, 1, 2, all for the name's URL); then only the error section is visible and no timer or image event is left that could start a fourth |
| ReportFlow.LoadedFirstTime | main.js:271-308 | a pending start that fires and loads logs one attempt with retry count 0 and shows only the result section |
| ReportFlow.FirstAttemptSucceeds | main.js:199-308 | a submitted name whose image loads at once is requested exactly once, as the trimmed name with retry count 0 and that name's URL, and only the result section is visible |
| PageController.Page.constructor | main.js:133-164 | the page starts with only the input section visible, an empty field and nothing pending, and satisfies the invariant |
| PageController.Page.SetNameValue | main.js:202-203 | the visitor's typing (done by the browser, not by the script) changes only the field value the submit handler reads, and keeps the invariant |
| PageController.Page.ShowLoadingState | main.js:245-274 | the fields become what `ReportFlow.ShowLoadingState` computes from the old ones |
| PageController.Page.HandleFormSubmit | main.js:199-224 | the outcome returned is the outcome of the checks on the old field value; the fields become what `ReportFlow.HandleFormSubmit` computes; the invariant is kept |
| PageController.Page.LoadStudentReport | main.js:277-318 | the fields become what `ReportFlow.LoadStudentReport` computes |
| PageController.Page.HandleImageLoadFailure | main.js:321-341 | the fields become what `ReportFlow.HandleImageLoadFailure` computes |
| PageController.Page.ShowResultState | main.js:395-400 | the fields become what `ReportFlow.ShowResultState` computes, and the invariant is kept |
| PageController.Page.ShowErrorState | main.js:424-429 | the fields become what `ReportFlow.ShowErrorState` computes, and the invariant is kept |
| PageController.Page.ResetToInput | main.js:442-458 | the fields become what `ReportFlow.ResetToInput` computes; the invariant is kept |
| PageController.Page.DelayElapsed | main.js:271-273 | the fields become what `ReportFlow.DelayElapsed` computes; the invariant is kept |
| PageController.Page.ImageLoaded | main.js:303-308 | the fields become what `ReportFlow.ImageLoaded` computes; the invariant is kept |
| PageController.Page.ImageErrored | main.js:310-315 | the fields become what `ReportFlow.ImageErrored` computes; the invariant is kept |
| PageController.Page.TimeoutElapsed | main.js:295-301 | the fields become what `ReportFlow.TimeoutElapsed` computes; the invariant is kept |
| PageController.Page.KeyDown | main.js:569-590 | the two independent key tests move the fields to what `ReportFlow.KeyDown` computes; the invariant is kept |
| PageController.Page.Handle | main.js:133-164 | whatever event happens, the fields follow `ReportFlow.Step` and the invariant is kept |

## Left out

- The particle background (main.js:13-103): p5 rendering, random floats and per-frame physics; graphics and floating point only.
- Every `anime(...)` call and the hover and focus effects (main.js:106-130, 144-160, 174-196, and the animation blocks inside the show routines): cosmetic calls into a foreign library.
- `checkNetworkStatus` and `debugImageUrl` (main.js:344-392): network probes and console output whose results never affect control flow.
- `showInputError` and `showNotification` (main.js:227-242, 517-566): presentation only; a rejected submission is modelled as leaving the state unchanged, with the kind of error returned.
- `handleDownload` (main.js:497-514), `handleImageError` (main.js:476-494, never called) and the `beforeunload` and `resize` handlers (main.js:594-608): DOM I/O with no algorithmic content.
- Timer durations, the random 2-3 s start delay, and the 600 ms focus timer in `resetToInput`: timers are events that may fire at any later point, and focus is an input of the key handler.
- Console logging of attempts: modelled only as the attempt log.
- The initial markup is not part of this model (it lives outside main.js); the constructor and `ReportFlow.InitialState` assume it shows only the input section.
- The browser's own submission of the form on Enter: only the script's keydown listener is modelled, and it dispatches the submit event directly to the handler.
- The browser's scheduling of timers and image events: which pending event happens next is a parameter (the event sequence given to `ReportFlow.Run` or the method called on `Page`).
