/**
 * What the page's script does to its state, one function per routine of
 * main.js, as values. The state is the `hidden` class of the four sections,
 * the name field, the display name, the result image, the log of load
 * attempts, the ten-second timeouts still armed, and the delayed calls of
 * `loadStudentReport` still pending (the start delay and the retry delay).
 * Timers are abstract: a pending one may fire at any later event, in any
 * order.
 */
module ReportFlow {
  import opened Wrappers
  import opened JsString
  import opened NameValidation
  import opened ReportLocator

  /** `handleImageLoadFailure`'s bound: two retries after the first attempt. */
  const MaxRetries: nat := 2

  datatype Section = InputSection | LoadingSection | ResultSection | ErrorSection

  /**
   * One call of `loadStudentReport` that got as far as logging its attempt:
   * the name, the retry count and the URL it set as the image source.
   */
  datatype Attempt = Attempt(name: Str, retryCount: nat, url: Str)

  /**
   * A pending `setTimeout` callback that calls `loadStudentReport`: the
   * start delay armed by `showLoadingState` (retry count 0), or the retry
   * delay armed by `handleImageLoadFailure`.
   */
  datatype Delayed = StartLoad(name: Str) | RetryLoad(name: Str, retryCount: nat)

  datatype Key = Escape | Enter | OtherKey

  /**
   * `hidden`: the sections carrying the `hidden` class. `imagePending`: the
   * image has a source whose load or error event has not fired yet, that is
   * `resultImage.complete` is false. `armedTimeouts`: indices into
   * `attempts` of the attempts whose timeout is still armed.
   */
  datatype PageState = PageState(
    hidden: set<Section>,
    nameValue: Str,
    displayName: Str,
    imageSrc: Str,
    imagePending: bool,
    attempts: seq<Attempt>,
    armedTimeouts: set<nat>,
    delayed: seq<Delayed>)

  const AllSections: set<Section> := {InputSection, LoadingSection, ResultSection, ErrorSection}

  predicate Visible(p: PageState, sec: Section) {
    sec !in p.hidden
  }

  /** The sections shown: those without the `hidden` class. */
  function Shown(p: PageState): set<Section> {
    set sec | sec in AllSections && Visible(p, sec)
  }

  /** The page as loaded: only the input section shown, nothing pending. */
  function InitialState(): (p: PageState)
    ensures Shown(p) == {InputSection}
    ensures p.nameValue == [] && p.attempts == [] && p.delayed == [] && p.armedTimeouts == {}
    ensures !p.imagePending
  {
    PageState({LoadingSection, ResultSection, ErrorSection}, [], [], [], false, [], {}, [])
  }

  /** Typing in the name field: only the field's value changes. */
  function SetNameValue(p: PageState, value: Str): (q: PageState)
    ensures q.nameValue == value && q == p.(nameValue := value)
  {
    p.(nameValue := value)
  }

  /**
   * `showLoadingState`: whatever was shown before, afterwards only the
   * loading section is shown, and one start of loading is scheduled for the
   * given name. Nothing else changes.
   */
  function ShowLoadingState(p: PageState, name: Str): (q: PageState)
    ensures Shown(q) == {LoadingSection}
    ensures q.delayed == p.delayed + [StartLoad(name)]
    ensures q == p.(hidden := q.hidden, delayed := q.delayed)
  {
    p.(hidden := p.hidden + {InputSection, ResultSection, ErrorSection} - {LoadingSection},
       delayed := p.delayed + [StartLoad(name)])
  }

  /**
   * `handleFormSubmit`: loading starts, with the trimmed field value, exactly
   * when the checks accept it; otherwise the state is unchanged (the error
   * notice is presentation only).
   */
  function HandleFormSubmit(p: PageState): (q: PageState)
    ensures Validate(p.nameValue).Ok? ==> q == ShowLoadingState(p, Trim(p.nameValue))
    ensures !Validate(p.nameValue).Ok? ==> q == p
  {
    match Validate(p.nameValue)
    case Ok(name) => ShowLoadingState(p, name)
    case _ => p
  }

  /**
   * `loadStudentReport`: if the URL can be built (otherwise
   * `encodeURIComponent` throws and nothing happens), the attempt is logged,
   * the display name set, a timeout armed for it, and the image source set to
   * the URL, which depends on the name and not on the retry count.
   */
  function LoadStudentReport(p: PageState, name: Str, retryCount: nat): (q: PageState)
    ensures ReportUrl(name).None? ==> q == p
    ensures ReportUrl(name).Some? ==>
      var url := ReportUrl(name).value;
      q.attempts == p.attempts + [Attempt(name, retryCount, url)]
      && q.armedTimeouts == p.armedTimeouts + {|p.attempts|}
      && q.imageSrc == url && q.imagePending && q.displayName == name
      && q.hidden == p.hidden && q.nameValue == p.nameValue && q.delayed == p.delayed
  {
    var url := ReportUrl(name);
    if url.None? then p
    else
      p.(attempts := p.attempts + [Attempt(name, retryCount, url.value)],
         displayName := name,
         armedTimeouts := p.armedTimeouts + {|p.attempts|},
         imageSrc := url.value,
         imagePending := true)
  }

  /**
   * `showErrorState`: hides the loading section and shows the error
   * section; every other section and everything else is left as it was.
   */
  function ShowErrorState(p: PageState): (q: PageState)
    ensures Shown(q) == Shown(p) - {LoadingSection} + {ErrorSection}
    ensures q == p.(hidden := q.hidden)
  {
    p.(hidden := p.hidden + {LoadingSection} - {ErrorSection})
  }

  /**
   * `showResultState`: hides the loading section and shows the result
   * section; every other section and everything else is left as it was.
   */
  function ShowResultState(p: PageState): (q: PageState)
    ensures Shown(q) == Shown(p) - {LoadingSection} + {ResultSection}
    ensures q == p.(hidden := q.hidden)
  {
    p.(hidden := p.hidden + {LoadingSection} - {ResultSection})
  }

  /**
   * `handleImageLoadFailure`: below the bound, exactly one new attempt is
   * scheduled, with the retry count one higher, and the panels are left
   * alone; at the bound, the error section is shown and nothing is
   * scheduled.
   */
  function HandleImageLoadFailure(p: PageState, name: Str, retryCount: nat): (q: PageState)
    ensures retryCount < MaxRetries ==>
      q.delayed == p.delayed + [RetryLoad(name, retryCount + 1)] && q.hidden == p.hidden
    ensures retryCount >= MaxRetries ==> q.delayed == p.delayed && q == ShowErrorState(p)
    ensures q == p.(hidden := q.hidden, delayed := q.delayed)
  {
    if retryCount < MaxRetries then p.(delayed := p.delayed + [RetryLoad(name, retryCount + 1)])
    else ShowErrorState(p)
  }

  function LastAttempt(p: PageState): Attempt
    requires |p.attempts| > 0
  {
    p.attempts[|p.attempts| - 1]
  }

  /**
   * The image's `onload` handler, the one the latest attempt installed: it
   * clears that attempt's timeout and shows the result.
   */
  function ImageLoaded(p: PageState): (q: PageState)
    requires |p.attempts| > 0
    ensures q.armedTimeouts == p.armedTimeouts - {|p.attempts| - 1} && !q.imagePending
    ensures q == ShowResultState(p).(armedTimeouts := q.armedTimeouts, imagePending := false)
  {
    ShowResultState(p.(armedTimeouts := p.armedTimeouts - {|p.attempts| - 1}, imagePending := false))
  }

  /**
   * The image's `onerror` handler, the one the latest attempt installed: it
   * clears that attempt's timeout and runs the failure policy with that
   * attempt's name and retry count.
   */
  function ImageErrored(p: PageState): (q: PageState)
    requires |p.attempts| > 0
    ensures var a := LastAttempt(p);
      q == HandleImageLoadFailure(p.(armedTimeouts := p.armedTimeouts - {|p.attempts| - 1}, imagePending := false),
                                  a.name, a.retryCount)
  {
    var a := LastAttempt(p);
    HandleImageLoadFailure(p.(armedTimeouts := p.armedTimeouts - {|p.attempts| - 1}, imagePending := false),
                           a.name, a.retryCount)
  }

  /**
   * The timeout of attempt `id` fires: it counts as a failure of that
   * attempt (its own name and retry count, whichever attempt is current)
   * only while the image is not complete.
   */
  function TimeoutElapsed(p: PageState, id: nat): (q: PageState)
    requires id in p.armedTimeouts && id < |p.attempts|
    ensures !p.imagePending ==> q == p.(armedTimeouts := p.armedTimeouts - {id})
    ensures p.imagePending ==>
      q == HandleImageLoadFailure(p.(armedTimeouts := p.armedTimeouts - {id}),
                                  p.attempts[id].name, p.attempts[id].retryCount)
  {
    var r := p.(armedTimeouts := p.armedTimeouts - {id});
    if p.imagePending then HandleImageLoadFailure(r, p.attempts[id].name, p.attempts[id].retryCount)
    else r
  }

  /** The retry count a delayed call passes to `loadStudentReport`. */
  function RetryCountOf(d: Delayed): nat {
    match d
    case StartLoad(_) => 0
    case RetryLoad(_, n) => n
  }

  /**
   * The delayed call at position i fires: it is no longer pending, and it
   * loads its own name with its own retry count.
   */
  function DelayElapsed(p: PageState, i: nat): (q: PageState)
    requires i < |p.delayed|
    ensures q == LoadStudentReport(p.(delayed := p.delayed[..i] + p.delayed[i + 1..]),
                                   p.delayed[i].name, RetryCountOf(p.delayed[i]))
  {
    LoadStudentReport(p.(delayed := p.delayed[..i] + p.delayed[i + 1..]), p.delayed[i].name, RetryCountOf(p.delayed[i]))
  }

  /**
   * `resetToInput`: afterwards only the input section is shown and the name
   * field is empty. No timeout, pending retry or image load is cancelled.
   */
  function ResetToInput(p: PageState): (q: PageState)
    ensures Shown(q) == {InputSection}
    ensures q.nameValue == []
    ensures q == p.(hidden := q.hidden, nameValue := [])
  {
    p.(nameValue := [], hidden := p.hidden + {LoadingSection, ResultSection, ErrorSection} - {InputSection})
  }

  /**
   * The keydown listener: Escape resets only while the result or the error
   * section is shown; Enter submits only while the input section is shown
   * and the name field has focus; in every other case nothing changes.
   */
  function KeyDown(p: PageState, key: Key, nameFocused: bool): (q: PageState)
    ensures key == Escape && (Visible(p, ResultSection) || Visible(p, ErrorSection)) ==> q == ResetToInput(p)
    ensures key == Enter && Visible(p, InputSection) && nameFocused ==> q == HandleFormSubmit(p)
    ensures q != p ==>
      (key == Escape && (Visible(p, ResultSection) || Visible(p, ErrorSection)))
      || (key == Enter && Visible(p, InputSection) && nameFocused)
  {
    if key == Escape && (Visible(p, ResultSection) || Visible(p, ErrorSection)) then ResetToInput(p)
    else if key == Enter && Visible(p, InputSection) && nameFocused then HandleFormSubmit(p)
    else p
  }

  /** What can happen to the page. */
  datatype Event =
    | NameTyped(value: Str)                  // the visitor edits the name field
    | FormSubmitted                          // the form's submit event
    | KeyPressed(key: Key, nameFocused: bool)
    | ResetClicked                           // the back or the retry button
    | DelayFired(index: nat)                 // a start or retry delay elapses
    | ImageLoad                              // the image fires `load`
    | ImageError                             // the image fires `error`
    | TimeoutFired(id: nat)                  // the timeout of attempt `id` elapses

  /** The events the browser, rather than the visitor, produces. */
  predicate IsMachineEvent(e: Event) {
    e.DelayFired? || e.ImageLoad? || e.ImageError? || e.TimeoutFired?
  }

  /** An event can happen: its timer is pending, or the image is loading. */
  predicate Enabled(p: PageState, e: Event) {
    match e
    case DelayFired(i) => i < |p.delayed|
    case ImageLoad => p.imagePending && |p.attempts| > 0
    case ImageError => p.imagePending && |p.attempts| > 0
    case TimeoutFired(id) => id in p.armedTimeouts && id < |p.attempts|
    case _ => true
  }

  function Step(p: PageState, e: Event): PageState
    requires Enabled(p, e)
  {
    match e
    case NameTyped(value) => SetNameValue(p, value)
    case FormSubmitted => HandleFormSubmit(p)
    case KeyPressed(key, focused) => KeyDown(p, key, focused)
    case ResetClicked => ResetToInput(p)
    case DelayFired(i) => DelayElapsed(p, i)
    case ImageLoad => ImageLoaded(p)
    case ImageError => ImageErrored(p)
    case TimeoutFired(id) => TimeoutElapsed(p, id)
  }

  /** The state after a sequence of events, or None if one cannot happen. */
  function Run(p: PageState, events: seq<Event>): Option<PageState>
    decreases |events|
  {
    if events == [] then Some(p)
    else if Enabled(p, events[0]) then Run(Step(p, events[0]), events[1..])
    else None
  }

  predicate AttemptOk(a: Attempt) {
    a.retryCount <= MaxRetries && ReportUrl(a.name) == Some(a.url)
  }

  predicate DelayedOk(d: Delayed) {
    ReportUrl(d.name).Some? && (d.RetryLoad? ==> 1 <= d.retryCount <= MaxRetries)
  }

  /**
   * What every reachable state satisfies: each attempt and each pending
   * call is for a name that has a URL, retry counts stay within
   * 0..MaxRetries, each attempt requested the URL of its own name, armed
   * timeouts belong to logged attempts, and the image shows the latest
   * attempt's URL.
   */
  predicate Inv(p: PageState) {
    (forall i :: 0 <= i < |p.attempts| ==> AttemptOk(p.attempts[i]))
    && (forall i :: 0 <= i < |p.delayed| ==> DelayedOk(p.delayed[i]))
    && (forall id :: id in p.armedTimeouts ==> id < |p.attempts|)
    && (p.imagePending ==> |p.attempts| > 0)
    && (|p.attempts| > 0 ==> p.imageSrc == LastAttempt(p).url && p.displayName == LastAttempt(p).name)
  }

  lemma InitialStateInv()
    ensures Inv(InitialState())
  {
  }

  /** Submitting keeps the invariant: an accepted name always has a URL. */
  lemma SubmitKeepsInv(p: PageState)
    requires Inv(p)
    ensures Inv(HandleFormSubmit(p))
  {
    var v := Validate(p.nameValue);
    if v.Ok? {
      AcceptedNameIsFixpoint(p.nameValue);
      AcceptedNameHasUrl(v.token);
      ScheduleKeepsInv(p, v.token);
    }
  }

  /** Scheduling the start of loading for a name with a URL keeps the invariant. */
  lemma ScheduleKeepsInv(p: PageState, name: Str)
    requires Inv(p) && ReportUrl(name).Some?
    ensures Inv(ShowLoadingState(p, name))
  {
    var q := ShowLoadingState(p, name);
    assert forall i :: 0 <= i < |p.delayed| ==> q.delayed[i] == p.delayed[i];
  }

  /** A failure of an attempt within the bound keeps the invariant. */
  lemma FailureKeepsInv(p: PageState, name: Str, retryCount: nat)
    requires Inv(p) && ReportUrl(name).Some? && retryCount <= MaxRetries
    ensures Inv(HandleImageLoadFailure(p, name, retryCount))
  {
  }

  /** A delayed call firing keeps the invariant. */
  lemma DelayKeepsInv(p: PageState, i: nat)
    requires Inv(p) && i < |p.delayed|
    ensures Inv(DelayElapsed(p, i))
  {
    var r := p.(delayed := p.delayed[..i] + p.delayed[i + 1..]);
    assert forall j :: 0 <= j < |r.delayed| ==> r.delayed[j] in p.delayed;
    assert DelayedOk(p.delayed[i]);
  }

  /** A key press keeps the invariant. */
  lemma KeyKeepsInv(p: PageState, key: Key, nameFocused: bool)
    requires Inv(p)
    ensures Inv(KeyDown(p, key, nameFocused))
  {
    if key == Escape && (Visible(p, ResultSection) || Visible(p, ErrorSection)) {
      assert KeyDown(p, key, nameFocused) == ResetToInput(p);
    } else {
      SubmitKeepsInv(p);
    }
  }

  /** The image's error event keeps the invariant. */
  lemma ImageErrorKeepsInv(p: PageState)
    requires Inv(p) && |p.attempts| > 0
    ensures Inv(ImageErrored(p))
  {
    var a := LastAttempt(p);
    assert AttemptOk(a);
    FailureKeepsInv(p.(armedTimeouts := p.armedTimeouts - {|p.attempts| - 1}, imagePending := false),
                    a.name, a.retryCount);
  }

  /** A timeout firing keeps the invariant. */
  lemma TimeoutKeepsInv(p: PageState, id: nat)
    requires Inv(p) && id in p.armedTimeouts && id < |p.attempts|
    ensures Inv(TimeoutElapsed(p, id))
  {
    assert AttemptOk(p.attempts[id]);
    FailureKeepsInv(p.(armedTimeouts := p.armedTimeouts - {id}), p.attempts[id].name, p.attempts[id].retryCount);
  }

  /** Every event keeps the invariant. */
  lemma StepKeepsInv(p: PageState, e: Event)
    requires Inv(p) && Enabled(p, e)
    ensures Inv(Step(p, e))
  {
    match e
    case FormSubmitted => SubmitKeepsInv(p);
    case KeyPressed(key, focused) => KeyKeepsInv(p, key, focused);
    case DelayFired(i) => DelayKeepsInv(p, i);
    case ImageError => ImageErrorKeepsInv(p);
    case TimeoutFired(id) => TimeoutKeepsInv(p, id);
    case _ =>
  }

  /** Every run of events keeps the invariant. */
  lemma {:induction false} RunKeepsInv(p: PageState, events: seq<Event>)
    requires Inv(p) && Run(p, events).Some?
    ensures Inv(Run(p, events).value)
    decreases |events|
  {
    if events != [] {
      StepKeepsInv(p, events[0]);
      RunKeepsInv(Step(p, events[0]), events[1..]);
    }
  }

  /** In every reachable state, no attempt has a retry count above the bound. */
  lemma RetryCountBounded(events: seq<Event>)
    requires Run(InitialState(), events).Some?
    ensures var q := Run(InitialState(), events).value;
      forall i :: 0 <= i < |q.attempts| ==> q.attempts[i].retryCount <= MaxRetries
  {
    InitialStateInv();
    RunKeepsInv(InitialState(), events);
    var q := Run(InitialState(), events).value;
    assert forall i :: 0 <= i < |q.attempts| ==> AttemptOk(q.attempts[i]);
  }

  /** Every attempt for one name requested the same URL, whatever its retry count. */
  lemma SameNameSameUrl(p: PageState, i: nat, j: nat)
    requires Inv(p) && i < |p.attempts| && j < |p.attempts|
    requires p.attempts[i].name == p.attempts[j].name
    ensures p.attempts[i].url == p.attempts[j].url
  {
    assert AttemptOk(p.attempts[i]) && AttemptOk(p.attempts[j]);
  }

  /**
   * A timeout that fires for the current attempt while the image is still
   * loading takes the same path as the error event, with the same retry
   * count; the only difference is that the image itself is still loading.
   */
  lemma TimeoutActsLikeError(p: PageState)
    requires p.imagePending && |p.attempts| > 0 && |p.attempts| - 1 in p.armedTimeouts
    ensures Step(p, TimeoutFired(|p.attempts| - 1)) == Step(p, ImageError).(imagePending := true)
  {
  }

  /** A run of one more event. */
  lemma RunCons(p: PageState, e: Event, rest: seq<Event>)
    requires Enabled(p, e)
    ensures Run(p, [e] + rest) == Run(Step(p, e), rest)
  {
    assert ([e] + rest)[1..] == rest;
  }

  /** Running two sequences of events one after the other. */
  lemma {:induction false} RunAppend(p: PageState, a: seq<Event>, b: seq<Event>)
    ensures Run(p, a + b) == if Run(p, a).Some? then Run(Run(p, a).value, b) else None
    decreases |a|
  {
    if a == [] {
      assert a + b == b;
    } else {
      assert (a + b)[0] == a[0];
      assert (a + b)[1..] == a[1..] + b;
      if Enabled(p, a[0]) {
        RunAppend(Step(p, a[0]), a[1..], b);
      }
    }
  }

  /**
   * Nothing tags attempts: if the image errors after the current attempt's
   * timeout already counted as a failure, the failure policy runs twice and
   * two retries with the same count are scheduled.
   */
  lemma LateErrorAfterTimeoutRetriesTwice(p: PageState)
    requires p.imagePending && |p.attempts| > 0 && |p.attempts| - 1 in p.armedTimeouts
    requires LastAttempt(p).retryCount < MaxRetries
    ensures var a := LastAttempt(p);
      Run(p, [TimeoutFired(|p.attempts| - 1), ImageError])
        == Some(p.(armedTimeouts := p.armedTimeouts - {|p.attempts| - 1}, imagePending := false,
                   delayed := p.delayed + [RetryLoad(a.name, a.retryCount + 1), RetryLoad(a.name, a.retryCount + 1)]))
  {
    var a := LastAttempt(p);
    var r := RetryLoad(a.name, a.retryCount + 1);
    var q := Step(p, TimeoutFired(|p.attempts| - 1));
    assert q == p.(armedTimeouts := p.armedTimeouts - {|p.attempts| - 1}, delayed := p.delayed + [r]);
    assert LastAttempt(q) == a;
    var q2 := Step(q, ImageError);
    assert q2 == q.(imagePending := false, delayed := q.delayed + [r]);
    RunCons(q, ImageError, []);
    RunCons(p, TimeoutFired(|p.attempts| - 1), [ImageError]);
    assert p.delayed + [RetryLoad(a.name, a.retryCount + 1)] + [RetryLoad(a.name, a.retryCount + 1)]
        == p.delayed + [RetryLoad(a.name, a.retryCount + 1), RetryLoad(a.name, a.retryCount + 1)];
  }

  /**
   * The only pending call fires and its image fails: the attempt is logged
   * with the call's retry count and the URL of its name, its timeout is
   * cleared, and the failure policy runs for it.
   */
  lemma FailedAttempt(p: PageState, url: Str)
    requires |p.delayed| == 1 && p.armedTimeouts == {}
    requires ReportUrl(p.delayed[0].name) == Some(url)
    ensures var d := p.delayed[0];
      Run(p, [DelayFired(0), ImageError])
        == Some(HandleImageLoadFailure(
                  p.(delayed := [], attempts := p.attempts + [Attempt(d.name, RetryCountOf(d), url)],
                     displayName := d.name, imageSrc := url, imagePending := false),
                  d.name, RetryCountOf(d)))
  {
    var p1 := Step(p, DelayFired(0));
    assert p.delayed[..0] + p.delayed[1..] == [];
    assert p1.armedTimeouts == {|p.attempts|};
    RunCons(p1, ImageError, []);
    RunCons(p, DelayFired(0), [ImageError]);
  }

  /** The events of a name whose image always fails to load. */
  const FailOnce: seq<Event> := [DelayFired(0), ImageError]

  const FailThrice: seq<Event> := FailOnce + FailOnce + FailOnce

  const AlwaysFailing: seq<Event> := [FormSubmitted] + FailThrice

  /**
   * Submitting an accepted field value schedules the start of loading for
   * the trimmed value, which has a URL.
   */
  lemma SubmitAccepted(p: PageState)
    requires Validate(p.nameValue).Ok?
    ensures ReportUrl(Trim(p.nameValue)).Some?
    ensures Run(p, [FormSubmitted]) == Some(ShowLoadingState(p, Trim(p.nameValue)))
  {
    AcceptedNameIsFixpoint(p.nameValue);
    AcceptedNameHasUrl(Trim(p.nameValue));
    RunCons(p, FormSubmitted, []);
  }

  /**
   * From one pending start of loading, three failing attempts log retry
   * counts 0, 1 and 2 for the same URL and end with the error section
   * shown in place of the loading section, with nothing left pending.
   */
  lemma ThreeFailedAttempts(p: PageState, name: Str, url: Str)
    requires p.delayed == [StartLoad(name)] && p.armedTimeouts == {} && ReportUrl(name) == Some(url)
    ensures Run(p, FailThrice).Some?
    ensures var q := Run(p, FailThrice).value;
      q.imageSrc == url
      && q.attempts == p.attempts + [Attempt(name, 0, url), Attempt(name, 1, url), Attempt(name, 2, url)]
      && Shown(q) == Shown(p) - {LoadingSection} + {ErrorSection}
      && q.delayed == [] && q.armedTimeouts == {} && !q.imagePending
  {
    FailedAttempt(p, url);
    var p3 := Run(p, FailOnce).value;
    assert p3.delayed == [RetryLoad(name, 1)] && p3.armedTimeouts == {} && Shown(p3) == Shown(p);
    FailedAttempt(p3, url);
    var p5 := Run(p3, FailOnce).value;
    assert p5.delayed == [RetryLoad(name, 2)] && p5.armedTimeouts == {} && Shown(p5) == Shown(p);
    FailedAttempt(p5, url);
    var q := Run(p5, FailOnce).value;
    assert q == ShowErrorState(q.(hidden := p5.hidden));
    RunAppend(p, FailOnce, FailOnce);
    RunAppend(p, FailOnce + FailOnce, FailOnce);
    assert q.attempts == p.attempts + [Attempt(name, 0, url)] + [Attempt(name, 1, url)] + [Attempt(name, 2, url)];
  }

  /**
   * A submitted name whose loader reports an error for every attempt before
   * that attempt's timeout fires gets exactly three attempts, with retry
   * counts 0, 1 and 2 and one and the same URL; then the error
   * section alone is shown, and no timer or image event is left that could
   * start a fourth attempt.
   */
  lemma AlwaysFailingLoaderMakesThreeAttempts(p: PageState)
    requires Validate(p.nameValue).Ok? && p.delayed == [] && p.armedTimeouts == {}
    ensures Run(p, AlwaysFailing).Some?
    ensures var q := Run(p, AlwaysFailing).value;
      var name := Trim(p.nameValue);
      ReportUrl(name) == Some(q.imageSrc)
      && q.attempts == p.attempts + [Attempt(name, 0, q.imageSrc), Attempt(name, 1, q.imageSrc),
                                     Attempt(name, 2, q.imageSrc)]
      && Shown(q) == {ErrorSection}
      && (forall e :: IsMachineEvent(e) ==> !Enabled(q, e))
  {
    var name := Trim(p.nameValue);
    SubmitAccepted(p);
    var p1 := ShowLoadingState(p, name);
    RunAfterFirst(p, FormSubmitted, p1, FailThrice);
    ErrorAfterThreeFailures(p1, name, ReportUrl(name).value);
  }

  /**
   * From the loading section alone with one start of loading pending, three
   * failures leave the error section alone, three attempts logged and
   * nothing that could start a fourth.
   */
  lemma ErrorAfterThreeFailures(p: PageState, name: Str, url: Str)
    requires p.delayed == [StartLoad(name)] && p.armedTimeouts == {} && ReportUrl(name) == Some(url)
    requires Shown(p) == {LoadingSection}
    ensures Run(p, FailThrice).Some?
    ensures var q := Run(p, FailThrice).value;
      q.imageSrc == url
      && q.attempts == p.attempts + [Attempt(name, 0, url), Attempt(name, 1, url), Attempt(name, 2, url)]
      && Shown(q) == {ErrorSection}
      && (forall e :: IsMachineEvent(e) ==> !Enabled(q, e))
  {
    ThreeFailedAttempts(p, name, url);
    var q := Run(p, FailThrice).value;
    assert Shown(q) == {LoadingSection} - {LoadingSection} + {ErrorSection};
    Quiescent(q);
  }

  /** Once the first event is known to lead to `p1`, the rest of the run starts from `p1`. */
  lemma RunAfterFirst(p: PageState, e: Event, p1: PageState, rest: seq<Event>)
    requires Run(p, [e]) == Some(p1)
    ensures Run(p, [e] + rest) == Run(p1, rest)
  {
    RunAppend(p, [e], rest);
  }

  /** With no timer armed, no delay pending and no image loading, no machine event can happen. */
  lemma Quiescent(q: PageState)
    requires q.delayed == [] && q.armedTimeouts == {} && !q.imagePending
    ensures forall e :: IsMachineEvent(e) ==> !Enabled(q, e)
  {
  }

  /** A name whose image loads at the first attempt: one request, then the result alone. */
  lemma FirstAttemptSucceeds(p: PageState)
    requires Validate(p.nameValue).Ok? && p.delayed == []
    ensures var r := Run(p, [FormSubmitted, DelayFired(0), ImageLoad]);
      var name := Trim(p.nameValue);
      r.Some?
      && ReportUrl(name).Some?
      && r.value.attempts == p.attempts + [Attempt(name, 0, ReportUrl(name).value)]
      && Shown(r.value) == {ResultSection}
  {
    var name := Trim(p.nameValue);
    SubmitAccepted(p);
    LoadedFirstTime(ShowLoadingState(p, name), name);
    RunAppend(p, [FormSubmitted], [DelayFired(0), ImageLoad]);
  }

  /** The pending start of loading fires and the image loads. */
  lemma LoadedFirstTime(p: PageState, name: Str)
    requires p.delayed == [StartLoad(name)] && ReportUrl(name).Some? && Shown(p) == {LoadingSection}
    ensures var r := Run(p, [DelayFired(0), ImageLoad]);
      r.Some?
      && r.value.attempts == p.attempts + [Attempt(name, 0, ReportUrl(name).value)]
      && Shown(r.value) == {ResultSection}
  {
    assert p.delayed[..0] + p.delayed[1..] == [];
    var p2 := Step(p, DelayFired(0));
    assert p2.hidden == p.hidden && p2.attempts == p.attempts + [Attempt(name, 0, ReportUrl(name).value)];
    RunCons(p2, ImageLoad, []);
    RunCons(p, DelayFired(0), [ImageLoad]);
  }
}
