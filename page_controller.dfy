/**
 * The page's script as it runs: one object holding what the routines of
 * main.js read and write (the `hidden` classes of the four sections, the
 * name field, the display name, the result image, and the pending timers),
 * and one method per routine or event handler that updates it in place.
 * Each method is proved to move the object from `State()` to the value the
 * matching function of `ReportFlow` computes, so every property proved
 * there holds of the object; the handlers the browser or the visitor calls
 * also keep `ReportFlow.Inv`, and so do `ShowResultState` and
 * `ShowErrorState`. `ShowLoadingState`, `LoadStudentReport` and
 * `HandleImageLoadFailure` are internal routines: the invariant holds after
 * them only together with the handler that calls them, which states it.
 */
module PageController {
  import opened JsString
  import opened NameValidation
  import opened ReportLocator
  import opened Wrappers
  import RF = ReportFlow

  class Page {
    var hidden: set<RF.Section>
    var nameValue: Str
    var displayName: Str
    var imageSrc: Str
    var imagePending: bool
    var attempts: seq<RF.Attempt>
    var armedTimeouts: set<nat>
    var delayed: seq<RF.Delayed>

    /** The object's fields as one `ReportFlow.PageState` value. */
    function State(): RF.PageState
      reads this
    {
      RF.PageState(hidden, nameValue, displayName, imageSrc, imagePending, attempts, armedTimeouts, delayed)
    }

    ghost predicate Valid()
      reads this
    {
      RF.Inv(State())
    }

    /** The page as loaded: the input section alone is shown, nothing is pending. */
    constructor ()
      ensures State() == RF.InitialState() && Valid()
    {
      hidden := {RF.LoadingSection, RF.ResultSection, RF.ErrorSection};
      nameValue := [];
      displayName := [];
      imageSrc := [];
      imagePending := false;
      attempts := [];
      armedTimeouts := {};
      delayed := [];
      RF.InitialStateInv();
    }

    /** The visitor types into the name field. */
    method SetNameValue(value: Str)
      requires Valid()
      modifies this
      ensures State() == RF.SetNameValue(old(State()), value) && Valid()
    {
      nameValue := value;
    }

    /** `showLoadingState`: hide three sections, show loading, arm the start delay. */
    method ShowLoadingState(name: Str)
      modifies this
      ensures State() == RF.ShowLoadingState(old(State()), name)
    {
      hidden := hidden + {RF.InputSection};
      hidden := hidden + {RF.ResultSection};
      hidden := hidden + {RF.ErrorSection};
      hidden := hidden - {RF.LoadingSection};
      delayed := delayed + [RF.StartLoad(name)];
    }

    /**
     * `handleFormSubmit`: the checks in the source's order, each returning
     * its own error; an accepted name starts loading.
     */
    method HandleFormSubmit() returns (v: Validation)
      requires Valid()
      modifies this
      ensures v == Validate(old(nameValue))
      ensures State() == RF.HandleFormSubmit(old(State())) && Valid()
    {
      ghost var s := State();
      RF.SubmitKeepsInv(s);
      var studentName := Trim(nameValue);
      if studentName == [] {
        return Empty;
      }
      if |studentName| > MaxNameLength {
        return TooLong;
      }
      if !MatchesNamePattern(studentName) {
        return InvalidFormat;
      }
      ShowLoadingState(studentName);
      v := Ok(studentName);
    }

    /**
     * `loadStudentReport`: build the URL (nothing happens if the encoding
     * throws), log the attempt, set the display name, arm the attempt's
     * timeout and set the image source.
     */
    method LoadStudentReport(name: Str, retryCount: nat)
      modifies this
      ensures State() == RF.LoadStudentReport(old(State()), name, retryCount)
    {
      var imageUrl := ReportUrl(name);
      if imageUrl.None? {
        return;
      }
      attempts := attempts + [RF.Attempt(name, retryCount, imageUrl.value)];
      displayName := name;
      armedTimeouts := armedTimeouts + {|attempts| - 1};
      imageSrc := imageUrl.value;
      imagePending := true;
    }

    /** `handleImageLoadFailure`: schedule a retry below the bound, otherwise show the error. */
    method HandleImageLoadFailure(name: Str, retryCount: nat)
      requires Valid()
      modifies this
      ensures State() == RF.HandleImageLoadFailure(old(State()), name, retryCount)
    {
      if retryCount < RF.MaxRetries {
        delayed := delayed + [RF.RetryLoad(name, retryCount + 1)];
      } else {
        ShowErrorState();
      }
    }

    /** `showResultState`: hide loading, show the result. */
    method ShowResultState()
      requires Valid()
      modifies this
      ensures State() == RF.ShowResultState(old(State())) && Valid()
    {
      hidden := hidden + {RF.LoadingSection};
      hidden := hidden - {RF.ResultSection};
    }

    /** `showErrorState`: hide loading, show the error. */
    method ShowErrorState()
      requires Valid()
      modifies this
      ensures State() == RF.ShowErrorState(old(State())) && Valid()
    {
      hidden := hidden + {RF.LoadingSection};
      hidden := hidden - {RF.ErrorSection};
    }

    /** `resetToInput`: empty the field, hide three sections, show the input section. */
    method ResetToInput()
      requires Valid()
      modifies this
      ensures State() == RF.ResetToInput(old(State())) && Valid()
    {
      nameValue := [];
      hidden := hidden + {RF.LoadingSection};
      hidden := hidden + {RF.ResultSection};
      hidden := hidden + {RF.ErrorSection};
      hidden := hidden - {RF.InputSection};
    }

    /** The delayed call at position i fires and loads its own name and retry count. */
    method DelayElapsed(i: nat)
      requires Valid() && i < |delayed|
      modifies this
      ensures State() == RF.DelayElapsed(old(State()), i) && Valid()
    {
      ghost var s := State();
      RF.DelayKeepsInv(s, i);
      var d := delayed[i];
      delayed := delayed[..i] + delayed[i + 1..];
      LoadStudentReport(d.name, RF.RetryCountOf(d));
    }

    /** The image's `load` event: clear the latest attempt's timeout, show the result. */
    method ImageLoaded()
      requires Valid() && imagePending && |attempts| > 0
      modifies this
      ensures State() == RF.ImageLoaded(old(State())) && Valid()
    {
      armedTimeouts := armedTimeouts - {|attempts| - 1};
      imagePending := false;
      ShowResultState();
    }

    /** The image's `error` event: clear the latest attempt's timeout, run the failure policy. */
    method ImageErrored()
      requires Valid() && imagePending && |attempts| > 0
      modifies this
      ensures State() == RF.ImageErrored(old(State())) && Valid()
    {
      ghost var s := State();
      RF.ImageErrorKeepsInv(s);
      var current := attempts[|attempts| - 1];
      armedTimeouts := armedTimeouts - {|attempts| - 1};
      imagePending := false;
      HandleImageLoadFailure(current.name, current.retryCount);
    }

    /** The timeout of attempt `id` fires: a failure of that attempt only if the image is not complete. */
    method TimeoutElapsed(id: nat)
      requires Valid() && id in armedTimeouts && id < |attempts|
      modifies this
      ensures State() == RF.TimeoutElapsed(old(State()), id) && Valid()
    {
      ghost var s := State();
      RF.TimeoutKeepsInv(s, id);
      armedTimeouts := armedTimeouts - {id};
      if imagePending {
        HandleImageLoadFailure(attempts[id].name, attempts[id].retryCount);
      }
    }

    /**
     * The keydown listener: two independent tests, Escape while the result
     * or the error is shown resets, Enter while the input section is shown
     * and the field has focus submits.
     */
    method KeyDown(key: RF.Key, nameFocused: bool)
      requires Valid()
      modifies this
      ensures State() == RF.KeyDown(old(State()), key, nameFocused) && Valid()
    {
      if key == RF.Escape {
        if RF.ResultSection !in hidden || RF.ErrorSection !in hidden {
          ResetToInput();
        }
      }
      if key == RF.Enter {
        if RF.InputSection !in hidden && nameFocused {
          var _ := HandleFormSubmit();
        }
      }
    }

    /** Whatever event happens, the object follows `ReportFlow.Step` and keeps the invariant. */
    method Handle(e: RF.Event)
      requires Valid() && RF.Enabled(State(), e)
      modifies this
      ensures State() == RF.Step(old(State()), e) && Valid()
    {
      match e
      case NameTyped(value) => SetNameValue(value);
      case FormSubmitted => var _ := HandleFormSubmit();
      case KeyPressed(key, focused) => KeyDown(key, focused);
      case ResetClicked => ResetToInput();
      case DelayFired(i) => DelayElapsed(i);
      case ImageLoad => ImageLoaded();
      case ImageError => ImageErrored();
      case TimeoutFired(id) => TimeoutElapsed(id);
    }
  }
}
