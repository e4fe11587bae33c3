/**
 * input+cal.py: an in-memory planner with a clear-defaults form, an
 * append-only register button and the title-highlight calendars of the
 * Calendar module.
 */
module InputCal {
  import opened Wrappers
  import opened Dates
  import opened Records
  import opened TestApp

  /** `cleared_event_*`: the name, 2025-05-01, 2025-04-01 and an empty description. */
  const ClearedDefaults: Form := Form("イベント1", Date(2025, 5, 1), Date(2025, 4, 1), "")

  /** The widget values: the stored cleared values, else the same literals as defaults. */
  function FormValues(cleared: Option<Form>): Form {
    if cleared.Some? then cleared.value else ClearedDefaults
  }

  class Session {
    var events: seq<Event>
    var submitted: bool
    var shouldClear: bool
    /** `clicked_event_original_title`: initialised and read, never assigned. */
    var clickedTitle: Option<string>
    /** The `cleared_event_*` keys, once a clear has stored them. */
    var cleared: Option<Form>

    /** Every event came from the form, so both dates are dates. */
    ghost predicate Valid()
      reads this
    {
      AllDated(events) && (cleared.Some? ==> cleared.value == ClearedDefaults)
    }

    constructor ()
      ensures Valid()
      ensures events == [] && !submitted && !shouldClear && clickedTitle.None? && cleared.None?
    {
      events, submitted, shouldClear, clickedTitle, cleared := [], false, false, None, None;
    }

    /** A pending clear stores the cleared values and resets the flag. */
    method ApplyClear()
      requires Valid()
      modifies this
      ensures Valid()
      ensures old(shouldClear) ==> cleared == Some(ClearedDefaults)
      ensures !old(shouldClear) ==> cleared == old(cleared)
      ensures !shouldClear
      ensures FormValues(cleared) == ClearedDefaults
      ensures events == old(events) && submitted == old(submitted) && clickedTitle == old(clickedTitle)
    {
      if shouldClear {
        cleared := Some(ClearedDefaults);
        shouldClear := false;
      }
    }

    /** The register button: exactly one event, built from the form, at the end. */
    method Register(form: Form)
      requires Valid()
      modifies this
      ensures Valid()
      ensures events == old(events) + [FromForm(form, None)]
      ensures submitted && shouldClear
      ensures LastTitle(events) == Some(form.title)
      ensures clickedTitle == old(clickedTitle) && cleared == old(cleared)
    {
      events := events + [FromForm(form, None)];
      submitted, shouldClear := true, true;
    }

    /** After a submit the success message names the last event's title, once. */
    method TakeSubmittedMessage() returns (shown: Option<string>)
      requires Valid()
      modifies this
      ensures Valid()
      ensures !submitted
      ensures shown == (if old(submitted) then LastTitle(events) else None)
      ensures events == old(events) && shouldClear == old(shouldClear)
      ensures clickedTitle == old(clickedTitle) && cleared == old(cleared)
    {
      shown := None;
      if submitted && events != [] {
        shown := Some(events[|events| - 1].title);
      }
      submitted := false;
    }
  }
}
