/**
 * test.py: the planner with JSON persistence but no ids, an append-only
 * register button, and the title-highlight calendars of the Calendar module.
 */
module TestApp {
  import opened Wrappers
  import opened Records
  import opened Store

  /** The title of the last event, which the success message names. */
  function LastTitle(es: seq<Event>): (t: Option<string>)
    ensures t.None? <==> es == []
    ensures t.Some? ==> t.value == es[|es| - 1].title
  {
    if es == [] then None
    else match PyIndex(|es|, -1)
      case None => None
      case Some(k) => Some(es[k].title)
  }

  class Session {
    /** `st.session_state.event_list`. */
    var events: seq<Event>
    /** The data file, as last read or written. */
    var disk: FileContent
    var loadNotices: seq<LoadNotice>
    var submitted: bool
    var shouldClear: bool
    /** `clicked_event_original_title`: initialised and read, never assigned. */
    var clickedTitle: Option<string>

    ghost predicate Valid()
      reads this
    {
      NoText(events)
    }

    /** Session start: the list is loaded from the file. */
    constructor (content: FileContent)
      ensures Valid()
      ensures (events, loadNotices) == LoadResult(content) && disk == content
      ensures !submitted && !shouldClear && clickedTitle.None?
    {
      var es, notices := Load(content);
      events, loadNotices := es, notices;
      disk := content;
      submitted, shouldClear, clickedTitle := false, false, None;
    }

    /** The register button: the form's event is appended, whatever its title, and the list saved. */
    method Register(form: Form)
      requires Valid()
      modifies this
      ensures Valid()
      ensures events == old(events) + [FromForm(form, None)]
      ensures disk == Json(Saved(events, KeepIds))
      ensures submitted && shouldClear
      ensures LastTitle(events) == Some(form.title)
      ensures clickedTitle == old(clickedTitle) && loadNotices == old(loadNotices)
    {
      events := events + [FromForm(form, None)];
      var records := Save(events, KeepIds);
      disk := Json(records);
      submitted, shouldClear := true, true;
    }

    /** After a submit the success message names the last event's title, once. */
    method TakeSubmittedMessage() returns (shown: Option<string>)
      requires Valid()
      modifies this
      ensures Valid()
      ensures !submitted
      ensures shown == (if old(submitted) then LastTitle(events) else None)
      ensures events == old(events) && disk == old(disk) && shouldClear == old(shouldClear)
      ensures clickedTitle == old(clickedTitle) && loadNotices == old(loadNotices)
    {
      shown := None;
      if submitted && events != [] {
        shown := Some(events[|events| - 1].title);
      }
      submitted := false;
    }
  }
}
