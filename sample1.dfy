/**
 * sample1.py: an in-memory planner whose calendars carry each event's list
 * index, so that a click on a calendar entry selects that event for
 * editing; the edited event is addressed by `edit_idx`.
 */
module Sample1 {
  import opened Wrappers
  import opened Dates
  import opened Records
  import opened Calendar

  /** The form's default title. */
  const DefaultName: string := "イベント1"

  // ---------------------------------------------------------------------
  // Forms and events
  // ---------------------------------------------------------------------

  /** The form fields showing a stored event. */
  function ToForm(e: Event): (f: Form)
    requires Dated(e)
    ensures e.id.None? ==> FromForm(f, None) == e
  {
    Form(e.title, e.date.d, e.deadline.d, e.description)
  }

  /**
   * The cleared form of `today`: the default title, the day a week ahead
   * and `today` itself; None when `today + timedelta(days=7)` overflows.
   */
  function DefaultForm(today: CalendarDate): (f: Option<Form>)
    ensures f.Some? <==> DayNumber(today) + 7 <= DayNumber(LastDate)
    ensures f.Some? ==> (f.value.title == DefaultName && f.value.description == "" &&
                         f.value.deadline == today && DayNumber(f.value.date) == DayNumber(today) + 7)
  {
    AddDaysNumber(today, 7);
    match AddDays(today, 7)
    case None => None
    case Some(week) => Some(Form(DefaultName, week, today, ""))
  }

  // ---------------------------------------------------------------------
  // Calendar entries
  // ---------------------------------------------------------------------

  /** `make_event`: an entry that carries the event's index and title. */
  function MakeEvent(e: Event, idx: int, forDeadline: bool): (x: Entry)
    requires Dated(e)
    ensures Parse(x.start) == Some(if forDeadline then e.deadline.d else e.date.d)
    ensures x.original == e.title && x.ref == ByIndex(idx)
    ensures x.end.None? && x.style == Unstyled
    ensures forDeadline ==> x.title == DeadlinePrefix + e.title
    ensures !forDeadline ==> x.title == e.title
  {
    var day := if forDeadline then e.deadline.d else e.date.d;
    ParseFormat(day);
    Entry(if forDeadline then DeadlinePrefix + e.title else e.title, Format(day), None, e.title, ByIndex(idx), Unstyled)
  }

  /** `[make_event(e, i, for_deadline) for i, e in enumerate(event_list)]`. */
  function Projection(es: seq<Event>, forDeadline: bool): (xs: seq<Entry>)
    requires AllDated(es)
    ensures |xs| == |es|
    ensures forall i | 0 <= i < |es| :: xs[i] == MakeEvent(es[i], i, forDeadline)
  {
    seq(|es|, i requires 0 <= i < |es| => MakeEvent(es[i], i, forDeadline))
  }

  // ---------------------------------------------------------------------
  // Click resolution
  // ---------------------------------------------------------------------

  /** The `extendedProps` of a clicked entry, each key possibly absent. */
  datatype Props = Props(idx: Option<int>, originalTitle: Option<string>)

  /** One entry of the widget's `eventsSet.events`, each key possibly absent. */
  datatype Clicked = Clicked(props: Option<Props>, title: Option<string>, start: Option<string>)

  /** The widget's return value: falsy, or an `eventsSet` with its events. */
  datatype Reply = NoReply | EventsSet(events: seq<Clicked>)

  /** NoClick: nothing to do; ClickFailed: the fallback raised; Resolved: the chosen index and title. */
  datatype ClickOutcome = NoClick | ClickFailed | Resolved(idx: int, title: string)

  /** The original title if the props carry one, else the entry's title, else "". */
  function ClickTitle(c: Clicked): string {
    if c.props.Some? && c.props.value.originalTitle.Some? then c.props.value.originalTitle.value
    else if c.title.Some? then c.title.value
    else ""
  }

  function ClickIdx(c: Clicked): Option<int> {
    if c.props.Some? then c.props.value.idx else None
  }

  /** `s[:10]`. */
  function Prefix10(s: string): string {
    if |s| <= 10 then s else s[..10]
  }

  /** The first event with this title on this date. */
  function FirstMatch(es: seq<Event>, title: string, day: CalendarDate): (k: Option<nat>)
    ensures k.None? <==> forall i | 0 <= i < |es| :: !(es[i].title == title && es[i].date == Day(day))
    ensures k.Some? ==> (k.value < |es| && es[k.value].title == title && es[k.value].date == Day(day) &&
                         forall j | 0 <= j < k.value :: !(es[j].title == title && es[j].date == Day(day)))
  {
    if es == [] then None
    else if es[0].title == title && es[0].date == Day(day) then Some(0)
    else
      var rest := FirstMatch(es[1..], title, day);
      assert forall i | 1 <= i < |es| :: es[i] == es[1..][i - 1];
      if rest.None? then None else Some(rest.value + 1)
  }

  /** What `process_click` decides for the list `es` and the widget reply. */
  function Resolve(es: seq<Event>, reply: Reply): ClickOutcome {
    if reply.NoReply? || reply.events == [] then NoClick
    else
      var c := reply.events[0];
      var title := ClickTitle(c);
      if ClickIdx(c).Some? then Resolved(ClickIdx(c).value, title)
      else if c.start.None? then ClickFailed
      else match Parse(Prefix10(c.start.value))
        case None => ClickFailed
        case Some(day) =>
          match FirstMatch(es, title, day)
          case None => NoClick
          case Some(i) => Resolved(i, title)
  }

  /** A click on an entry this app built resolves to that entry's event. */
  lemma ClickRoundTrip(es: seq<Event>, i: nat, forDeadline: bool)
    requires AllDated(es) && i < |es|
    ensures var x := Projection(es, forDeadline)[i];
      x.ref.ByIndex? &&
      Resolve(es, EventsSet([Clicked(Some(Props(Some(x.ref.idx), Some(x.original))), Some(x.title), Some(x.start))]))
        == Resolved(i, es[i].title)
  {
  }

  /**
   * A click whose props lost the index, on the date entry of event `i`,
   * still resolves to an event with the same title and date, the first such.
   */
  lemma ClickFallback(es: seq<Event>, i: nat)
    requires AllDated(es) && i < |es|
    ensures var x := Projection(es, false)[i];
      var r := Resolve(es, EventsSet([Clicked(Some(Props(None, Some(x.original))), Some(x.title), Some(x.start))]));
      r.Resolved? && 0 <= r.idx <= i && es[r.idx].title == es[i].title && es[r.idx].date == es[i].date &&
      forall j | 0 <= j < r.idx :: !(es[j].title == es[i].title && es[j].date == es[i].date)
  {
    var x := Projection(es, false)[i];
    assert Prefix10(x.start) == x.start by { FormatLength(es[i].date.d); }
  }

  /**
   * On the deadline entry of event `i`, a click whose props lost the index
   * is matched against the events' dates with the deadline's day, so it
   * resolves to the first event with that title dated on that deadline, and
   * never to event `i` itself when its date and deadline differ.
   */
  lemma ClickFallbackDeadline(es: seq<Event>, i: nat)
    requires AllDated(es) && i < |es|
    ensures var x := Projection(es, true)[i];
      var r := Resolve(es, EventsSet([Clicked(Some(Props(None, Some(x.original))), Some(x.title), Some(x.start))]));
      (r.Resolved? <==> exists j | 0 <= j < |es| :: es[j].title == es[i].title && es[j].date == es[i].deadline) &&
      (r.Resolved? ==> 0 <= r.idx < |es| && es[r.idx].title == es[i].title && es[r.idx].date == es[i].deadline) &&
      (r.NoClick? <==> !r.Resolved?) &&
      (es[i].date != es[i].deadline ==> r != Resolved(i, es[i].title))
  {
    var x := Projection(es, true)[i];
    assert Prefix10(x.start) == x.start by { FormatLength(es[i].deadline.d); }
  }

  lemma FormatLength(d: CalendarDate)
    ensures |Format(d)| == 10
  {
  }

  // ---------------------------------------------------------------------
  // The title selector
  // ---------------------------------------------------------------------

  function Titles(es: seq<Event>): (ts: seq<string>)
    ensures |ts| == |es| && forall i | 0 <= i < |es| :: ts[i] == es[i].title
  {
    seq(|es|, i requires 0 <= i < |es| => es[i].title)
  }

  /** `titles.index(selected) if selected in titles else 0`. */
  function DefaultIndex(titles: seq<string>, selected: Option<string>): (k: nat)
    ensures titles != [] ==> k < |titles|
    ensures selected.Some? && selected.value in titles ==>
      titles[k] == selected.value && forall j | 0 <= j < k :: titles[j] != selected.value
    ensures !(selected.Some? && selected.value in titles) ==> k == 0
  {
    if selected.None? || titles == [] || titles[0] == selected.value then 0
    else
      assert selected.value in titles ==> selected.value in titles[1..] by {
        if selected.value in titles {
          var i :| 0 <= i < |titles| && titles[i] == selected.value;
          assert titles[1..][i - 1] == titles[i];
        }
      }
      var rest := DefaultIndex(titles[1..], selected);
      if selected.value in titles then rest + 1 else 0
  }

  // ---------------------------------------------------------------------
  // The session
  // ---------------------------------------------------------------------

  datatype UpdateOutcome = Ignored | IndexFailed | Updated

  class Session {
    var events: seq<Event>
    var shouldClear: bool
    var editMode: bool
    /** `edit_idx`, a Python index: negative values count from the end. */
    var editIdx: Option<int>
    /** Bumped on every change, so the calendars get fresh widget keys. */
    var calVer: int
    /** The original title of the last clicked or selected event. */
    var selectedTitle: Option<string>
    /** `cleared_event`, once a clear has stored it. */
    var cleared: Option<Form>

    /** Every event came from the form; edit mode and an edit index go together. */
    ghost predicate Valid()
      reads this
    {
      AllDated(events) && (forall i | 0 <= i < |events| :: events[i].id.None?) &&
      (editMode <==> editIdx.Some?)
    }

    constructor ()
      ensures Valid()
      ensures events == [] && !shouldClear && !editMode && editIdx.None? && calVer == 0
      ensures selectedTitle.None? && cleared.None?
    {
      events := [];
      shouldClear, editMode, editIdx, calVer := false, false, None, 0;
      selectedTitle, cleared := None, None;
    }

    /** A pending clear stores the default form of `today`; false when `today + 7 days` overflows. */
    method ApplyClear(today: CalendarDate) returns (ok: bool)
      requires Valid()
      modifies this
      ensures Valid()
      ensures !old(shouldClear) ==> ok && cleared == old(cleared) && !shouldClear
      ensures old(shouldClear) ==> (ok <==> DefaultForm(today).Some?)
      ensures old(shouldClear) && ok ==> cleared == DefaultForm(today) && !shouldClear
      ensures !ok ==> cleared == old(cleared) && shouldClear
      ensures events == old(events) && editMode == old(editMode) && editIdx == old(editIdx)
      ensures calVer == old(calVer) && selectedTitle == old(selectedTitle)
    {
      ok := true;
      if shouldClear {
        var form := DefaultForm(today);
        if form.None? {
          return false;
        }
        cleared := form;
        shouldClear := false;
      }
    }

    /**
     * The form's initial values: the edited event while editing, else the
     * stored cleared form, else the default form of `today`. None when the
     * index is out of range or `today + 7 days` overflows; the default is
     * computed even when a cleared form exists.
     */
    function BaseForm(today: CalendarDate): (f: Option<Form>)
      reads this
      requires Valid()
      ensures editMode ==> (f.Some? <==> PyIndex(|events|, editIdx.value).Some?)
      ensures editMode && f.Some? ==> FromForm(f.value, None) == events[PyIndex(|events|, editIdx.value).value]
      ensures !editMode ==> (f.Some? <==> DefaultForm(today).Some?)
      ensures !editMode && f.Some? && cleared.Some? ==> f == cleared
      ensures !editMode && f.Some? && cleared.None? ==>
        f.value.title == DefaultName && f.value.deadline == today &&
        DayNumber(f.value.date) == DayNumber(today) + 7
    {
      if editMode then
        match PyIndex(|events|, editIdx.value)
        case None => None
        case Some(k) => Some(ToForm(events[k]))
      else
        var fallback := DefaultForm(today);
        if fallback.None? then None
        else if cleared.Some? then cleared
        else fallback
    }

    /** A selector choice `sel` different from the selected title switches to the first event with that title. */
    method ApplySelection(sel: string) returns (rerun: bool)
      requires Valid()
      modifies this
      ensures Valid()
      ensures old(selectedTitle) == Some(sel) ==>
        !rerun && selectedTitle == old(selectedTitle) && editMode == old(editMode) &&
        editIdx == old(editIdx) && shouldClear == old(shouldClear)
      ensures old(selectedTitle) != Some(sel) ==> selectedTitle == Some(sel)
      ensures old(selectedTitle) != Some(sel) ==> (rerun <==> sel in Titles(events))
      ensures rerun ==> editMode && editIdx == Some(DefaultIndex(Titles(events), Some(sel))) && !shouldClear
      ensures !rerun ==> editMode == old(editMode) && editIdx == old(editIdx) && shouldClear == old(shouldClear)
      ensures events == old(events) && calVer == old(calVer) && cleared == old(cleared)
    {
      rerun := false;
      if selectedTitle != Some(sel) {
        selectedTitle := Some(sel);
        for i := 0 to |events|
          invariant forall j | 0 <= j < i :: events[j].title != sel
          invariant !rerun
        {
          if events[i].title == sel {
            editMode, editIdx, shouldClear := true, Some(i), false;
            rerun := true;
            break;
          }
        }
      }
    }

    /** The register button: the form's event goes at the end of the list. */
    method Register(form: Form)
      requires Valid()
      modifies this
      ensures Valid()
      ensures events == old(events) + [FromForm(form, None)]
      ensures shouldClear && calVer == old(calVer) + 1
      ensures editMode == old(editMode) && editIdx == old(editIdx)
      ensures selectedTitle == old(selectedTitle) && cleared == old(cleared)
    {
      events := events + [FromForm(form, None)];
      shouldClear := true;
      calVer := calVer + 1;
    }

    /**
     * The update button: only in edit mode, the event at `edit_idx` is
     * replaced by the form's and edit mode ends; an index out of range raises.
     */
    method Update(pressed: bool, form: Form) returns (outcome: UpdateOutcome)
      requires Valid()
      modifies this
      ensures Valid()
      ensures outcome == (if !(pressed && old(editMode)) then Ignored
                          else if PyIndex(|old(events)|, old(editIdx).value).None? then IndexFailed
                          else Updated)
      ensures outcome == Updated ==>
        var k := PyIndex(|old(events)|, old(editIdx).value).value;
        |events| == |old(events)| && events == old(events)[k := FromForm(form, None)] &&
        !editMode && editIdx.None? && shouldClear && calVer == old(calVer) + 1
      ensures outcome != Updated ==>
        events == old(events) && editMode == old(editMode) && editIdx == old(editIdx) &&
        shouldClear == old(shouldClear) && calVer == old(calVer)
      ensures selectedTitle == old(selectedTitle) && cleared == old(cleared)
    {
      if !(pressed && editMode && editIdx.Some?) {
        return Ignored;
      }
      var at := PyIndex(|events|, editIdx.value);
      if at.None? {
        return IndexFailed;
      }
      events := events[at.value := FromForm(form, None)];
      editMode, editIdx, shouldClear := false, None, true;
      calVer := calVer + 1;
      outcome := Updated;
    }

    /** The "new" button: leaves edit mode and leaves the list alone. */
    method NewEvent(pressed: bool)
      requires Valid()
      modifies this
      ensures Valid()
      ensures pressed && old(editMode) ==> !editMode && editIdx.None? && shouldClear
      ensures !(pressed && old(editMode)) ==>
        editMode == old(editMode) && editIdx == old(editIdx) && shouldClear == old(shouldClear)
      ensures events == old(events) && calVer == old(calVer)
      ensures selectedTitle == old(selectedTitle) && cleared == old(cleared)
    {
      if pressed && editMode {
        editMode, editIdx, shouldClear := false, None, true;
      }
    }

    /**
     * `process_click`: a resolved click always records its title, and
     * switches the edited event (asking for a rerun) only when the index
     * differs or edit mode was off.
     */
    method ProcessClick(reply: Reply) returns (outcome: ClickOutcome, rerun: bool)
      requires Valid()
      modifies this
      ensures Valid()
      ensures outcome == Resolve(events, reply)
      ensures outcome.Resolved? ==> selectedTitle == Some(outcome.title)
      ensures outcome.Resolved? ==> (rerun <==> old(editIdx) != Some(outcome.idx) || !old(editMode))
      ensures rerun ==> outcome.Resolved? && editMode && editIdx == Some(outcome.idx) && !shouldClear
      ensures !rerun ==> editMode == old(editMode) && editIdx == old(editIdx) && shouldClear == old(shouldClear)
      ensures !outcome.Resolved? ==> !rerun && selectedTitle == old(selectedTitle)
      ensures events == old(events) && calVer == old(calVer) && cleared == old(cleared)
    {
      rerun := false;
      if reply.NoReply? || reply.events == [] {
        return NoClick, false;
      }
      var c := reply.events[0];
      var title := ClickTitle(c);
      var idx := ClickIdx(c);
      if idx.None? {
        if c.start.None? {
          return ClickFailed, false;
        }
        var day := Parse(Prefix10(c.start.value));
        if day.None? {
          return ClickFailed, false;
        }
        for i := 0 to |events|
          invariant idx.None?
          invariant forall j | 0 <= j < i :: !(events[j].title == title && events[j].date == Day(day.value))
        {
          if events[i].title == title && events[i].date == Day(day.value) {
            idx := Some(i);
            assert FirstMatch(events, title, day.value) == Some(i);
            break;
          }
        }
        if idx.None? {
          return NoClick, false;
        }
      }
      outcome := Resolved(idx.value, title);
      selectedTitle := Some(title);
      if Some(idx.value) != editIdx || !editMode {
        editMode, editIdx, shouldClear := true, Some(idx.value), false;
        rerun := true;
      }
    }
  }
}
