/**
 * entry_cal.py: the planner with ids, JSON persistence, a select box to
 * choose the event to edit, update/delete/create handlers, and the two
 * calendars that highlight the event being edited.
 */
module EntryCal {
  import opened Wrappers
  import opened Dates
  import opened Records
  import opened Store
  import opened Notices
  import opened Calendar

  // ---------------------------------------------------------------------
  // Lookup and removal by id
  // ---------------------------------------------------------------------

  /** The position of the first event with id `id`. */
  function IndexOfId(es: seq<Event>, id: string): (k: Option<nat>)
    ensures k.Some? <==> HasId(es, id)
    ensures k.Some? ==> (k.value < |es| && es[k.value].id == Some(id) &&
                         forall j | 0 <= j < k.value :: es[j].id != Some(id))
  {
    if es == [] then None
    else if es[0].id == Some(id) then Some(0)
    else
      var rest := IndexOfId(es[1..], id);
      assert HasId(es, id) ==> HasId(es[1..], id) by {
        if HasId(es, id) {
          var i :| 0 <= i < |es| && es[i].id == Some(id);
          assert es[1..][i - 1] == es[i];
        }
      }
      if rest.None? then None else Some(rest.value + 1)
  }

  /** `[ev for ev in event_list if ev.get('id') != id]`. */
  function WithoutId(es: seq<Event>, id: string): seq<Event> {
    if es == [] then []
    else (if es[0].id != Some(id) then [es[0]] else []) + WithoutId(es[1..], id)
  }

  lemma {:induction false} WithoutIdMembers(es: seq<Event>, id: string)
    ensures forall e :: e in WithoutId(es, id) <==> e in es && e.id != Some(id)
  {
    if es != [] {
      WithoutIdMembers(es[1..], id);
      assert es == [es[0]] + es[1..];
    }
  }

  lemma {:induction false} WithoutIdSize(es: seq<Event>, id: string)
    ensures |WithoutId(es, id)| <= |es|
    ensures !HasId(es, id) ==> WithoutId(es, id) == es
    ensures HasId(es, id) ==> |WithoutId(es, id)| < |es|
  {
    if es != [] {
      WithoutIdSize(es[1..], id);
      HasIdCons(es, id);
      assert es == [es[0]] + es[1..];
    }
  }

  /** After delete no event has the id, exactly the others remain, and an unknown id changes nothing. */
  lemma WithoutIdFacts(es: seq<Event>, id: string)
    ensures !HasId(WithoutId(es, id), id)
    ensures forall e :: e in WithoutId(es, id) <==> e in es && e.id != Some(id)
    ensures !HasId(es, id) ==> WithoutId(es, id) == es
    ensures HasId(es, id) ==> |WithoutId(es, id)| < |es|
  {
    WithoutIdMembers(es, id);
    WithoutIdSize(es, id);
    var r := WithoutId(es, id);
    forall i | 0 <= i < |r| ensures r[i].id != Some(id) {
      assert r[i] in r;
    }
  }

  /** Deletion keeps the survivors in their order: it is a filter, list by list. */
  lemma {:induction false} WithoutIdAppend(a: seq<Event>, b: seq<Event>, id: string)
    ensures WithoutId(a + b, id) == WithoutId(a, id) + WithoutId(b, id)
  {
    if a == [] {
      assert a + b == b;
    } else {
      assert (a + b)[0] == a[0] && (a + b)[1..] == a[1..] + b;
      WithoutIdAppend(a[1..], b, id);
    }
  }

  /**
   * Replacing the first event with the target id by the updated record
   * keeps the length and every other position, and lookups by that id now
   * find the updated record at the same position.
   */
  lemma ReplaceById(es: seq<Event>, id: string, e: Event)
    requires HasId(es, id) && e.id == Some(id)
    ensures var k := IndexOfId(es, id).value; var r := es[k := e];
      |r| == |es| && IndexOfId(r, id) == Some(k) && r[k] == e &&
      forall j | 0 <= j < |es| && j != k :: r[j] == es[j]
  {
    var k := IndexOfId(es, id).value;
    var r := es[k := e];
    assert r[k].id == Some(id);
    assert forall j | 0 <= j < k :: r[j] == es[j];
  }

  /** Replacing the first event with the id by a record with that id keeps ids distinct. */
  lemma ReplaceKeepsDistinct(es: seq<Event>, id: string, e: Event)
    requires HasId(es, id) && e.id == Some(id) && DistinctIds(es)
    ensures DistinctIds(es[IndexOfId(es, id).value := e])
  {
  }

  /** Deleting by id keeps the remaining ids distinct. */
  lemma {:induction false} WithoutIdKeepsDistinct(es: seq<Event>, id: string)
    requires DistinctIds(es)
    ensures DistinctIds(WithoutId(es, id))
  {
    if es != [] {
      var rest := WithoutId(es[1..], id);
      assert DistinctIds(es[1..]) by {
        forall i, j | 0 <= i < j < |es[1..]| && es[1..][i].id.Some? && es[1..][j].id.Some?
          ensures es[1..][i].id != es[1..][j].id
        {
          assert es[1..][i] == es[i + 1] && es[1..][j] == es[j + 1];
        }
      }
      WithoutIdKeepsDistinct(es[1..], id);
      if es[0].id != Some(id) {
        WithoutIdMembers(es[1..], id);
        var r := [es[0]] + rest;
        forall j | 0 < j < |r| && es[0].id.Some? && r[j].id.Some?
          ensures es[0].id != r[j].id
        {
          assert r[j] == rest[j - 1];
          assert rest[j - 1] in es[1..];
          var k :| 0 <= k < |es[1..]| && es[1..][k] == r[j];
          assert es[k + 1] == r[j];
        }
        assert WithoutId(es, id) == r;
      }
    }
  }

  // ---------------------------------------------------------------------
  // The session
  // ---------------------------------------------------------------------

  datatype UpdateOutcome = EmptyTitle | Updated | NotFound

  class Session {
    /** `st.session_state.event_list`. */
    var events: seq<Event>
    /** The data file, as last read or written. */
    var disk: FileContent
    /** The warnings the initial load showed. */
    var loadNotices: seq<LoadNotice>
    var submitted: bool
    var shouldClearForm: bool

    /** Every event in memory came from the form or from a load, so no slot holds unparsed text. */
    ghost predicate Valid()
      reads this
    {
      NoText(events)
    }

    /** Session start: the list is loaded from the file. */
    constructor (content: FileContent)
      ensures Valid()
      ensures (events, loadNotices) == LoadResult(content) && disk == content
      ensures !submitted && shouldClearForm
    {
      var es, notices := Load(content);
      events, loadNotices := es, notices;
      disk := content;
      submitted, shouldClearForm := false, true;
    }

    /** The register button: a non-empty title appends a new event with id `newId` and saves. */
    method Create(form: Form, newId: string, saveIds: nat -> string) returns (created: bool)
      requires Valid()
      modifies this
      ensures Valid()
      ensures created <==> form.title != ""
      ensures created ==>
        events == old(events) + [FromForm(form, Some(newId))] &&
        disk == Json(Saved(events, Backfill(saveIds))) &&
        submitted && shouldClearForm
      ensures !created ==>
        events == old(events) && disk == old(disk) &&
        submitted == old(submitted) && shouldClearForm == old(shouldClearForm)
      ensures created && DistinctIds(old(events)) && !HasId(old(events), newId) ==> DistinctIds(events)
      ensures loadNotices == old(loadNotices)
    {
      if form.title == "" {
        return false;
      }
      events := events + [FromForm(form, Some(newId))];
      var records := Save(events, Backfill(saveIds));
      disk := Json(records);
      submitted, shouldClearForm := true, true;
      created := true;
      if DistinctIds(old(events)) && !HasId(old(events), newId) {
        forall i, j | 0 <= i < j < |events| && events[i].id.Some? && events[j].id.Some?
          ensures events[i].id != events[j].id
        {
          if j == |events| - 1 {
            assert events[i] == old(events)[i];
          }
        }
      }
    }

    /**
     * The update button while `target` is being edited: an empty title is
     * refused; otherwise the first event with that id is replaced and the
     * list is saved, or nothing changes when no event has it.
     */
    method Update(target: string, form: Form, saveIds: nat -> string) returns (outcome: UpdateOutcome)
      requires Valid() && target != ""
      modifies this
      ensures Valid()
      ensures outcome == (if form.title == "" then EmptyTitle
                          else if HasId(old(events), target) then Updated
                          else NotFound)
      ensures outcome == Updated ==>
        events == old(events)[IndexOfId(old(events), target).value := FromForm(form, Some(target))] &&
        disk == Json(Saved(events, Backfill(saveIds))) && shouldClearForm
      ensures DistinctIds(old(events)) ==> DistinctIds(events)
      ensures outcome != Updated ==>
        events == old(events) && disk == old(disk) && shouldClearForm == old(shouldClearForm)
      ensures submitted == old(submitted) && loadNotices == old(loadNotices)
    {
      if form.title == "" {
        return EmptyTitle;
      }
      var at: Option<nat> := None;
      for i := 0 to |events|
        invariant at.None?
        invariant forall j | 0 <= j < i :: events[j].id != Some(target)
      {
        if events[i].id == Some(target) {
          at := Some(i);
          assert IndexOfId(events, target) == at;
          break;
        }
      }
      if at.Some? {
        if DistinctIds(events) {
          ReplaceKeepsDistinct(events, target, FromForm(form, Some(target)));
        }
        events := events[at.value := FromForm(form, Some(target))];
        var records := Save(events, Backfill(saveIds));
        disk := Json(records);
        shouldClearForm := true;
        outcome := Updated;
      } else {
        assert !HasId(old(events), target);
        outcome := NotFound;
      }
    }

    /**
     * The delete button while `target` is being edited: every event with
     * that id goes, the list is saved, and the title of the first one is
     * reported ("" when there was none).
     */
    method Delete(target: string, saveIds: nat -> string) returns (deletedTitle: string)
      requires Valid() && target != ""
      modifies this
      ensures Valid()
      ensures events == WithoutId(old(events), target)
      ensures DistinctIds(old(events)) ==> DistinctIds(events)
      ensures deletedTitle == (match IndexOfId(old(events), target)
                               case Some(k) => old(events)[k].title
                               case None => "")
      ensures disk == Json(Saved(events, Backfill(saveIds))) && shouldClearForm
      ensures submitted == old(submitted) && loadNotices == old(loadNotices)
    {
      deletedTitle := "";
      for i := 0 to |events|
        invariant forall j | 0 <= j < i :: events[j].id != Some(target)
        invariant deletedTitle == ""
      {
        if events[i].id == Some(target) {
          deletedTitle := events[i].title;
          assert IndexOfId(events, target) == Some(i);
          break;
        }
      }
      var kept := WithoutId(events, target);
      WithoutIdFacts(events, target);
      if DistinctIds(events) {
        WithoutIdKeepsDistinct(events, target);
      }
      assert NoText(kept) by {
        forall j | 0 <= j < |kept| ensures !kept[j].date.Text? && !kept[j].deadline.Text? {
          assert kept[j] in kept;
          var k :| 0 <= k < |events| && events[k] == kept[j];
        }
      }
      events := kept;
      var records := Save(events, Backfill(saveIds));
      disk := Json(records);
      shouldClearForm := true;
    }

    /** The cancel button. */
    method Cancel()
      requires Valid()
      modifies this
      ensures Valid()
      ensures shouldClearForm
      ensures events == old(events) && disk == old(disk) && submitted == old(submitted)
      ensures loadNotices == old(loadNotices)
    {
      shouldClearForm := true;
    }
  }

  // ---------------------------------------------------------------------
  // The notice board over the events with valid dates
  // ---------------------------------------------------------------------

  method NoticeBoard(events: seq<Event>, today: CalendarDate) returns (board: Board)
    ensures board.NoEvents? <==> forall i | 0 <= i < |events| :: !Dated(events[i])
    ensures board.Board? ==>
      var valid := FilterDated(events);
      |board.countdown| == |valid| &&
      (forall i | 0 <= i < |valid| :: board.countdown[i] == NoticeFor(SortByDeadline(valid)[i], today)) &&
      board.duplicates == DuplicateReport(DatesOf(valid)) &&
      (board.allClear <==> board.duplicates == [])
  {
    var valid := FilterDated(events);
    board := BuildBoard(valid, today);
    if valid != [] {
      assert valid[0] in events;
    } else {
      forall i | 0 <= i < |events| ensures !Dated(events[i]) {
        assert events[i] in events;
      }
    }
  }

  // ---------------------------------------------------------------------
  // The select box
  // ---------------------------------------------------------------------

  /** One select-box option: the placeholder, or a (title, id) pair. */
  datatype Choice = Placeholder | Pick(title: string, id: string)

  /** An id that Python treats as true: present and non-empty. */
  predicate TruthyId(e: Event) {
    e.id.Some? && e.id.value != ""
  }

  /** The number of events with a truthy id. */
  function CountTruthy(es: seq<Event>): nat {
    if es == [] then 0 else (if TruthyId(es[0]) then 1 else 0) + CountTruthy(es[1..])
  }

  /** An option per event whose id is truthy (present and non-empty), in list order. */
  function Picks(es: seq<Event>): (r: seq<Choice>)
    ensures |r| == CountTruthy(es) <= |es|
    ensures forall c | c in r :: c.Pick? && c.id != ""
    ensures forall c | c in r :: exists i | 0 <= i < |es| :: es[i].id == Some(c.id) && es[i].title == c.title
    ensures forall i | 0 <= i < |es| && TruthyId(es[i]) :: Pick(es[i].title, es[i].id.value) in r
  {
    if es == [] then []
    else
      var rest := Picks(es[1..]);
      assert forall i | 1 <= i < |es| :: es[i] == es[1..][i - 1];
      var head := if TruthyId(es[0]) then [Pick(es[0].title, es[0].id.value)] else [];
      assert forall c | c in rest :: c in head + rest;
      head + rest
  }

  /** The options of two lists are those of the first followed by those of the second. */
  lemma {:induction false} PicksAppend(a: seq<Event>, b: seq<Event>)
    ensures Picks(a + b) == Picks(a) + Picks(b)
  {
    if a == [] {
      assert a + b == b;
    } else {
      assert (a + b)[0] == a[0] && (a + b)[1..] == a[1..] + b;
      PicksAppend(a[1..], b);
    }
  }

  /** One event gives one option exactly when its id is truthy. */
  lemma PicksOne(e: Event)
    ensures Picks([e]) == if TruthyId(e) then [Pick(e.title, e.id.value)] else []
  {
    assert [e][1..] == [];
  }

  function Options(es: seq<Event>): seq<Choice> {
    [Placeholder] + Picks(es)
  }

  /** The first option carrying id `id`. */
  function FirstPick(options: seq<Choice>, id: string): (k: Option<nat>)
    ensures k.None? <==> forall j | 0 <= j < |options| :: !(options[j].Pick? && options[j].id == id)
    ensures k.Some? ==> (k.value < |options| && options[k.value].Pick? && options[k.value].id == id &&
                         forall j | 0 <= j < k.value :: !(options[j].Pick? && options[j].id == id))
  {
    if options == [] then None
    else if options[0].Pick? && options[0].id == id then Some(0)
    else
      var rest := FirstPick(options[1..], id);
      assert forall j | 1 <= j < |options| :: options[j] == options[1..][j - 1];
      if rest.None? then None else Some(rest.value + 1)
  }

  /** The select box's initial index: the option of the event being edited, else the placeholder. */
  method CurrentIndex(options: seq<Choice>, editing: Option<string>) returns (index: nat)
    ensures index == (if editing.Some? && editing.value != "" && FirstPick(options, editing.value).Some?
                      then FirstPick(options, editing.value).value else 0)
  {
    index := 0;
    if editing.Some? && editing.value != "" {
      for i := 0 to |options|
        invariant forall j | 0 <= j < i :: !(options[j].Pick? && options[j].id == editing.value)
      {
        if options[i].Pick? && options[i].id == editing.value {
          index := i;
          break;
        }
      }
    }
  }

  lemma HasIdCons(es: seq<Event>, id: string)
    requires es != []
    ensures HasId(es, id) <==> es[0].id == Some(id) || HasId(es[1..], id)
  {
    if HasId(es, id) && es[0].id != Some(id) {
      var i :| 0 <= i < |es| && es[i].id == Some(id);
      assert es[1..][i - 1] == es[i];
    }
    if HasId(es[1..], id) {
      var i :| 0 <= i < |es[1..]| && es[1..][i].id == Some(id);
      assert es[i + 1] == es[1..][i];
    }
  }

  lemma FirstPickBehind(c: Choice, rest: seq<Choice>, id: string)
    requires !(c.Pick? && c.id == id)
    ensures FirstPick([c] + rest, id) ==
      (if FirstPick(rest, id).None? then None else Some(FirstPick(rest, id).value + 1))
  {
    assert ([c] + rest)[1..] == rest;
  }

  /** Past an event without the id, the first entry for it is the rest's, shifted by at most one. */
  lemma PicksSkip(es: seq<Event>, id: string)
    requires es != [] && es[0].id != Some(id)
    ensures var (p, q) := (FirstPick(Picks(es), id), FirstPick(Picks(es[1..]), id));
      (p.Some? <==> q.Some?) && (p.Some? ==> Picks(es)[p.value] == Picks(es[1..])[q.value])
  {
    if TruthyId(es[0]) {
      FirstPickBehind(Pick(es[0].title, es[0].id.value), Picks(es[1..]), id);
    }
  }

  /** The options show the event being edited at the first option that carries its id. */
  lemma {:induction false} PicksFindEdited(es: seq<Event>, id: string)
    requires id != ""
    ensures FirstPick(Picks(es), id).Some? <==> HasId(es, id)
    ensures HasId(es, id) ==> Picks(es)[FirstPick(Picks(es), id).value] == Pick(es[IndexOfId(es, id).value].title, id)
  {
    if es != [] {
      HasIdCons(es, id);
      if es[0].id == Some(id) {
        assert Picks(es) == [Pick(es[0].title, id)] + Picks(es[1..]);
      } else {
        PicksFindEdited(es[1..], id);
        PicksSkip(es, id);
        if HasId(es, id) {
          assert es[IndexOfId(es, id).value] == es[1..][IndexOfId(es[1..], id).value];
        }
      }
    }
  }

  /** With an event of that id in the list, the initial index selects its option. */
  lemma OptionsSelectEdited(es: seq<Event>, id: string)
    requires id != ""
    ensures FirstPick(Options(es), id).Some? <==> HasId(es, id)
    ensures HasId(es, id) ==> Options(es)[FirstPick(Options(es), id).value] == Pick(es[IndexOfId(es, id).value].title, id)
  {
    PicksFindEdited(es, id);
    assert Options(es)[1..] == Picks(es);
  }

  // ---------------------------------------------------------------------
  // The calendars
  // ---------------------------------------------------------------------

  /** The highlight test as entry_cal.py writes it: `editing_event_id == ev.get('id')`. */
  predicate HighlightAsWritten(editing: Option<string>, e: Event) {
    editing == e.id
  }

  /** The intended highlight: only while an event is being edited, and only that event. */
  predicate EditHighlight(editing: Option<string>, e: Event) {
    editing.Some? && editing == e.id
  }

  /** As written, an event without id is highlighted whenever no event is being edited. */
  lemma IdlessEventHighlightedAsWritten()
    ensures var e := Event(None, "A", Day(Date(2025, 6, 1)), Day(Date(2025, 5, 1)), "");
      Dated(e) && HighlightAsWritten(None, e) && !EditHighlight(None, e)
  {
  }

  /** The corrected test agrees with the written one whenever some event is being edited. */
  lemma EditHighlightAgrees(editing: Option<string>, e: Event)
    ensures EditHighlight(editing, e) <==> HighlightAsWritten(editing, e) && editing.Some?
    ensures editing.None? ==> !EditHighlight(editing, e)
  {
  }

  const EditColours: Style := Colours(HighlightBackground, HighlightBorder, None)

  /** The deadline calendar: one entry per event with valid dates, the edited one in tomato. */
  method DeadlineCalendar(events: seq<Event>, editing: Option<string>) returns (entries: seq<Entry>)
    ensures |entries| == |FilterDated(events)|
    ensures forall i | 0 <= i < |entries| ::
      var (e, x) := (FilterDated(events)[i], entries[i]);
      x.title == DeadlinePrefix + e.title && x.original == e.title &&
      x.start == Format(e.deadline.d) && x.end == Some(x.start) && x.ref == ById(e.id) &&
      (x.style == EditColours <==> EditHighlight(editing, e)) &&
      (x.style != EditColours ==> x.style == Unstyled)
  {
    var valid := FilterDated(events);
    entries := [];
    for i := 0 to |valid|
      invariant |entries| == i
      invariant forall k | 0 <= k < i ::
        var (e, x) := (valid[k], entries[k]);
        x.title == DeadlinePrefix + e.title && x.original == e.title &&
        x.start == Format(e.deadline.d) && x.end == Some(x.start) && x.ref == ById(e.id) &&
        (x.style == EditColours <==> EditHighlight(editing, e)) &&
        (x.style != EditColours ==> x.style == Unstyled)
    {
      var e := valid[i];
      var day := Format(e.deadline.d);
      var entry := Entry(DeadlinePrefix + e.title, day, Some(day), e.title, ById(e.id), Unstyled);
      if editing.Some? && editing == e.id {
        entry := entry.(style := EditColours);
      }
      entries := entries + [entry];
    }
  }

  /** The event-date calendar: one entry per event with valid dates, the edited one in tomato. */
  method DateCalendar(events: seq<Event>, editing: Option<string>) returns (entries: seq<Entry>)
    ensures |entries| == |FilterDated(events)|
    ensures forall i | 0 <= i < |entries| ::
      var (e, x) := (FilterDated(events)[i], entries[i]);
      x.title == e.title && x.original == e.title &&
      x.start == Format(e.date.d) && x.end == Some(x.start) && x.ref == ById(e.id) &&
      (x.style == EditColours <==> EditHighlight(editing, e)) &&
      (x.style != EditColours ==> x.style == Unstyled)
  {
    var valid := FilterDated(events);
    entries := [];
    for i := 0 to |valid|
      invariant |entries| == i
      invariant forall k | 0 <= k < i ::
        var (e, x) := (valid[k], entries[k]);
        x.title == e.title && x.original == e.title &&
        x.start == Format(e.date.d) && x.end == Some(x.start) && x.ref == ById(e.id) &&
        (x.style == EditColours <==> EditHighlight(editing, e)) &&
        (x.style != EditColours ==> x.style == Unstyled)
    {
      var e := valid[i];
      var day := Format(e.date.d);
      var entry := Entry(e.title, day, Some(day), e.title, ById(e.id), Unstyled);
      if editing.Some? && editing == e.id {
        entry := entry.(style := EditColours);
      }
      entries := entries + [entry];
    }
  }
}
