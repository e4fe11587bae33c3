/**
 * Entries handed to the calendar widget, and the title-highlight
 * projections that test.py and input+cal.py build with the same loops.
 */
module Calendar {
  import opened Wrappers
  import opened Dates
  import opened Records

  /** The label prefix of a deadline-calendar entry. */
  const DeadlinePrefix: string := "締切: "

  const HighlightBackground: string := "tomato"
  const HighlightBorder: string := "red"
  /** FullCalendar's own event colour, which test.py and input+cal.py set explicitly. */
  const DefaultColour: string := "#3788D8"
  const TextColour: string := "white"

  /** Colour keys of an entry; Unstyled when none is set and the widget's default applies. */
  datatype Style = Unstyled | Colours(background: string, border: string, text: Option<string>)

  /** What `extendedProps` carries back to the app besides `original_title`. */
  datatype Ref = NoRef | ById(id: Option<string>) | ByIndex(idx: int)

  /** One calendar entry; `allDay` is always true and is left out. */
  datatype Entry = Entry(title: string, start: string, end: Option<string>, original: string, ref: Ref, style: Style)

  predicate Highlighted(s: Style) {
    s.Colours? && s.background == HighlightBackground
  }

  /** The event-date calendar of test.py and input+cal.py: one plain entry per event. */
  method DateEntries(events: seq<Event>) returns (entries: seq<Entry>)
    requires AllDated(events)
    ensures |entries| == |events|
    ensures forall i | 0 <= i < |events| ::
      var (e, x) := (events[i], entries[i]);
      x.title == e.title && x.original == e.title &&
      x.start == Format(e.date.d) && x.end == Some(x.start) &&
      Parse(x.start) == Some(e.date.d) &&
      x.ref == NoRef && x.style == Unstyled
  {
    entries := [];
    for i := 0 to |events|
      invariant |entries| == i
      invariant forall k | 0 <= k < i ::
        var (e, x) := (events[k], entries[k]);
        x.title == e.title && x.original == e.title &&
        x.start == Format(e.date.d) && x.end == Some(x.start) &&
        Parse(x.start) == Some(e.date.d) &&
        x.ref == NoRef && x.style == Unstyled
    {
      var e := events[i];
      var day := Format(e.date.d);
      ParseFormat(e.date.d);
      entries := entries + [Entry(e.title, day, Some(day), e.title, NoRef, Unstyled)];
    }
  }

  /**
   * The deadline calendar of test.py and input+cal.py: one entry per event,
   * labelled with the prefix, highlighted exactly when its title is the
   * clicked title and otherwise in the default colours.
   */
  method DeadlineEntries(events: seq<Event>, clicked: Option<string>) returns (entries: seq<Entry>)
    requires AllDated(events)
    ensures |entries| == |events|
    ensures forall i | 0 <= i < |events| ::
      var (e, x) := (events[i], entries[i]);
      x.title == DeadlinePrefix + e.title && x.original == e.title &&
      x.start == Format(e.deadline.d) && x.end == Some(x.start) &&
      Parse(x.start) == Some(e.deadline.d) && x.ref == NoRef &&
      x.style.Colours? && x.style.text == Some(TextColour) &&
      (Highlighted(x.style) <==> clicked == Some(e.title)) &&
      (Highlighted(x.style) ==> x.style.border == HighlightBorder) &&
      (!Highlighted(x.style) ==> x.style.background == DefaultColour && x.style.border == DefaultColour)
  {
    entries := [];
    for i := 0 to |events|
      invariant |entries| == i
      invariant forall k | 0 <= k < i ::
        var (e, x) := (events[k], entries[k]);
        x.title == DeadlinePrefix + e.title && x.original == e.title &&
        x.start == Format(e.deadline.d) && x.end == Some(x.start) &&
        Parse(x.start) == Some(e.deadline.d) && x.ref == NoRef &&
        x.style.Colours? && x.style.text == Some(TextColour) &&
        (Highlighted(x.style) <==> clicked == Some(e.title)) &&
        (Highlighted(x.style) ==> x.style.border == HighlightBorder) &&
        (!Highlighted(x.style) ==> x.style.background == DefaultColour && x.style.border == DefaultColour)
    {
      var e := events[i];
      var day := Format(e.deadline.d);
      ParseFormat(e.deadline.d);
      var style;
      if clicked == Some(e.title) {
        style := Colours(HighlightBackground, HighlightBorder, Some(TextColour));
      } else {
        style := Colours(DefaultColour, DefaultColour, Some(TextColour));
      }
      entries := entries + [Entry(DeadlinePrefix + e.title, day, Some(day), e.title, NoRef, style)];
    }
  }
}
