/**
 * Event records as the planner's session list and its JSON file hold them:
 * Python dicts with the keys `id`, `title`, `date`, `deadline` and
 * `description`, where `date` and `deadline` may hold a `datetime.date`,
 * a string, some other JSON value, or be absent.
 */
module Records {
  import opened Wrappers
  import opened Dates

  /** The value found under a record's `date` or `deadline` key. */
  datatype Slot =
    | Absent                 // the key is not present
    | Day(d: CalendarDate)   // a `datetime.date` (only in memory)
    | Text(s: string)        // a string (as the file holds it)
    | NonDate                // any other value: null, a number, a list, ...

  /**
   * One event record. `id` is None both when the key is absent and when it
   * holds null; the variants without persistence never set it.
   */
  datatype Event = Event(id: Option<string>, title: string, date: Slot, deadline: Slot, description: string)

  /** The four values the input form submits. */
  datatype Form = Form(title: string, date: CalendarDate, deadline: CalendarDate, description: string)

  /** The record a form submission creates. */
  function FromForm(f: Form, id: Option<string>): Event {
    Event(id, f.title, Day(f.date), Day(f.deadline), f.description)
  }

  /** Both `date` and `deadline` hold `datetime.date` values. */
  predicate Dated(e: Event) {
    e.date.Day? && e.deadline.Day?
  }

  predicate AllDated(es: seq<Event>) {
    forall i | 0 <= i < |es| :: Dated(es[i])
  }

  /** No slot still holds unparsed text: true of every list the planner keeps in memory. */
  predicate NoText(es: seq<Event>) {
    forall i | 0 <= i < |es| :: !es[i].date.Text? && !es[i].deadline.Text?
  }

  /** No slot holds a `datetime.date`: true of every list decoded from JSON. */
  predicate NoDay(es: seq<Event>) {
    forall i | 0 <= i < |es| :: !es[i].date.Day? && !es[i].deadline.Day?
  }

  /**
   * The events whose `date` and `deadline` are both dates, in list order:
   * the `isinstance` filter in front of the notices and the calendars.
   */
  function FilterDated(es: seq<Event>): (r: seq<Event>)
    ensures AllDated(r)
    ensures forall e :: e in r <==> e in es && Dated(e)
    ensures AllDated(es) ==> r == es
    ensures NoText(es) ==> NoText(r)
  {
    if es == [] then []
    else (if Dated(es[0]) then [es[0]] else []) + FilterDated(es[1..])
  }

  lemma {:induction false} FilterDatedAppend(a: seq<Event>, b: seq<Event>)
    ensures FilterDated(a + b) == FilterDated(a) + FilterDated(b)
  {
    if a == [] {
      assert a + b == b;
    } else {
      assert (a + b)[0] == a[0] && (a + b)[1..] == a[1..] + b;
      FilterDatedAppend(a[1..], b);
    }
  }

  /** Python's `seq[i]` index rule: negative indexes count from the end; None is IndexError. */
  function PyIndex(n: nat, i: int): (k: Option<nat>)
    ensures k.Some? <==> 0 <= i + n && i < n
    ensures k.Some? ==> k.value < n && (k.value == i || k.value == n + i)
  {
    if 0 <= i < n then Some(i)
    else if 0 <= i + n && i < 0 then Some(n + i)
    else None
  }
}
