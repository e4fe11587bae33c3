# Event planner core, modelled in Dafny

The repository is a single-user event planner built with Streamlit. An event
has a title, an event date, an application deadline and a description. The
app keeps the events of the session in a list. It shows deadline countdowns
and a duplicate-date check over that list, and draws two calendars: one by
event date and one by deadline. Several variants of the same app exist:

- `entry_cal.py` persists the list to a JSON file, gives every event an id,
  and edits, updates and deletes through a select box;
- `test.py` persists without ids and only appends;
- `input+cal.py` keeps the list in memory and resets the form to fixed defaults;
- `sample1.py` keeps the list in memory and selects the event to edit by a
  click on a calendar entry that carries the event's list index.

The widget layer is left out. The model keeps the sequential core under it:

- `Dates`: proleptic Gregorian dates. It covers Python's `date` range
  (years 1 to 9999), the day number behind `date - date` and
  `date + timedelta`, `isoformat`, and the strict ten-character
  `fromisoformat`. Format and parse are proved to be inverses.
- `Records`: the event record. A date or deadline slot is absent, a date,
  unparsed text or another value. The module also holds the filter to events
  with two valid dates, and Python's list indexing with negative indexes.
- `Store`: the save loop (with or without id backfill) and the load loop
  (skipping records whose date text does not parse), over an abstract file.
  It proves that load after save gives the list back, up to the backfilled
  ids, and that save after load gives back exactly the loadable records.
- `Notices`: the stable sort by deadline and the countdown classification. It
  also has the `Counter`-ordered duplicate-date report with its all-clear flag.
- `Calendar`: the title-highlight calendar projections shared by `test.py`
  and `input+cal.py`.
- `EntryCal`, `TestApp`, `InputCal` and `Sample1`: the session state of each
  app, as a class whose methods are the button handlers. Each also holds that
  app's own projections and lookups.

Every handler's `ensures` gives the whole new session state as a function of
the old one. Lemmas and loop invariants prove the properties the apps rely
on: order is kept, only the target position changes, ids stay unique under
create, update, delete and the save backfill, and a click leads back to its
event.

## Model

| member | source | states |
|---|---|---|
| `Dates.DaysInMonth` | entry_cal.py:46 | A month has 28 to 31 days; it has 29 exactly in February of a Gregorian leap year. `fromisoformat` accepts the same day ranges. |
| `Dates.DayNumberOrder` | entry_cal.py:128-134 | The day number orders dates as `date` comparison does: one date is earlier iff its number is smaller, and two dates are equal iff their numbers are equal. This makes `(deadline - today).days` a difference of day numbers. |
| `Dates.AddDaysNumber` | sample1.py:50 | `d + timedelta(days=n)` is defined iff the result is within year 9999. When defined, it adds exactly `n` to the day number; otherwise it is the `OverflowError`. |
| `Dates.ParseFormat` | entry_cal.py:20-23 | `fromisoformat(d.isoformat())` is `d` for every valid date. |
| `Dates.FormatParse` | entry_cal.py:44-46 | Every string that `fromisoformat` accepts is the `isoformat` of the date it yields. |
| `Dates.ParseIsInverse` | entry_cal.py:50-52 | A string parses to `d` iff it is exactly `d.isoformat()`. |
| `Records.FilterDated` | entry_cal.py:116-119 | The filter keeps exactly the events whose date and deadline are both dates. A list that is already all dated comes back unchanged. |
| `Records.FilterDatedAppend` | entry_cal.py:276-279 | The filter works piece by piece, so it keeps the list order. |
| `Records.PyIndex` | sample1.py:57 | A Python index `i` into a list of length `n` is valid iff `-n <= i < n`. It then denotes `i` or `n + i`. |
| `Store.Saved` | entry_cal.py:15-24 | Saving yields one record per event, in the same order, each built from its own event. |
| `Store.Save` | test.py:12-22 | The save loop builds exactly the `Saved` list. |
| `Store.SavedFields` | entry_cal.py:17-23 | A saved record keeps the title and description. It turns a date slot into its ISO text and leaves every other slot as it was. It keeps an existing id, and backfills a missing one only under the id-backfilling policy. |
| `Store.BackfilledIdsUnique` | entry_cal.py:18-19 | With backfill, every saved record has an id. Distinct existing ids plus fresh, pairwise different new ids give distinct ids throughout. |
| `Store.Load` | entry_cal.py:32-60 | The load loop yields exactly `LoadResult`. A missing file gives an empty list with no warning. An unreadable or undecodable file gives an empty list and one error. No loaded slot holds text. |
| `Store.KeptAppend` | test.py:39-54 | Loading works record by record: both the kept events and the warnings split over concatenation, so the relative order is kept. |
| `Store.KeptCount` | test.py:39-55 | Every record is either kept or warned about. There is no warning iff every record is loadable. |
| `Store.KeptExactly` | entry_cal.py:41-56 | An event is loaded iff some record loads to it. |
| `Store.LoadAfterSave` | entry_cal.py:13-57 | Loading the saved records of an in-memory list gives that list back, with the ids the save assigned, and no warning. |
| `Store.LoadAfterSaveKeepIds` | test.py:12-55 | Without id backfill, load after save is the identity. |
| `Store.SaveAfterLoad` | test.py:39-54 | Saving what was loaded from raw records gives back exactly the loadable records, in order. |
| `Notices.SortByDeadline` | entry_cal.py:125 | The sort is a permutation of its input. |
| `Notices.SortSorted` | sample1.py:27 | The sorted list ascends by deadline. |
| `Notices.SortStable` | test.py:86 | The sort is stable: the events sharing a deadline keep their list order. |
| `Notices.ClassifyByDate` | sample1.py:28-35 | The classification is passed iff the deadline is before today, due today iff the two are equal, and "N days left" iff the deadline is after today, with N the difference in days. |
| `Notices.SortedNotices` | test.py:86-97 | The notices of the sorted list ascend by deadline, and each classifies its deadline against today. |
| `Notices.CountdownMessages` | entry_cal.py:125-135 | The loop yields one notice per event of the sorted list, in order, and so inherits the order and classification above. |
| `Notices.Distinct` | entry_cal.py:144 | `Counter` keys: exactly the dates of the list, each once. |
| `Notices.DistinctSnoc` | entry_cal.py:144 | Counting one more date adds it as the last key exactly when it was not yet a key, otherwise the keys stay as they were. |
| `Notices.DistinctFirstOrder` | entry_cal.py:144 | The keys come in the order of their first occurrence: a key listed before another first occurs before it. |
| `Notices.DuplicateReportExact` | test.py:106-113 | A date is reported iff it occurs at least twice. It is reported once, with its exact count. |
| `Notices.DuplicateCheck` | entry_cal.py:143-151 | The duplicate loop yields exactly the report. The all-clear notice appears iff no date occurs twice. |
| `Notices.DatesOf` | entry_cal.py:143 | The list of event dates, one per event, in order. |
| `Notices.BuildBoard` | test.py:79-116 | An empty list gives the "no events" notice. Otherwise the board holds the countdown, the duplicate report and the all-clear flag, as above. |
| `Calendar.DateEntries` | input+cal.py:78-86 | One entry per event, in list order. Its title is the event's; start and end are the ISO event date, which parses back to that date. |
| `Calendar.DeadlineEntries` | test.py:170-190 | One entry per event, titled `締切: ` plus the title, at the ISO deadline. It is tomato/red iff its title is the clicked title, and `#3788D8` otherwise; its text is always white. |
| `EntryCal.IndexOfId` | entry_cal.py:222-226 | The index of the first event with the id, present iff some event has it. |
| `EntryCal.ReplaceById` | entry_cal.py:224 | Replacing at that index keeps the length and every other position, and the id is still found there. |
| `EntryCal.WithoutIdFacts` | entry_cal.py:242 | After delete no event has the id. Exactly the other events remain, and an unknown id leaves the list unchanged. |
| `EntryCal.WithoutIdAppend` | entry_cal.py:242 | Delete works piece by piece, so the survivors keep their order. |
| `EntryCal.ReplaceKeepsDistinct` | entry_cal.py:224 | Replacing the first event with the id by a record carrying that id keeps all ids distinct. |
| `EntryCal.WithoutIdKeepsDistinct` | entry_cal.py:242 | Deleting by id keeps the remaining ids distinct. |
| `EntryCal.Session.constructor` | entry_cal.py:63-74 | The session starts with the loaded list and its warnings, should-clear set and submitted unset. |
| `EntryCal.Session.Create` | entry_cal.py:252-267 | An empty title changes nothing. Otherwise exactly one event with the new id is appended, the list is saved with id backfill, and submitted and should-clear are set. A fresh new id keeps ids unique. |
| `EntryCal.Session.Update` | entry_cal.py:209-233 | An empty title changes nothing. An unknown id changes nothing and reports not-found. Otherwise only the first event with the id is replaced by the form's event under the same id, the list is saved, and should-clear is set. Distinct ids stay distinct. |
| `EntryCal.Session.Delete` | entry_cal.py:234-246 | Every event with the id is removed, the list is saved and should-clear is set. The reported title is that of the first such event, or empty. Distinct ids stay distinct. |
| `EntryCal.Session.Cancel` | entry_cal.py:247-250 | Only should-clear changes. |
| `EntryCal.NoticeBoard` | entry_cal.py:111-151 | The board covers only the events with both dates. It shows "no events" iff there is none. |
| `EntryCal.Picks` | entry_cal.py:172-175 | The select-box entries after the placeholder: as many as there are events with a non-empty id, each the title and id of such an event, and every such event has its entry. |
| `EntryCal.PicksAppend` | entry_cal.py:172-175 | The entries of two lists are those of the first followed by those of the second, so they follow list order. |
| `EntryCal.PicksOne` | entry_cal.py:174 | A single event gives its (title, id) entry exactly when its id is present and non-empty, and none otherwise. |
| `EntryCal.FirstPick` | entry_cal.py:180-183 | The first option carrying the id, present iff some option does. |
| `EntryCal.CurrentIndex` | entry_cal.py:177-183 | The default index is the first option carrying the edited id when one is set, and 0 otherwise. |
| `EntryCal.PicksFindEdited` | entry_cal.py:171-175 | An id is among the entries iff some event has it. The first entry for it shows the title of the first event with that id. |
| `EntryCal.OptionsSelectEdited` | entry_cal.py:172-183 | With the placeholder in front, the default index selects the option of the event being edited. |
| `EntryCal.IdlessEventHighlightedAsWritten` | entry_cal.py:290 | As written, the highlight test picks out a dated event that has no id when no event is being edited. |
| `EntryCal.EditHighlightAgrees` | entry_cal.py:313 | The corrected test highlights only while an event is being edited. It then agrees with the written test. |
| `EntryCal.DeadlineCalendar` | entry_cal.py:281-293 | One entry per dated event, in order, titled with the prefix, at the ISO deadline, carrying the id. It is tomato/red iff that event is being edited, and unstyled otherwise. |
| `EntryCal.DateCalendar` | entry_cal.py:304-316 | The same for the event-date calendar, with the plain title at the ISO date. |
| `TestApp.LastTitle` | test.py:159-161 | The title at index -1, present iff the list is non-empty. |
| `TestApp.Session.constructor` | test.py:62-71 | The session starts with the loaded list and its warnings, both flags unset and no clicked title. |
| `TestApp.Session.Register` | test.py:143-156 | The form's event is appended without title validation, and the list is saved without ids. Both flags are set, and the last title is the form's. |
| `TestApp.Session.TakeSubmittedMessage` | test.py:158-162 | After a submit, the message names the last event's title. The flag is reset, and nothing else changes. |
| `InputCal.Session.constructor` | input+cal.py:6-18 | The session starts with an empty list and all flags unset. |
| `InputCal.Session.ApplyClear` | input+cal.py:21-26 | A pending clear stores the fixed defaults and resets the flag. The form shows those defaults either way. |
| `InputCal.Session.Register` | input+cal.py:55-65 | Exactly one event from the form is appended at the end, and submitted and should-clear are set. |
| `InputCal.Session.TakeSubmittedMessage` | input+cal.py:67-71 | After a submit, the message names the last event's title, and the flag is reset. |
| `Sample1.ToForm` | sample1.py:89-92 | The form filled from an event rebuilds that event. |
| `Sample1.DefaultForm` | sample1.py:48-53 | The cleared form has the default title, today as deadline and the day a week ahead. It is undefined when that day overflows. |
| `Sample1.MakeEvent` | sample1.py:137-147 | The entry carries the index and original title. It has the `締切: ` prefix iff it is a deadline entry, and its start parses back to the deadline or the date. |
| `Sample1.Projection` | sample1.py:149-158 | One entry per event, each carrying its own list index. |
| `Sample1.FirstMatch` | sample1.py:181-184 | The first event with the title on the date, present iff one exists. |
| `Sample1.ClickRoundTrip` | sample1.py:170-187 | A click on any entry the app built carries that event's index, and a click with that index resolves to the event and its title. |
| `Sample1.ClickFallback` | sample1.py:178-184 | A click whose props lost the index still resolves, through the ISO start, to the first event with that title and date. That event is at or before the clicked one. |
| `Sample1.ClickFallbackDeadline` | sample1.py:178-184 | On a deadline entry that lost its index, the fallback compares the deadline's day with the events' dates. It resolves iff some event with that title is dated on that deadline, then to such an event, and never to the clicked event when its date and deadline differ. |
| `Sample1.DefaultIndex` | sample1.py:68-69 | The selector index is the first position of the selected title, or 0 when the title is absent. |
| `Sample1.Session.constructor` | sample1.py:7-17 | The session defaults: an empty list, no edit mode, no edit index, version 0 and no selected title. |
| `Sample1.Session.ApplyClear` | sample1.py:47-54 | A pending clear stores the default form of today and resets the flag. An overflow on today plus 7 days leaves both alone. |
| `Sample1.Session.BaseForm` | sample1.py:56-64 | In edit mode, the form shows the event at the edit index, and raises for an index out of range. Otherwise it shows the stored cleared form, else the default form; the default is evaluated, and can overflow, in either case. |
| `Sample1.Session.ApplySelection` | sample1.py:70-79 | A choice other than the selected title becomes the selected title. If an event has that title, edit mode starts on the first such event and the clear is cancelled; otherwise the edit state is untouched. |
| `Sample1.Session.Register` | sample1.py:100-110 | The form's event is appended, should-clear is set, and the calendar version is bumped. |
| `Sample1.Session.Update` | sample1.py:112-125 | This works only in edit mode. Only the element at the Python index `edit_idx` is replaced, and the length is kept. Edit mode and the index are cleared, should-clear is set, and the version is bumped. An index out of range raises, with nothing changed. |
| `Sample1.Session.NewEvent` | sample1.py:127-131 | In edit mode it leaves edit mode and clears the index. The list is untouched. |
| `Sample1.Session.ProcessClick` | sample1.py:170-197 | The click resolves as `Resolve` says. A resolved click always records its title, and switches the edited index (asking for a rerun) iff the index differs or edit mode was off. |

## Left out

- Rendering: all Streamlit rendering, columns, containers and widget keys. Message texts and `strftime` formats appear as result values (statuses, counts, titles, outcome codes), not as strings.
- Reruns: `st.rerun()` is not modelled. `Sample1.Session.ProcessClick` returns whether it asked for one, but the sequence of the two calls at sample1.py:199-200 is the caller's business.
- JSON text and the file system: `os.path.exists` and `json.load` are the abstract input `FileContent`. IO and JSON decode errors are both `Unreadable`. A file that is not valid UTF-8 raises `UnicodeDecodeError`, which entry_cal.py:58 and test.py:56 do not catch, so the app stops instead of starting with an empty list; that crash is not modelled, and such a file is also `Unreadable`. A decoded value that is not a list of objects is not modelled.
- Write failures: saving that fails with `IOError` (entry_cal.py:29-30, test.py:27-28) is not modelled; `disk` always holds the written records.
- `uuid.uuid4()`: it is a parameter. `Create` takes the new id, and a save takes a function from record position to id; uniqueness is proved under the assumption that those ids are fresh.
- `datetime.date.today()`: it is the parameter `today`.
- Python 3.11 and later accept more `fromisoformat` forms (basic format, week dates). The model parses the strict `YYYY-MM-DD` form of earlier versions.
- Record keys: titles and descriptions are strings. The `(無題)` fallbacks for a missing title, non-string ids and extra keys are not modelled. `NonDate` stands for any date value that is neither text nor a date, such as `null`.
- entry_cal.py:87-108 and 155-168 are not modelled: loading the edited event into the form, the form reset, and the select-box change handler. The edited id is a parameter of `Update`, `Delete`, `CurrentIndex` and the calendars.
- entry_cal.py:269-271 is not modelled: the create success message reads the form field after the form reset.
- The Google Calendar button (entry_cal.py:327-335) runs an external program and is not modelled.
- test.py:118-140 and input+cal.py:28-51 are not modelled: the form widget values. For input+cal.py, the stored defaults equal the fallback literals.
- sample1.py: the `submitted` key, the editing label (84-85) and `int(idx)` on a non-integer value are not modelled.
- input_form.py and practice.py are not part of this model: widget plumbing and a hello-world counter.
- Notices.BuildBoard: requires every event to carry two dates. entry_cal.py filters to such events first (`EntryCal.NoticeBoard`), and sample1.py and input+cal.py only hold events built from the form, which always do. Only test.py can hold a loaded record whose date or deadline is missing or not a date. A bad deadline raises on a non-empty list at test.py:86 (`sorted`) or 90 (subtraction). A bad date alone raises at test.py:106 (KeyError) when the key is missing and at test.py:107 (TypeError) when the value is unhashable, such as a JSON list or object. A hashable non-date value (`null`, a number, a boolean) passes the countdown and `Counter` (test.py:86-107). It raises at test.py:112 when two records share it, and otherwise only at test.py:215, so for that case alone the board and the deadline calendar render before the run ends in an exception. The model does not describe that partial rendering.
- Calendar.DateEntries: requires every event to carry two dates. In test.py a record whose date is not a date raises at test.py:215 (`isoformat`) if it has not already raised at test.py:106, 107 or 112. A record whose deadline is not a date has already raised at test.py:86 or 90. input+cal.py only holds events built from the form.
- Calendar.DeadlineEntries: requires every event to carry two dates. In test.py a record whose deadline is not a date has already raised at test.py:86 or 90, before the deadline calendar. A record whose date alone is a hashable non-date value, shared with no other record, still gets its deadline entry, and the run then raises at test.py:215; that partial rendering is not modelled.
- Notices.CountdownMessages: entry_cal.py:138-139 ("no deadline information") cannot be reached, because every listed event yields a notice.

## Findings

| source | as written | input that shows it | evidently intended | confidence | as-written member | corrected member |
|---|---|---|---|---|---|---|
| entry_cal.py:290 | The calendars highlight an event when `editing_event_id == ev.get('id')`. | A record without an id, for example one from a file written by test.py (same file name, saved without ids), loaded while no event is being edited. `None == None` colours it tomato. The select box omits it, so it cannot even be chosen. | Highlight only the event being edited: an id is set and equals the event's id. | not executed; follows from Python equality on `None` | `EntryCal.IdlessEventHighlightedAsWritten` | `EntryCal.DeadlineCalendar` |
