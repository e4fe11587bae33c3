/**
 * The event store: `save_events_to_file` and `load_events_from_file`
 * (entry_cal.py and test.py). The JSON text and the file system stay
 * abstract: loading starts from what `os.path.exists` and `json.load`
 * produced, saving ends with the record list handed to `json.dump`.
 */
module Store {
  import opened Wrappers
  import opened Dates
  import opened Records

  /** What reading the data file yields. */
  datatype FileContent =
    | NoFile                     // `os.path.exists` is false
    | Unreadable                 // IOError or JSONDecodeError
    | Json(records: seq<Event>)  // the decoded list of records

  /** What loading reports to the user. */
  datatype LoadNotice =
    | ReadFailed              // the error notice for an unreadable file
    | BadDate(title: string)  // a record skipped for its `date`
    | BadDeadline(title: string)  // a record skipped for its `deadline`

  /**
   * How a save treats ids: test.py keeps them as they are; entry_cal.py
   * gives record `i` the id `newId(i)` (its `uuid.uuid4()`) when it has none.
   */
  datatype IdPolicy = KeepIds | Backfill(newId: nat -> string)

  // ---------------------------------------------------------------------
  // Saving
  // ---------------------------------------------------------------------

  function SaveSlot(v: Slot): Slot {
    if v.Day? then Text(Format(v.d)) else v
  }

  function SaveId(id: Option<string>, i: nat, policy: IdPolicy): Option<string> {
    if policy.Backfill? && id.None? then Some(policy.newId(i)) else id
  }

  /** Record `i` of the list as it is written to the file. */
  function SaveRecord(e: Event, i: nat, policy: IdPolicy): Event {
    e.(id := SaveId(e.id, i, policy), date := SaveSlot(e.date), deadline := SaveSlot(e.deadline))
  }

  function Saved(es: seq<Event>, policy: IdPolicy): (r: seq<Event>)
    ensures |r| == |es|
    ensures forall i | 0 <= i < |es| :: r[i] == SaveRecord(es[i], i, policy)
  {
    seq(|es|, i requires 0 <= i < |es| => SaveRecord(es[i], i, policy))
  }

  /** The serialisable list `save_events_to_file` builds before `json.dump`. */
  method Save(events: seq<Event>, policy: IdPolicy) returns (records: seq<Event>)
    ensures records == Saved(events, policy)
  {
    records := [];
    for i := 0 to |events|
      invariant |records| == i
      invariant forall k | 0 <= k < i :: records[k] == SaveRecord(events[k], k, policy)
    {
      var record := events[i];
      if policy.Backfill? && record.id.None? {
        record := record.(id := Some(policy.newId(i)));
      }
      if record.date.Day? {
        record := record.(date := Text(Format(record.date.d)));
      }
      if record.deadline.Day? {
        record := record.(deadline := Text(Format(record.deadline.d)));
      }
      records := records + [record];
    }
  }

  /** What a save writes keeps titles and descriptions, turns every date into ISO text, and fills in ids. */
  lemma SavedFields(es: seq<Event>, policy: IdPolicy, i: nat)
    requires i < |es|
    ensures var r := Saved(es, policy)[i];
      r.title == es[i].title && r.description == es[i].description &&
      (es[i].date.Day? ==> r.date == Text(Format(es[i].date.d))) &&
      (!es[i].date.Day? ==> r.date == es[i].date) &&
      (es[i].deadline.Day? ==> r.deadline == Text(Format(es[i].deadline.d))) &&
      (!es[i].deadline.Day? ==> r.deadline == es[i].deadline) &&
      (es[i].id.Some? ==> r.id == es[i].id) &&
      (policy.Backfill? ==> r.id.Some?) &&
      (policy.KeepIds? ==> r.id == es[i].id)
  {
  }

  /** No two records that carry an id carry the same one. */
  predicate DistinctIds(es: seq<Event>) {
    forall i, j | 0 <= i < j < |es| :: es[i].id.Some? && es[j].id.Some? ==> es[i].id != es[j].id
  }

  predicate HasId(es: seq<Event>, id: string) {
    exists i | 0 <= i < |es| :: es[i].id == Some(id)
  }

  /**
   * With ids drawn from a fresh-id source (distinct per record, never an
   * id already in the list), every saved record has an id and no two
   * saved records share one.
   */
  lemma BackfilledIdsUnique(es: seq<Event>, newId: nat -> string)
    requires DistinctIds(es)
    requires forall i, j | 0 <= i < j < |es| :: newId(i) != newId(j)
    requires forall i | 0 <= i < |es| :: !HasId(es, newId(i))
    ensures forall i | 0 <= i < |es| :: Saved(es, Backfill(newId))[i].id.Some?
    ensures DistinctIds(Saved(es, Backfill(newId)))
  {
    var r := Saved(es, Backfill(newId));
    forall i, j | 0 <= i < j < |es|
      ensures r[i].id != r[j].id
    {
      if es[i].id.None? && es[j].id.Some? {
        assert !HasId(es, newId(i));
      } else if es[i].id.Some? && es[j].id.None? {
        assert !HasId(es, newId(j));
      }
    }
  }

  // ---------------------------------------------------------------------
  // Loading
  // ---------------------------------------------------------------------

  /** A slot after `fromisoformat`: None when a string fails to parse. */
  function LoadSlot(v: Slot): Option<Slot> {
    if v.Text? then (match Parse(v.s) case Some(d) => Some(Day(d)) case None => None)
    else Some(v)
  }

  datatype RecordLoad = Keep(event: Event) | Skip(notice: LoadNotice)

  /** One record of the file: its dates parsed, or the warning that skips it. */
  function LoadRecord(r: Event): RecordLoad {
    match LoadSlot(r.date)
    case None => Skip(BadDate(r.title))
    case Some(date) =>
      match LoadSlot(r.deadline)
      case None => Skip(BadDeadline(r.title))
      case Some(deadline) => Keep(r.(date := date, deadline := deadline))
  }

  predicate Loadable(r: Event) {
    LoadRecord(r).Keep?
  }

  /** The records that load, with their dates parsed, in file order. */
  function Kept(rs: seq<Event>): seq<Event>
    decreases |rs|
  {
    if rs == [] then []
    else
      var last := LoadRecord(rs[|rs| - 1]);
      Kept(rs[..|rs| - 1]) + (if last.Keep? then [last.event] else [])
  }

  /** The per-record warnings, in file order. */
  function Skipped(rs: seq<Event>): seq<LoadNotice>
    decreases |rs|
  {
    if rs == [] then []
    else
      var last := LoadRecord(rs[|rs| - 1]);
      Skipped(rs[..|rs| - 1]) + (if last.Skip? then [last.notice] else [])
  }

  /** The list `load_events_from_file` returns and the notices it shows. */
  function LoadResult(content: FileContent): (seq<Event>, seq<LoadNotice>) {
    match content
    case NoFile => ([], [])
    case Unreadable => ([], [ReadFailed])
    case Json(rs) => (Kept(rs), Skipped(rs))
  }

  method Load(content: FileContent) returns (events: seq<Event>, notices: seq<LoadNotice>)
    ensures (events, notices) == LoadResult(content)
    ensures content.NoFile? ==> events == [] && notices == []
    ensures content.Unreadable? ==> events == [] && notices == [ReadFailed]
    ensures NoText(events)
  {
    match content
    case NoFile =>
      return [], [];
    case Unreadable =>
      return [], [ReadFailed];
    case Json(rs) =>
      events, notices := [], [];
      for i := 0 to |rs|
        invariant events == Kept(rs[..i]) && notices == Skipped(rs[..i])
      {
        assert rs[..i + 1][..i] == rs[..i];
        var record := rs[i];
        if record.date.Text? {
          var parsed := Parse(record.date.s);
          if parsed.None? {
            notices := notices + [BadDate(record.title)];
            continue;
          }
          record := record.(date := Day(parsed.value));
        }
        if record.deadline.Text? {
          var parsed := Parse(record.deadline.s);
          if parsed.None? {
            notices := notices + [BadDeadline(record.title)];
            continue;
          }
          record := record.(deadline := Day(parsed.value));
        }
        events := events + [record];
      }
      assert rs[..|rs|] == rs;
      KeptNoText(rs);
  }

  lemma {:induction false} KeptNoText(rs: seq<Event>)
    ensures NoText(Kept(rs))
    decreases |rs|
  {
    if rs != [] {
      KeptNoText(rs[..|rs| - 1]);
    }
  }

  /** Loading is record by record: the result for a concatenation is the concatenation of results. */
  lemma {:induction false} KeptAppend(a: seq<Event>, b: seq<Event>)
    ensures Kept(a + b) == Kept(a) + Kept(b)
    ensures Skipped(a + b) == Skipped(a) + Skipped(b)
    decreases |b|
  {
    if b == [] {
      assert a + b == a;
    } else {
      var b' := b[..|b| - 1];
      assert (a + b)[..|a + b| - 1] == a + b';
      assert (a + b)[|a + b| - 1] == b[|b| - 1];
      KeptAppend(a, b');
    }
  }

  /** A single record is kept, parsed, exactly when it loads, and otherwise reported once. */
  lemma KeptOne(r: Event)
    ensures Kept([r]) == (if Loadable(r) then [LoadRecord(r).event] else [])
    ensures Skipped([r]) == (if Loadable(r) then [] else [LoadRecord(r).notice])
  {
    assert [r][..0] == [];
  }

  /** Every record is either kept or reported; none is lost and none is duplicated. */
  lemma {:induction false} KeptCount(rs: seq<Event>)
    ensures |Kept(rs)| + |Skipped(rs)| == |rs|
    ensures |Skipped(rs)| == 0 <==> forall i | 0 <= i < |rs| :: Loadable(rs[i])
    decreases |rs|
  {
    if rs != [] {
      var front := rs[..|rs| - 1];
      KeptCount(front);
      assert forall i | 0 <= i < |front| :: front[i] == rs[i];
    }
  }

  /** Loading keeps exactly the records whose date texts parse, with those texts parsed. */
  lemma {:induction false} KeptExactly(rs: seq<Event>, e: Event)
    ensures e in Kept(rs) <==> exists i | 0 <= i < |rs| :: LoadRecord(rs[i]) == Keep(e)
    decreases |rs|
  {
    if rs != [] {
      var front := rs[..|rs| - 1];
      KeptExactly(front, e);
      assert forall i | 0 <= i < |front| :: front[i] == rs[i];
    }
  }

  // ---------------------------------------------------------------------
  // Round trips
  // ---------------------------------------------------------------------

  /** The list with its ids as the save under `policy` writes them. */
  function WithSavedIds(es: seq<Event>, policy: IdPolicy): (r: seq<Event>)
    ensures |r| == |es|
  {
    seq(|es|, i requires 0 <= i < |es| => es[i].(id := SaveId(es[i].id, i, policy)))
  }

  /** One record read back after it was written: its dates parse to the dates it had. */
  lemma LoadSavedRecord(e: Event, i: nat, policy: IdPolicy)
    requires !e.date.Text? && !e.deadline.Text?
    ensures LoadRecord(SaveRecord(e, i, policy)) == Keep(e.(id := SaveId(e.id, i, policy)))
  {
    if e.date.Day? { ParseFormat(e.date.d); }
    if e.deadline.Day? { ParseFormat(e.deadline.d); }
  }

  /** Loading what was saved gives back the list, up to the ids the save filled in. */
  lemma {:induction false} LoadAfterSave(es: seq<Event>, policy: IdPolicy)
    requires NoText(es)
    ensures LoadResult(Json(Saved(es, policy))) == (WithSavedIds(es, policy), [])
    decreases |es|
  {
    if es != [] {
      var n := |es| - 1;
      var front := es[..n];
      var saved := Saved(es, policy);
      assert saved[..n] == Saved(front, policy);
      LoadAfterSave(front, policy);
      var e := es[n];
      var back := e.(id := SaveId(e.id, n, policy));
      LoadSavedRecord(e, n, policy);
      assert Kept(saved) == Kept(saved[..n]) + [back];
      assert Skipped(saved) == Skipped(saved[..n]);
      assert WithSavedIds(es, policy) == WithSavedIds(front, policy) + [back];
    }
  }

  /** So the test.py store, which adds no ids, round-trips every in-memory list exactly. */
  lemma LoadAfterSaveKeepIds(es: seq<Event>)
    requires NoText(es)
    ensures LoadResult(Json(Saved(es, KeepIds))).0 == es
  {
    LoadAfterSave(es, KeepIds);
    assert WithSavedIds(es, KeepIds) == es;
  }

  /** The records of a file that load at all, unchanged. */
  function LoadableRecords(rs: seq<Event>): seq<Event>
    decreases |rs|
  {
    if rs == [] then []
    else LoadableRecords(rs[..|rs| - 1]) + (if Loadable(rs[|rs| - 1]) then [rs[|rs| - 1]] else [])
  }

  /**
   * Saving what was loaded from a decoded file rewrites the file without its
   * unparseable records and otherwise unchanged: an accepted date text is
   * always the `isoformat` text of the date it denotes.
   */
  lemma {:induction false} SaveAfterLoad(rs: seq<Event>)
    requires NoDay(rs)
    ensures Saved(Kept(rs), KeepIds) == LoadableRecords(rs)
    decreases |rs|
  {
    if rs != [] {
      var n := |rs| - 1;
      assert NoDay(rs[..n]) by {
        assert forall i | 0 <= i < n :: rs[..n][i] == rs[i];
      }
      SaveAfterLoad(rs[..n]);
      var r := rs[n];
      var k := Kept(rs[..n]);
      if Loadable(r) {
        if r.date.Text? { FormatParse(r.date.s); }
        if r.deadline.Text? { FormatParse(r.deadline.s); }
        var e := LoadRecord(r).event;
        assert SaveSlot(e.date) == r.date;
        assert SaveSlot(e.deadline) == r.deadline;
        assert SaveRecord(e, |k|, KeepIds) == r;
        assert Saved(k + [e], KeepIds) == Saved(k, KeepIds) + [r];
      }
    }
  }
}
