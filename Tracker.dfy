/** The tracker's database as one object whose tables the request handlers
    change in place: `update_spool` and `import_excel` (main.py:286-357). */
module Tracker {
  import opened Wrappers
  import opened Registry
  import opened Store
  import opened Worksheet

  /** What `update_spool` answers: a 303 redirect to the spool's page, 404, or
      the 422 the web framework gives for a form without a stage or a status. */
  datatype UpdateReply = SeeOther(spoolId: int) | NotFound404 | Unprocessable422

  /** What `import_excel` answers: success, or the error raised when no header
      cell was found. */
  datatype ImportReply = Imported | ImportFailed(error: ImportError)

  /** The row loop of `import_excel` (main.py:349-354): every row below the
      header, top to bottom, has the tag of its cell in the header's column
      got-or-created, each row seeing the spools the rows above it added. */
  method ImportRows(spools: seq<Spool>, ws: Sheet, col: int, headerRow: int) returns (table: seq<Spool>)
    ensures table == AddAll(spools, RowTags(ws, col, headerRow + 1, MaxRow(ws) + 1))
  {
    table := spools;
    var row := headerRow + 1;
    ghost var tags: seq<string> := [];
    while row < MaxRow(ws) + 1
      invariant headerRow + 1 <= row
      invariant row <= MaxRow(ws) + 1 || row == headerRow + 1
      invariant tags == RowTags(ws, col, headerRow + 1, row)
      invariant table == AddAll(spools, tags)
    {
      var tag := CellTag(Cell(ws, row, col));
      RowTagsStep(ws, col, headerRow + 1, row);
      if tag.Some? {
        AddAllSnoc(spools, tags, tag.value);
        table := AddIfAbsent(table, tag.value);
        tags := tags + [tag.value];
      }
      row := row + 1;
    }
  }

  /** The body of `import_excel` on the spools table: the header scan, then
      the row loop below the header; without a header the import fails and
      adds nothing. */
  method ImportSheet(spools: seq<Spool>, ws: Sheet) returns (r: Result<seq<Spool>, ImportError>)
    ensures r == Import(spools, ws)
  {
    var header := FindHeader(ws);
    if header.None? {
      return Failure(HeaderNotFound);
    }
    var (headerRow, col) := header.value;
    var table := ImportRows(spools, ws, col, headerRow);
    ImportFromHeader(spools, ws, headerRow, col);
    r := Success(table);
  }

  /** A successful import leaves the state and the log as they were and
      keeps the database consistent. */
  lemma ImportKeepsValid(d: Db, ws: Sheet)
    requires Valid(d)
    ensures Import(d.spools, ws).Success? ==> Valid(Db(Import(d.spools, ws).value, d.states, d.events))
  {
    if Import(d.spools, ws).Success? {
      ImportGrows(d.spools, ws);
      GrowRegistryPreservesValid(d, Import(d.spools, ws).value);
    }
  }

  class SpoolTracker {
    var spools: seq<Spool>
    var states: map<int, SpoolState>
    var events: seq<Event>

    function Snapshot(): Db
      reads this
    {
      Db(spools, states, events)
    }

    ghost predicate Valid()
      reads this
    {
      Store.Valid(Snapshot())
    }

    /** Fresh, empty tables (the `create_all` of `init_db`). */
    constructor ()
      ensures Valid()
      ensures spools == [] && states == map[] && events == []
    {
      spools, states, events := [], map[], [];
    }

    /** `update_spool`: 422 for a form without a stage or a status and 404 for
        an unknown id, with nothing written in either case; otherwise
        the spool's state is created or overwritten and one event appended,
        committed together. */
    method UpdateSpool(spoolId: int, form: UpdateForm, now: int) returns (reply: UpdateReply)
      requires Valid()
      modifies this
      ensures Valid()
      ensures match Transition(old(Snapshot()), spoolId, form, now)
        case Failure(Unprocessable) => reply == Unprocessable422 && Snapshot() == old(Snapshot())
        case Failure(NotFound) => reply == NotFound404 && Snapshot() == old(Snapshot())
        case Success(d) => reply == SeeOther(spoolId) && Snapshot() == d
    {
      ghost var before := Snapshot();
      if form.stage == [] || form.status == [] {
        return Unprocessable422;
      }
      var spool := FindById(spools, spoolId);
      if spool.None? {
        return NotFound404;
      }
      var location := form.location.GetOr("");
      var note := form.note.GetOr("");
      if spoolId !in states {
        states := states[spoolId := SpoolState(spoolId, form.stage, form.status, location, note, now, None)];
      } else {
        var st := states[spoolId];
        st := st.(stage := form.stage);
        st := st.(status := form.status);
        st := st.(location := location);
        st := st.(note := note);
        st := st.(updatedAt := now);
        states := states[spoolId := st];
      }
      events := events + [Event(|events| + 1, spoolId, None, now, UPDATE_ACTION, form.stage, form.status, location, note)];
      TransitionPreservesValid(before, spoolId, form, now);
      reply := SeeOther(spoolId);
    }

    /** `import_excel`: find the header, then get-or-create a spool for every
        non-empty cell below it in the header's column. */
    method ImportExcel(ws: Sheet) returns (reply: ImportReply)
      requires Valid()
      modifies this
      ensures Valid()
      ensures states == old(states) && events == old(events)
      ensures match Import(old(spools), ws)
        case Failure(e) => reply == ImportFailed(e) && spools == old(spools)
        case Success(s) => reply == Imported && spools == s
    {
      var result := ImportSheet(spools, ws);
      match result
      case Failure(e) =>
        reply := ImportFailed(e);
      case Success(table) =>
        ImportKeepsValid(Snapshot(), ws);
        spools := table;
        reply := Imported;
    }

  }
}
