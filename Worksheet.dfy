/** The spreadsheet side of `import_excel` (main.py:337-357): the active sheet
    as a grid of optional cell texts, the scan for the header cell, and the
    tags the rows below it yield. */
module Worksheet {
  import opened Wrappers
  import opened Text
  import opened Registry

  /** The active worksheet: rows of cells, each empty or holding the text its
      value prints as. */
  datatype Sheet = Sheet(rows: seq<seq<Option<string>>>)

  /** The rows 1..9 that the header scan looks at (`range(1, 10)`). */
  const HEADER_SCAN_ROWS: nat := 9
  const HEADER_KEYWORD: string := "isom"

  function MaxRow(ws: Sheet): nat
  {
    |ws.rows|
  }

  /** The width of the widest row. */
  function MaxColumn(ws: Sheet): (m: nat)
    ensures forall i :: 0 <= i < |ws.rows| ==> |ws.rows[i]| <= m
    ensures ws.rows != [] ==> exists i :: 0 <= i < |ws.rows| && |ws.rows[i]| == m
    decreases |ws.rows|
  {
    if ws.rows == [] then 0
    else
      var rest := MaxColumn(Sheet(ws.rows[1..]));
      assert forall i :: 1 <= i < |ws.rows| ==> ws.rows[i] == ws.rows[1..][i - 1];
      if |ws.rows[0]| >= rest then |ws.rows[0]| else rest
  }

  /** `ws.cell(r, c).value`, 1-based; cells outside the grid are empty. */
  function Cell(ws: Sheet, r: int, c: int): Option<string>
  {
    if 1 <= r <= |ws.rows| && 1 <= c <= |ws.rows[r - 1]| then ws.rows[r - 1][c - 1] else None
  }

  /** The header test: a non-empty value whose lower-cased text contains "isom". */
  predicate IsHeaderCell(v: Option<string>)
  {
    v.Some? && v.value != [] && HasInfix(AsciiLower(v.value), HEADER_KEYWORD)
  }

  /** The first column in c..max_column of row r that passes the header test. */
  function FirstHeaderColumn(ws: Sheet, r: int, c: int): Option<int>
    requires c >= 1
    decreases MaxColumn(ws) + 1 - c
  {
    if c > MaxColumn(ws) then None
    else if IsHeaderCell(Cell(ws, r, c)) then Some(c)
    else FirstHeaderColumn(ws, r, c + 1)
  }

  /** The column search finds the leftmost header cell of row r at or after
      column c, and nothing exactly when that part of the row has none. */
  lemma {:induction false} FirstHeaderColumnSpec(ws: Sheet, r: int, c: int)
    requires c >= 1
    ensures FirstHeaderColumn(ws, r, c).Some? ==>
      c <= FirstHeaderColumn(ws, r, c).value <= MaxColumn(ws) && IsHeaderCell(Cell(ws, r, FirstHeaderColumn(ws, r, c).value))
    ensures FirstHeaderColumn(ws, r, c).Some? ==>
      forall c' :: c <= c' < FirstHeaderColumn(ws, r, c).value ==> !IsHeaderCell(Cell(ws, r, c'))
    ensures FirstHeaderColumn(ws, r, c).None? ==> forall c' :: c <= c' <= MaxColumn(ws) ==> !IsHeaderCell(Cell(ws, r, c'))
    decreases MaxColumn(ws) + 1 - c
  {
    if c > MaxColumn(ws) {
      assert FirstHeaderColumn(ws, r, c) == None;
    } else if IsHeaderCell(Cell(ws, r, c)) {
      assert FirstHeaderColumn(ws, r, c) == Some(c);
    } else {
      var res := FirstHeaderColumn(ws, r, c);
      assert res == FirstHeaderColumn(ws, r, c + 1);
      FirstHeaderColumnSpec(ws, r, c + 1);
      if res.Some? {
        forall c' | c <= c' < res.value ensures !IsHeaderCell(Cell(ws, r, c')) {
          if c' > c {
            assert c + 1 <= c' < res.value;
          }
        }
      } else {
        forall c' | c <= c' <= MaxColumn(ws) ensures !IsHeaderCell(Cell(ws, r, c')) {
          if c' > c {
            assert c + 1 <= c' <= MaxColumn(ws);
          }
        }
      }
    }
  }

  /** The header the scan of rows 1..n settles on: the first matching column
      of the LAST row that has one, since `break` leaves only the column loop
      and a later row overwrites `col` and `header_row`. */
  function HeaderIn(ws: Sheet, n: nat): Option<(int, int)>
  {
    if n == 0 then None
    else match FirstHeaderColumn(ws, n, 1)
      case Some(c) => Some((n, c))
      case None => HeaderIn(ws, n - 1)
  }

  /** The scan settles on the last of rows 1..n that holds a header cell, at
      that row's first header column; it finds nothing exactly when none of
      rows 1..n holds one. */
  lemma {:induction false} HeaderInSpec(ws: Sheet, n: nat)
    ensures HeaderIn(ws, n).None? <==> forall r :: 1 <= r <= n ==> FirstHeaderColumn(ws, r, 1).None?
    ensures HeaderIn(ws, n).Some? ==>
      var r := HeaderIn(ws, n).value.0;
      && 1 <= r <= n
      && FirstHeaderColumn(ws, r, 1) == Some(HeaderIn(ws, n).value.1)
      && forall r' :: r < r' <= n ==> FirstHeaderColumn(ws, r', 1).None?
  {
    if n > 0 {
      var first := FirstHeaderColumn(ws, n, 1);
      if first.None? {
        HeaderInSpec(ws, n - 1);
        assert HeaderIn(ws, n) == HeaderIn(ws, n - 1);
      } else {
        var h := HeaderIn(ws, n);
        assert h == Some((n, first.value));
        assert h.value.0 == n && FirstHeaderColumn(ws, n, 1) == Some(h.value.1);
        assert !(forall r :: 1 <= r <= n ==> FirstHeaderColumn(ws, r, 1).None?) by {
          assert FirstHeaderColumn(ws, n, 1).Some?;
        }
      }
    }
  }

  function HeaderOf(ws: Sheet): Option<(int, int)>
  {
    HeaderIn(ws, HEADER_SCAN_ROWS)
  }

  /** The nested header loops of `import_excel` (main.py:342-347). */
  method FindHeader(ws: Sheet) returns (h: Option<(int, int)>)
    ensures h == HeaderOf(ws)
  {
    h := None;
    var r := 1;
    while r < HEADER_SCAN_ROWS + 1
      invariant 1 <= r <= HEADER_SCAN_ROWS + 1
      invariant h == HeaderIn(ws, r - 1)
    {
      var c := 1;
      while c < MaxColumn(ws) + 1
        invariant 1 <= c <= MaxColumn(ws) + 1
        invariant FirstHeaderColumn(ws, r, 1) == FirstHeaderColumn(ws, r, c)
        invariant h == HeaderIn(ws, r - 1)
      {
        if IsHeaderCell(Cell(ws, r, c)) {
          h := Some((r, c));
          break;
        }
        c := c + 1;
      }
      r := r + 1;
    }
  }

  /** The tag a data cell yields: `str(val).strip()` when `val` is truthy. The
      emptiness test comes before the strip, so a cell of blanks yields "". */
  function CellTag(v: Option<string>): Option<string>
  {
    if v.Some? && v.value != [] then Some(Strip(v.value)) else None
  }

  /** The tags rows from..to-1 of column `col` yield, top to bottom. */
  function RowTags(ws: Sheet, col: int, from: int, to: int): seq<string>
    decreases if to <= from then 0 else to - from
  {
    if to <= from then []
    else match CellTag(Cell(ws, to - 1, col))
      case Some(t) => RowTags(ws, col, from, to - 1) + [t]
      case None => RowTags(ws, col, from, to - 1)
  }

  /** One more row adds its cell's tag, if it yields one, at the end. */
  lemma RowTagsStep(ws: Sheet, col: int, from: int, row: int)
    requires from <= row
    ensures RowTags(ws, col, from, row + 1)
      == RowTags(ws, col, from, row) + (if CellTag(Cell(ws, row, col)).Some? then [CellTag(Cell(ws, row, col)).value] else [])
  {
  }

  /** Every tag of rows from..to-1 is what one of those rows' cells yields. */
  lemma {:induction false} RowTagsFromCells(ws: Sheet, col: int, from: int, to: int)
    ensures forall t :: t in RowTags(ws, col, from, to) ==>
      exists r :: from <= r < to && CellTag(Cell(ws, r, col)) == Some(t)
    decreases if to <= from then 0 else to - from
  {
    if to > from {
      RowTagsFromCells(ws, col, from, to - 1);
    }
  }

  /** Conversely, every cell of rows from..to-1 that yields a tag contributes
      it to the tags of those rows. */
  lemma {:induction false} RowTagsCoverCells(ws: Sheet, col: int, from: int, to: int)
    ensures forall r :: from <= r < to && CellTag(Cell(ws, r, col)).Some? ==>
      CellTag(Cell(ws, r, col)).value in RowTags(ws, col, from, to)
    decreases if to <= from then 0 else to - from
  {
    if to > from {
      RowTagsCoverCells(ws, col, from, to - 1);
      var last := CellTag(Cell(ws, to - 1, col));
      assert RowTags(ws, col, from, to) ==
        RowTags(ws, col, from, to - 1) + (if last.Some? then [last.value] else []);
    }
  }

  /** Cells past the widest row are empty. */
  lemma CellPastLastColumn(ws: Sheet, r: int, c: int)
    requires c > MaxColumn(ws)
    ensures Cell(ws, r, c) == None
  {
    if 1 <= r <= |ws.rows| {
      assert |ws.rows[r - 1]| <= MaxColumn(ws);
    }
  }

  /** Rows below the last one are empty, so a row loop that runs past the end
      of the sheet yields the same tags as one that stops at the last row. */
  lemma {:induction false} RowTagsPastLastRow(ws: Sheet, col: int, from: int, to: int)
    requires to >= MaxRow(ws) + 1
    ensures RowTags(ws, col, from, to) == RowTags(ws, col, from, MaxRow(ws) + 1)
    decreases if to <= MaxRow(ws) then 0 else to - MaxRow(ws)
  {
    if to > MaxRow(ws) + 1 {
      assert Cell(ws, to - 1, col) == None;
      RowTagsPastLastRow(ws, col, from, to - 1);
    }
  }

  /** The tags of a sequence, as a set. */
  function TagSet(tags: seq<string>): set<string>
  {
    set t | t in tags
  }

  /** Get-or-create for each tag in turn; later tags see the spools earlier
      ones added, as the session's autoflush makes the database do. */
  function AddAll(spools: seq<Spool>, tags: seq<string>): seq<Spool>
    decreases |tags|
  {
    if tags == [] then spools
    else AddIfAbsent(AddAll(spools, tags[..|tags| - 1]), tags[|tags| - 1])
  }

  /** The import only adds rows, and the tags it ends with are the old ones
      plus the sheet's. */
  lemma {:induction false} AddAllGrows(spools: seq<Spool>, tags: seq<string>)
    ensures spools <= AddAll(spools, tags)
    ensures Tags(AddAll(spools, tags)) == Tags(spools) + TagSet(tags)
    decreases |tags|
  {
    if tags != [] {
      var init := tags[..|tags| - 1];
      AddAllGrows(spools, init);
      assert tags == init + [tags[|tags| - 1]];
      assert TagSet(tags) == TagSet(init) + {tags[|tags| - 1]};
    }
  }

  /** Get-or-create for a series of tags keeps both table invariants. */
  lemma {:induction false} AddAllWellFormed(spools: seq<Spool>, tags: seq<string>)
    requires WellFormed(spools)
    ensures WellFormed(AddAll(spools, tags))
    decreases |tags|
  {
    if tags != [] {
      AddAllWellFormed(spools, tags[..|tags| - 1]);
      AddIfAbsentWellFormed(AddAll(spools, tags[..|tags| - 1]), tags[|tags| - 1]);
    }
  }

  /** One more tag is one more get-or-create on the table so far. */
  lemma AddAllSnoc(spools: seq<Spool>, tags: seq<string>, t: string)
    ensures AddAll(spools, tags + [t]) == AddIfAbsent(AddAll(spools, tags), t)
  {
    assert (tags + [t])[..|tags|] == tags;
  }

  /** Tags already in the table add nothing. */
  lemma {:induction false} AddAllPresent(spools: seq<Spool>, tags: seq<string>)
    requires forall t :: t in tags ==> t in Tags(spools)
    ensures AddAll(spools, tags) == spools
    decreases |tags|
  {
    if tags != [] {
      AddAllPresent(spools, tags[..|tags| - 1]);
      assert tags[|tags| - 1] in tags;
    }
  }

  datatype ImportError = HeaderNotFound

  /** The spools table after `import_excel`: a failure, with nothing added,
      when no header cell is found (`col` and `header_row` are then unbound);
      otherwise get-or-create for every tag below the header. */
  function Import(spools: seq<Spool>, ws: Sheet): (r: Result<seq<Spool>, ImportError>)
    ensures r.Failure? <==> HeaderOf(ws).None?
  {
    ImportBelow(spools, ws, HeaderOf(ws))
  }

  /** With the header found at row hr, column c, the import is get-or-create
      for the tags of rows hr+1..max_row of column c. */
  lemma ImportFromHeader(spools: seq<Spool>, ws: Sheet, hr: int, c: int)
    requires HeaderOf(ws) == Some((hr, c))
    ensures Import(spools, ws) == Success(AddAll(spools, RowTags(ws, c, hr + 1, MaxRow(ws) + 1)))
  {
  }

  /** A successful import only appends rows and keeps both table invariants. */
  lemma ImportGrows(spools: seq<Spool>, ws: Sheet)
    requires Import(spools, ws).Success?
    ensures spools <= Import(spools, ws).value
    ensures WellFormed(spools) ==> WellFormed(Import(spools, ws).value)
  {
    var (hr, c) := HeaderOf(ws).value;
    ImportFromHeader(spools, ws, hr, c);
    AddAllGrows(spools, RowTags(ws, c, hr + 1, MaxRow(ws) + 1));
    if WellFormed(spools) {
      AddAllWellFormed(spools, RowTags(ws, c, hr + 1, MaxRow(ws) + 1));
    }
  }

  /** The row loop of the import, below a header found at `header`. */
  function ImportBelow(spools: seq<Spool>, ws: Sheet, header: Option<(int, int)>): Result<seq<Spool>, ImportError>
  {
    match header
    case None => Failure(HeaderNotFound)
    case Some((hr, c)) => Success(AddAll(spools, RowTags(ws, c, hr + 1, MaxRow(ws) + 1)))
  }

  /** The spools an import adds are exactly the sheet's tags that were not
      there before: every tag below the header ends up in the table, and
      every tag the table gains comes from a cell below the header. */
  lemma ImportAddsSheetTags(spools: seq<Spool>, ws: Sheet, hr: int, c: int)
    requires HeaderOf(ws) == Some((hr, c))
    ensures Import(spools, ws).Success?
    ensures Tags(Import(spools, ws).value) == Tags(spools) + TagSet(RowTags(ws, c, hr + 1, MaxRow(ws) + 1))
    ensures forall t :: t in Tags(Import(spools, ws).value) - Tags(spools) ==>
      exists r :: hr < r <= MaxRow(ws) && CellTag(Cell(ws, r, c)) == Some(t)
    ensures forall r :: hr < r <= MaxRow(ws) && CellTag(Cell(ws, r, c)).Some? ==>
      CellTag(Cell(ws, r, c)).value in Tags(Import(spools, ws).value)
  {
    var tags := RowTags(ws, c, hr + 1, MaxRow(ws) + 1);
    ImportFromHeader(spools, ws, hr, c);
    AddAllGrows(spools, tags);
    RowTagsFromCells(ws, c, hr + 1, MaxRow(ws) + 1);
    RowTagsCoverCells(ws, c, hr + 1, MaxRow(ws) + 1);
    forall t | t in Tags(AddAll(spools, tags)) - Tags(spools)
      ensures exists r :: hr < r <= MaxRow(ws) && CellTag(Cell(ws, r, c)) == Some(t)
    {
      assert t in TagSet(tags);
    }
    forall r | hr < r <= MaxRow(ws) && CellTag(Cell(ws, r, c)).Some?
      ensures CellTag(Cell(ws, r, c)).value in Tags(AddAll(spools, tags))
    {
      assert CellTag(Cell(ws, r, c)).value in TagSet(tags);
    }
  }

  /** Importing the same sheet twice adds nothing the second time. */
  lemma ImportTwiceAddsNothing(spools: seq<Spool>, ws: Sheet)
    requires Import(spools, ws).Success?
    ensures Import(Import(spools, ws).value, ws) == Import(spools, ws)
  {
    var (hr, c) := HeaderOf(ws).value;
    var tags := RowTags(ws, c, hr + 1, MaxRow(ws) + 1);
    var s1 := AddAll(spools, tags);
    ImportFromHeader(spools, ws, hr, c);
    ImportFromHeader(s1, ws, hr, c);
    AddAllGrows(spools, tags);
    forall t | t in tags ensures t in Tags(s1) {
      assert t in TagSet(tags);
    }
    AddAllPresent(s1, tags);
  }

  /** Rows past the end of the sheet have no header cell, so scanning them
      changes nothing. */
  lemma {:induction false} ScanPastLastRow(ws: Sheet, n: nat)
    requires n >= MaxRow(ws)
    ensures HeaderIn(ws, n) == HeaderIn(ws, MaxRow(ws))
  {
    if n > MaxRow(ws) {
      assert forall c :: !IsHeaderCell(Cell(ws, n, c));
      FirstHeaderColumnSpec(ws, n, 1);
      ScanPastLastRow(ws, n - 1);
    }
  }

  /** A later matching row overrides an earlier one: with "ISOMETRICO" in row 2
      column 3 and "Isometria" in row 5 column 1, the header is row 5, column 1. */
  lemma LaterHeaderRowWins()
    ensures var ws := Sheet([[None], [None, None, Some("ISOMETRICO")], [None], [None], [Some("Isometria")]]);
      HeaderOf(ws) == Some((5, 1))
  {
    var ws := Sheet([[None], [None, None, Some("ISOMETRICO")], [None], [None], [Some("Isometria")]]);
    assert OccursAt(AsciiLower("Isometria"), HEADER_KEYWORD, 0);
    HasInfixSpec(AsciiLower("Isometria"), HEADER_KEYWORD);
    assert IsHeaderCell(Cell(ws, 5, 1));
    ScanPastLastRow(ws, HEADER_SCAN_ROWS);
  }

  /** A cell holding only blanks passes the truthiness test and strips to "",
      so the import registers a spool with the empty tag. */
  lemma BlankCellYieldsEmptyTag()
    ensures CellTag(Some("  ")) == Some("")
  {
    AllSpaceStripsToEmpty("  ");
  }
}
