/**
 * The sheet normaliser shared by both scripts: validate that an identifier
 * column exists in the header as read, extend the header with the missing
 * target columns, then fill the target cells of every data row that has a
 * truthy identifier. The two scripts are two `Config` values.
 */
module Normalizer {
  import opened Cells
  import opened Headers
  import opened ColumnMaps
  import opened Rows

  /** The active worksheet as stored: the cells of row 1 (the header) and of
      rows 2 to `max_row`, each up to its last stored cell. Rows may have
      different lengths; what a script reads is widened to the sheet's
      `max_column` (`HeaderRead`, `Pad`). */
  datatype Sheet = Sheet(header: seq<Cell>, rows: seq<seq<Cell>>)

  /** The length of the longest data row, 0 when there is none. */
  function Width(rows: seq<seq<Cell>>): (w: nat)
    ensures forall i :: 0 <= i < |rows| ==> |rows[i]| <= w
    ensures |rows| == 0 ==> w == 0
    ensures |rows| > 0 ==> exists i :: 0 <= i < |rows| && w == |rows[i]|
  {
    if |rows| == 0 then 0
    else
      var w := Width(rows[1..]);
      assert forall i :: 1 <= i < |rows| ==> rows[i] == rows[1..][i - 1];
      if |rows[0]| < w then w else |rows[0]|
  }

  /** The header as `ws[1]` reads it: row 1 spans the sheet's `max_column`,
      so the stored header cells are followed by empty cells up to the
      longest data row. The header read is as wide as the sheet: as wide as
      the stored header or as some data row, and no data row is wider. */
  function HeaderRead(s: Sheet): (h: seq<Cell>)
    ensures |s.header| <= |h| && h[..|s.header|] == s.header
    ensures forall j :: |s.header| <= j < |h| ==> h[j] == Blank
    ensures forall i :: 0 <= i < |s.rows| ==> |s.rows[i]| <= |h|
    ensures |h| == |s.header| || exists i :: 0 <= i < |s.rows| && |h| == |s.rows[i]|
    ensures forall x :: x != Blank ==> (x in h <==> x in s.header)
  {
    var h := Pad(s.header, Width(s.rows));
    assert forall j :: 0 <= j < |s.header| ==> h[..|s.header|][j] == s.header[j];
    h
  }

  /** The one validation failure: no identifier column in the header. */
  datatype Error = MissingIdentifierColumn

  datatype Result<T> = Ok(value: T) | Err(error: Error)

  datatype Option<T> = None | Some(value: T)

  /** How a script finds the column of an identifier name. */
  datatype Lookup =
    | FirstInOriginal  // `headers.index(id) + 1`, taken before the header grows
    | LastInExtended   // `col_map.get(id)`, taken after the header grew

  /** One parameterisation of the transform: identifier names and how they
      are looked up, the target columns in order, the fill policy, and the
      number of leading ordinals the fill passes over. */
  datatype Config = Config(ids: seq<string>, lookup: Lookup, targets: seq<string>, fill: FillMode, skip: nat)

  /** The header after the extension loop. */
  function Extended(cfg: Config, header: seq<Cell>): seq<Cell>
  {
    Extend(header, cfg.targets)
  }

  /** The 0-based column a script reads identifier `id` from, if any. */
  function IdColumn(cfg: Config, header: seq<Cell>, id: string): (p: Option<nat>)
    ensures p.Some? ==> p.value < |Extended(cfg, header)| && Extended(cfg, header)[p.value] == Str(id)
    ensures cfg.lookup.FirstInOriginal? ==>
      (p.None? <==> Str(id) !in header) &&
      (p.Some? ==> p.value < |header| && forall j :: 0 <= j < p.value ==> header[j] != Str(id))
    ensures cfg.lookup.LastInExtended? ==>
      (p.None? <==> Str(id) !in Extended(cfg, header)) &&
      (p.Some? ==> IsLastIndex(Extended(cfg, header), Str(id), p.value))
  {
    match cfg.lookup
    case FirstInOriginal =>
      if Str(id) in header then
        var k := FirstIndex(header, Str(id));
        assert Extended(cfg, header)[..|header|][k] == Str(id);
        Some(k)
      else None
    case LastInExtended =>
      var e := Extended(cfg, header);
      if Str(id) in e then Some(Column(e, Str(id))) else None
  }

  /** Identifier presence in a data row: some identifier column holds a
      truthy value (`if mpn_val:`, `has_sku or has_mpn`). */
  predicate Present(cfg: Config, header: seq<Cell>, row: seq<Cell>)
    ensures Present(cfg, header, row) ==> |cfg.ids| > 0 && |Extended(cfg, header)| > 0
  {
    exists k :: 0 <= k < |cfg.ids| && TruthyIn(cfg, header, row, cfg.ids[k])
  }

  /** The column the script reads identifier `id` from exists and holds a
      truthy value in `row`. */
  predicate TruthyIn(cfg: Config, header: seq<Cell>, row: seq<Cell>, id: string)
    ensures TruthyIn(cfg, header, row, id) ==> Str(id) in Extended(cfg, header)
    ensures cfg.lookup.FirstInOriginal? && TruthyIn(cfg, header, row, id) ==> Str(id) in header
  {
    IdColumn(cfg, header, id).Some? && Truthy(CellAt(row, IdColumn(cfg, header, id).value))
  }

  /** The column map of the extended header holds every target inside the
      header's width and never sends two names to one column. */
  lemma ExtendedFits(cfg: Config, header: seq<Cell>)
    ensures Fits(Build(Extended(cfg, header)), cfg.targets, |Extended(cfg, header)|)
    ensures Injective(Build(Extended(cfg, header)))
  {
    var e := Extended(cfg, header);
    ExtendHasTargets(header, cfg.targets);
    BuildInjective(e);
  }

  /** One data row of the row pass: the row widened to the extended header,
      then filled when its identifier is present and left alone otherwise. */
  function ProcessRow(cfg: Config, header: seq<Cell>, row: seq<Cell>): (r: seq<Cell>)
    ensures |r| == if |row| < |Extended(cfg, header)| then |Extended(cfg, header)| else |row|
  {
    var e := Extended(cfg, header);
    var p := Pad(row, |e|);
    if Present(cfg, header, row) then
      ExtendedFits(cfg, header);
      FillRow(p, Build(e), cfg.targets, cfg.fill, cfg.skip)
    else p
  }

  /** The whole transform: an error when no identifier column is present in
      the header as read, otherwise the extended header and every data row
      processed in order. */
  function Normalize(cfg: Config, s: Sheet): (r: Result<Sheet>)
    ensures r.Err? <==> forall k :: 0 <= k < |cfg.ids| ==> Str(cfg.ids[k]) !in s.header
    ensures r.Ok? ==> |HeaderRead(s)| <= |r.value.header| && r.value.header[..|HeaderRead(s)|] == HeaderRead(s)
    ensures r.Ok? ==> |r.value.rows| == |s.rows|
    ensures r.Ok? ==> forall i :: 0 <= i < |r.value.rows| ==> |r.value.rows[i]| == |r.value.header|
  {
    var h := HeaderRead(s);
    if !exists k :: 0 <= k < |cfg.ids| && Str(cfg.ids[k]) in h then
      Err(MissingIdentifierColumn)
    else
      Ok(Sheet(Extended(cfg, h),
               seq(|s.rows|, i requires 0 <= i < |s.rows| => ProcessRow(cfg, h, s.rows[i]))))
  }

  /** The header of a normalised sheet: the header as read, then exactly the
      targets it lacked, once each, in target-list order; every target names
      a column. */
  lemma NormalizeHeader(cfg: Config, s: Sheet)
    requires Normalize(cfg, s).Ok?
    ensures var h0 := HeaderRead(s); var h := Normalize(cfg, s).value.header;
      && |h0| <= |h| && h[..|h0|] == h0
      && (forall t :: t in cfg.targets ==> Str(t) in h)
      && (forall i :: |h0| <= i < |h| ==> h[i].Str? && h[i].s in cfg.targets && h[i] !in h0)
      && (forall t :: t in cfg.targets && Str(t) !in h0 ==> Str(t) in h[|h0|..])
      && (forall i, j :: |h0| <= i < j < |h| ==> h[i] != h[j])
      && (forall i, j :: |h0| <= i < j < |h| ==>
            FirstIndex(cfg.targets, h[i].s) < FirstIndex(cfg.targets, h[j].s))
  {
    var h0 := HeaderRead(s);
    assert Normalize(cfg, s).value.header == Extend(h0, cfg.targets);
    ExtendHasTargets(h0, cfg.targets);
    ExtendAppendsOnlyMissing(h0, cfg.targets);
    ExtendAppendsEveryMissing(h0, cfg.targets);
    ExtendAppendsOnce(h0, cfg.targets);
    ExtendAppendsInTargetOrder(h0, cfg.targets);
  }

  /** Column `j` of the extended header `h` is one the fill loop writes: its
      header names a target, `col_map` points at it (it is that name's last
      column), and its ordinal is above the skip bound. */
  ghost predicate FilledColumn(cfg: Config, h: seq<Cell>, j: int)
  {
    0 <= j < |h| && j >= cfg.skip && h[j].Str? && h[j].s in cfg.targets && IsLastIndex(h, h[j], j)
  }

  /** The fill loop writes only filled columns. */
  lemma WrittenIsFilled(cfg: Config, h: seq<Cell>, j: int)
    requires 0 <= j < |h| && Written(Build(h), cfg.targets, cfg.skip, j)
    ensures FilledColumn(cfg, h, j)
  {
    var cm := Build(h);
    var t :| t in cfg.targets && Str(t) in cm && cm[Str(t)] == j + 1 && j + 1 > cfg.skip;
    OrdinalIsLast(h, Str(t), j);
  }

  /** A filled column of a row with a truthy identifier holds its target's
      fill value after the pass. */
  lemma ProcessRowFills(cfg: Config, header: seq<Cell>, row: seq<Cell>, j: int)
    requires Present(cfg, header, row) && FilledColumn(cfg, Extended(cfg, header), j)
    ensures var e := Extended(cfg, header);
      j < |ProcessRow(cfg, header, row)| &&
      ProcessRow(cfg, header, row)[j] == Str(FillValue(cfg.fill, e[j].s))
  {
    var e := Extended(cfg, header);
    var cm := Build(e);
    var t := e[j].s;
    ExtendedFits(cfg, header);
    FilledColumnOrdinal(cfg, e, j);
    FillRowWrites(Pad(row, |e|), cm, cfg.targets, cfg.fill, cfg.skip, t);
    assert ProcessRow(cfg, header, row) == FillRow(Pad(row, |e|), cm, cfg.targets, cfg.fill, cfg.skip);
  }

  /** `col_map` sends the name of a filled column to that column. */
  lemma FilledColumnOrdinal(cfg: Config, h: seq<Cell>, j: int)
    requires FilledColumn(cfg, h, j)
    ensures h[j] in Build(h) && Build(h)[h[j]] == j + 1
  {
    var cm := Build(h);
    assert IsLastIndex(h, h[j], cm[h[j]] - 1);
    LastIndexUnique(h, h[j], cm[h[j]] - 1, j);
  }

  /** Every other cell of a processed row keeps the value it held (empty
      past the row's stored cells). */
  lemma ProcessRowKeeps(cfg: Config, header: seq<Cell>, row: seq<Cell>, j: int)
    requires 0 <= j < |ProcessRow(cfg, header, row)|
    requires !(Present(cfg, header, row) && FilledColumn(cfg, Extended(cfg, header), j))
    ensures ProcessRow(cfg, header, row)[j] == CellAt(row, j)
  {
    var e := Extended(cfg, header);
    if Present(cfg, header, row) {
      ExtendedFits(cfg, header);
      if j < |e| && Written(Build(e), cfg.targets, cfg.skip, j) {
        WrittenIsFilled(cfg, e, j);
      }
      FillRowKeeps(Pad(row, |e|), Build(e), cfg.targets, cfg.fill, cfg.skip, j);
    }
  }

  /** One cell of a processed data row: the fill value where the row has a
      truthy identifier and the column is filled, the value it held before
      (empty past the row's stored cells) everywhere else. */
  lemma ProcessRowCell(cfg: Config, header: seq<Cell>, row: seq<Cell>, j: int)
    requires 0 <= j < |ProcessRow(cfg, header, row)|
    ensures var e := Extended(cfg, header);
      ProcessRow(cfg, header, row)[j] ==
        if Present(cfg, header, row) && FilledColumn(cfg, e, j)
        then Str(FillValue(cfg.fill, e[j].s)) else CellAt(row, j)
  {
    if Present(cfg, header, row) && FilledColumn(cfg, Extended(cfg, header), j) {
      ProcessRowFills(cfg, header, row, j);
    } else {
      ProcessRowKeeps(cfg, header, row, j);
    }
  }

  /** Every cell of a processed data row, as `ProcessRowCell` states it. */
  lemma ProcessRowCells(cfg: Config, header: seq<Cell>, row: seq<Cell>)
    ensures var e := Extended(cfg, header); var r := ProcessRow(cfg, header, row);
      forall j :: 0 <= j < |r| ==>
        r[j] == if Present(cfg, header, row) && FilledColumn(cfg, e, j)
                then Str(FillValue(cfg.fill, e[j].s)) else CellAt(row, j)
  {
    forall j | 0 <= j < |ProcessRow(cfg, header, row)|
      ensures ProcessRow(cfg, header, row)[j] ==
        if Present(cfg, header, row) && FilledColumn(cfg, Extended(cfg, header), j)
        then Str(FillValue(cfg.fill, Extended(cfg, header)[j].s)) else CellAt(row, j)
    {
      ProcessRowCell(cfg, header, row, j);
    }
  }

  /** The same, stated of the normalised sheet. */
  lemma NormalizeRowCells(cfg: Config, s: Sheet, i: int)
    requires Normalize(cfg, s).Ok? && 0 <= i < |s.rows|
    ensures var out := Normalize(cfg, s).value; var row := s.rows[i];
      && |out.rows[i]| == |out.header|
      && forall j :: 0 <= j < |out.rows[i]| ==>
           out.rows[i][j] == if Present(cfg, HeaderRead(s), row) && FilledColumn(cfg, out.header, j)
                             then Str(FillValue(cfg.fill, out.header[j].s)) else CellAt(row, j)
  {
    var h0 := HeaderRead(s);
    var out := Normalize(cfg, s).value;
    assert out.header == Extended(cfg, h0);
    assert out.rows[i] == ProcessRow(cfg, h0, s.rows[i]);
    ProcessRowCells(cfg, h0, s.rows[i]);
  }

  /** A data row without a truthy identifier is left as it was (widened with
      empty cells to the new header width). */
  lemma UntouchedRow(cfg: Config, s: Sheet, i: int)
    requires Normalize(cfg, s).Ok? && 0 <= i < |s.rows|
    requires !Present(cfg, HeaderRead(s), s.rows[i])
    ensures var out := Normalize(cfg, s).value;
      out.rows[i] == Pad(s.rows[i], |out.header|)
  {
    NormalizeRowCells(cfg, s, i);
  }

  /** In a data row with a truthy identifier, the cell at `col_map[col]` of
      every target `col` above the skip bound holds the fill value, whatever
      it held before. */
  lemma FilledRowTargets(cfg: Config, s: Sheet, i: int)
    requires Normalize(cfg, s).Ok? && 0 <= i < |s.rows|
    requires Present(cfg, HeaderRead(s), s.rows[i])
    ensures var out := Normalize(cfg, s).value;
      forall t :: t in cfg.targets ==>
        (Str(t) in out.header &&
         (Column(out.header, Str(t)) >= cfg.skip ==>
            Column(out.header, Str(t)) < |out.rows[i]| &&
            out.rows[i][Column(out.header, Str(t))] == Str(FillValue(cfg.fill, t))))
  {
    var out := Normalize(cfg, s).value;
    assert out.header == Extend(HeaderRead(s), cfg.targets);
    ExtendHasTargets(HeaderRead(s), cfg.targets);
    NormalizeRowCells(cfg, s, i);
    forall t | t in cfg.targets && Column(out.header, Str(t)) >= cfg.skip
      ensures FilledColumn(cfg, out.header, Column(out.header, Str(t)))
    {
    }
  }

  /** In every data row, a column whose header names no target, or whose
      ordinal is at most the skip bound, or that is shadowed by a later column
      of the same name, keeps its value. */
  lemma KeptColumns(cfg: Config, s: Sheet, i: int, j: int)
    requires Normalize(cfg, s).Ok? && 0 <= i < |s.rows|
    requires 0 <= j < |Normalize(cfg, s).value.rows[i]|
    requires var h := Normalize(cfg, s).value.header;
      || j < cfg.skip
      || (forall t :: t in cfg.targets ==> h[j] != Str(t))
      || (exists k :: j < k < |h| && h[k] == h[j])
    ensures Normalize(cfg, s).value.rows[i][j] == CellAt(s.rows[i], j)
  {
    NormalizeRowCells(cfg, s, i);
  }

  /** A data row longer than the stored header keeps its cells past that
      header: `ws[1]` reads those columns as empty, so no target is found
      there and the appended targets come after them. */
  lemma KeepsBeyondStoredHeader(cfg: Config, s: Sheet, i: int, j: int)
    requires Normalize(cfg, s).Ok? && 0 <= i < |s.rows|
    requires |s.header| <= j < |s.rows[i]|
    ensures j < |Normalize(cfg, s).value.rows[i]| && Normalize(cfg, s).value.rows[i][j] == s.rows[i][j]
  {
    var h0 := HeaderRead(s);
    var out := Normalize(cfg, s).value;
    assert out.header[..|h0|][j] == Blank;
    KeptColumns(cfg, s, i, j);
  }

  /** With `col_map` lookup, an identifier that is not a target is read
      from its last column in the header as read: extension does not move
      it. */
  lemma IdColumnIsLastOriginal(cfg: Config, header: seq<Cell>, id: string)
    requires cfg.lookup.LastInExtended? && id !in cfg.targets
    ensures IdColumn(cfg, header, id) == if Str(id) in header then Some(Column(header, Str(id))) else None
  {
    if Str(id) in header {
      ExtendKeepsColumn(header, cfg.targets, Str(id));
    } else {
      ExtendAppendsOnlyMissing(header, cfg.targets);
      var e := Extended(cfg, header);
      assert forall k :: 0 <= k < |e| ==> e[k] != Str(id) by {
        forall k | 0 <= k < |e| ensures e[k] != Str(id) {
          if k < |header| {
            assert e[k] == e[..|header|][k];
          } else {
            assert e == Extend(header, cfg.targets);
            assert e[k].s in cfg.targets;
          }
        }
      }
    }
  }

  /** With two identifier names, a row is identified exactly when either
      one's column holds a truthy value (`has_sku or has_mpn`). */
  lemma PresentOfTwo(cfg: Config, header: seq<Cell>, row: seq<Cell>)
    requires |cfg.ids| == 2
    ensures Present(cfg, header, row) <==>
      TruthyIn(cfg, header, row, cfg.ids[0]) || TruthyIn(cfg, header, row, cfg.ids[1])
  {
  }

  /** With `headers.index` lookup of a single identifier, a row is identified
      exactly when the first column of that identifier in the header as read
      holds a truthy value. */
  lemma IdentifiedByFirstColumn(cfg: Config, header: seq<Cell>, row: seq<Cell>)
    requires cfg.lookup.FirstInOriginal? && |cfg.ids| == 1
    ensures Present(cfg, header, row) <==>
      Str(cfg.ids[0]) in header && Truthy(CellAt(row, FirstIndex(header, Str(cfg.ids[0]))))
  {
    if Str(cfg.ids[0]) in header {
      assert TruthyIn(cfg, header, row, cfg.ids[0]) ==> Present(cfg, header, row);
    }
  }

  /** A row without a truthy identifier still has none after the pass: the
      identifier columns of the extended header are those of the original one
      or new, empty columns. */
  lemma AbsentStaysAbsent(cfg: Config, header: seq<Cell>, row: seq<Cell>)
    requires |row| <= |header|
    requires !Present(cfg, header, row)
    ensures !Present(cfg, Extended(cfg, header), Pad(row, |Extended(cfg, header)|))
  {
    var e := Extended(cfg, header);
    var p := Pad(row, |e|);
    ExtendIdempotent(header, cfg.targets);
    forall n | 0 <= n < |cfg.ids| && IdColumn(cfg, e, cfg.ids[n]).Some?
      ensures !Truthy(CellAt(p, IdColumn(cfg, e, cfg.ids[n]).value))
    {
      var id := cfg.ids[n];
      assert !TruthyIn(cfg, header, row, id);
      var k := IdColumn(cfg, e, id).value;
      match cfg.lookup {
        case FirstInOriginal =>
          if Str(id) in header {
            ExtendKeepsFirstIndex(header, cfg.targets, Str(id));
            assert IdColumn(cfg, header, id) == Some(k);
          } else {
            assert k >= |header|;
          }
        case LastInExtended =>
          assert IdColumn(cfg, header, id) == Some(k);
      }
    }
  }

  /** Processing a processed row again, against the extended header, leaves
      each of its cells as it is: a filled cell is refilled with the same
      value, and a row without a truthy identifier still has none. */
  lemma ProcessRowTwiceCell(cfg: Config, header: seq<Cell>, row: seq<Cell>, j: int)
    requires |row| <= |header|
    requires 0 <= j < |ProcessRow(cfg, header, row)|
    ensures var once := ProcessRow(cfg, header, row);
      ProcessRow(cfg, Extended(cfg, header), once)[j] == once[j]
  {
    var e := Extended(cfg, header);
    var once := ProcessRow(cfg, header, row);
    ExtendIdempotent(header, cfg.targets);
    assert Extended(cfg, e) == e;
    ProcessRowCell(cfg, header, row, j);
    ProcessRowCell(cfg, e, once, j);
    if !Present(cfg, header, row) {
      AbsentStaysAbsent(cfg, header, row);
    }
  }

  /** A processed row is a fixed point of the row pass against the extended
      header. */
  lemma ProcessRowIdempotent(cfg: Config, header: seq<Cell>, row: seq<Cell>)
    requires |row| <= |header|
    ensures var once := ProcessRow(cfg, header, row);
      ProcessRow(cfg, Extended(cfg, header), once) == once
  {
    var once := ProcessRow(cfg, header, row);
    var again := ProcessRow(cfg, Extended(cfg, header), once);
    ExtendIdempotent(header, cfg.targets);
    assert |again| == |once|;
    forall j | 0 <= j < |once|
      ensures again[j] == once[j]
    {
      ProcessRowTwiceCell(cfg, header, row, j);
    }
  }

  /** A data row of a normalised sheet is a fixed point of the row pass. */
  lemma RowIdempotent(cfg: Config, s: Sheet, i: int)
    requires Normalize(cfg, s).Ok? && 0 <= i < |s.rows|
    ensures var out := Normalize(cfg, s).value;
      ProcessRow(cfg, out.header, out.rows[i]) == out.rows[i]
  {
    var h0 := HeaderRead(s);
    var out := Normalize(cfg, s).value;
    assert out.rows[i] == ProcessRow(cfg, h0, s.rows[i]);
    assert out.header == Extended(cfg, h0);
    ProcessRowIdempotent(cfg, h0, s.rows[i]);
  }

  /** The header of a normalised sheet reads back as it is: every data row
      of it is exactly as wide as its header. */
  lemma NormalizedHeaderRead(cfg: Config, s: Sheet)
    requires Normalize(cfg, s).Ok?
    ensures HeaderRead(Normalize(cfg, s).value) == Normalize(cfg, s).value.header
  {
    var out := Normalize(cfg, s).value;
    var h := HeaderRead(out);
    assert |h| == |out.header|;
    assert h == h[..|out.header|];
  }

  /** Normalising a normalised sheet changes nothing: no column is appended
      twice and the same cells are filled with the same values. */
  lemma NormalizeIdempotent(cfg: Config, s: Sheet)
    requires Normalize(cfg, s).Ok?
    ensures Normalize(cfg, Normalize(cfg, s).value) == Normalize(cfg, s)
  {
    var h0 := HeaderRead(s);
    var out := Normalize(cfg, s).value;
    NormalizedHeaderRead(cfg, s);
    assert out.header == Extended(cfg, h0);
    ExtendIdempotent(h0, cfg.targets);
    PrefixKeepsMembers(h0, out.header);
    var again := Normalize(cfg, out);
    assert again.Ok?;
    forall i | 0 <= i < |s.rows|
      ensures again.value.rows[i] == out.rows[i]
    {
      RowIdempotent(cfg, s, i);
    }
    assert again.value.rows == out.rows;
  }
}
