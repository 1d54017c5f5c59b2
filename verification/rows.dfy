/**
 * The inner fill loop of both scripts: for each target column, look up its
 * ordinal in the column map and overwrite the row's cell there, unless the
 * ordinal is at most the skip bound.
 */
module Rows {
  import opened Cells
  import opened ColumnMaps

  /** What a target column is filled with: a per-column default, with `""`
      for a column that has none (`DEFAULT_VALUES.get(col, "")`), or one
      constant for every column. */
  datatype FillMode = Defaults(values: map<string, string>) | Constant(value: string)

  function FillValue(mode: FillMode, col: string): string
  {
    match mode
    case Defaults(values) => if col in values then values[col] else ""
    case Constant(v) => v
  }

  /** The fill loop over `targets` writes 0-based column `j`. */
  ghost predicate Written(cm: map<Cell, nat>, targets: seq<string>, skip: nat, j: int)
  {
    exists t :: t in targets && Str(t) in cm && cm[Str(t)] == j + 1 && j + 1 > skip
  }

  /** Every target has a column map entry that is an ordinal of the row. */
  ghost predicate Fits(cm: map<Cell, nat>, targets: seq<string>, width: nat)
  {
    forall t :: t in targets ==> Str(t) in cm && 1 <= cm[Str(t)] <= width
  }

  /** The fill loop, one target at a time: `col_map[col]` is the cell's
      ordinal, ordinals up to `skip` are passed over, every other target cell
      is overwritten regardless of what it held. */
  function FillRow(row: seq<Cell>, cm: map<Cell, nat>, targets: seq<string>, mode: FillMode, skip: nat): (r: seq<Cell>)
    requires Fits(cm, targets, |row|)
    ensures |r| == |row|
    // naming `row` here keeps the verifier from evaluating the loop eagerly
    // over a literal target list
    decreases |targets|, |row|
  {
    if targets == [] then row
    else
      var t := targets[0];
      var ordinal := cm[Str(t)];
      var row' := if ordinal <= skip then row else row[ordinal - 1 := Str(FillValue(mode, t))];
      FillRow(row', cm, targets[1..], mode, skip)
  }

  /** A column the loop does not write keeps its value. */
  lemma {:induction false} FillRowKeeps(row: seq<Cell>, cm: map<Cell, nat>, targets: seq<string>, mode: FillMode, skip: nat, j: int)
    requires Fits(cm, targets, |row|)
    requires 0 <= j < |row| && !Written(cm, targets, skip, j)
    ensures FillRow(row, cm, targets, mode, skip)[j] == row[j]
    decreases |targets|
  {
    if targets != [] {
      var t := targets[0];
      var ordinal := cm[Str(t)];
      var row' := if ordinal <= skip then row else row[ordinal - 1 := Str(FillValue(mode, t))];
      assert row'[j] == row[j];
      assert !Written(cm, targets[1..], skip, j) by {
        forall u | u in targets[1..] ensures u in targets { }
      }
      FillRowKeeps(row', cm, targets[1..], mode, skip, j);
    }
  }

  /** Every target column above the skip bound ends up holding its fill
      value, whatever it held before. The column map is the one built from
      the header, so it never sends two names to one column. */
  lemma {:induction false} FillRowWrites(row: seq<Cell>, cm: map<Cell, nat>, targets: seq<string>, mode: FillMode, skip: nat, t: string)
    requires Fits(cm, targets, |row|) && Injective(cm)
    requires t in targets && cm[Str(t)] > skip
    ensures FillRow(row, cm, targets, mode, skip)[cm[Str(t)] - 1] == Str(FillValue(mode, t))
    decreases |targets|
  {
    var u := targets[0];
    var ordinal := cm[Str(u)];
    var row' := if ordinal <= skip then row else row[ordinal - 1 := Str(FillValue(mode, u))];
    var rest := targets[1..];
    assert Fits(cm, rest, |row'|) by {
      forall v | v in rest ensures v in targets { }
    }
    if t in rest {
      FillRowWrites(row', cm, rest, mode, skip, t);
    } else {
      assert t == u;
      assert !Written(cm, rest, skip, cm[Str(t)] - 1) by {
        forall v | v in rest && Str(v) in cm && cm[Str(v)] == cm[Str(t)]
          ensures false
        {
        }
      }
      FillRowKeeps(row', cm, rest, mode, skip, cm[Str(t)] - 1);
    }
  }

  /** Filling an already filled row changes nothing. */
  lemma FillRowIdempotent(row: seq<Cell>, cm: map<Cell, nat>, targets: seq<string>, mode: FillMode, skip: nat)
    requires Fits(cm, targets, |row|) && Injective(cm)
    ensures FillRow(FillRow(row, cm, targets, mode, skip), cm, targets, mode, skip)
         == FillRow(row, cm, targets, mode, skip)
  {
    var once := FillRow(row, cm, targets, mode, skip);
    var twice := FillRow(once, cm, targets, mode, skip);
    forall j | 0 <= j < |row|
      ensures twice[j] == once[j]
    {
      if Written(cm, targets, skip, j) {
        var t :| t in targets && Str(t) in cm && cm[Str(t)] == j + 1 && j + 1 > skip;
        FillRowWrites(row, cm, targets, mode, skip, t);
        FillRowWrites(once, cm, targets, mode, skip, t);
      } else {
        FillRowKeeps(once, cm, targets, mode, skip, j);
      }
    }
  }
}
