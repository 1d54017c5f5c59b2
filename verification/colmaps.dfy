/**
 * The column map `{header: idx + 1 for idx, header in enumerate(headers)}`:
 * a name-to-ordinal dictionary built left to right, so a repeated header
 * name keeps the ordinal of its last occurrence.
 */
module ColumnMaps {
  import opened Cells
  import opened Headers

  /** The dictionary comprehension, one insertion per header cell in order;
      a later insertion of the same key replaces the earlier one. */
  function Build(h: seq<Cell>): (m: map<Cell, nat>)
    ensures forall x :: x in m <==> x in h
    ensures forall x :: x in m ==> IsLastIndex(h, x, m[x] as int - 1)
    ensures forall x :: x in m ==> 1 <= m[x] <= |h|
  {
    if h == [] then map[]
    else
      var init := h[..|h| - 1];
      assert h == init + [h[|h| - 1]];
      Build(init)[h[|h| - 1] := |h|]
  }

  /** The column `col_map` gives a name is that name's last position. */
  lemma OrdinalIsLast(h: seq<Cell>, x: Cell, j: int)
    requires x in Build(h) && Build(h)[x] == j + 1
    ensures IsLastIndex(h, x, j)
  {
    assert IsLastIndex(h, x, Build(h)[x] as int - 1);
  }

  /** Distinct names have distinct ordinals. */
  ghost predicate Injective(m: map<Cell, nat>)
  {
    forall a, b :: a in m && b in m && a != b ==> m[a] != m[b]
  }

  /** A column map never sends two names to one column. */
  lemma BuildInjective(h: seq<Cell>)
    ensures Injective(Build(h))
  {
    LastIndexMapInjective(h, Build(h));
  }

  /** A map sending each name to one past its last position is injective. */
  lemma LastIndexMapInjective(h: seq<Cell>, m: map<Cell, nat>)
    requires forall x :: x in m ==> IsLastIndex(h, x, m[x] as int - 1)
    ensures Injective(m)
  {
    forall a, b | a in m && b in m && a != b
      ensures m[a] != m[b]
    {
      LastIndexDistinct(h, a, b, m[a] as int - 1, m[b] as int - 1);
    }
  }

  /** Two distinct names cannot have the same last position. */
  lemma LastIndexDistinct<T>(s: seq<T>, a: T, b: T, i: int, k: int)
    requires IsLastIndex(s, a, i) && IsLastIndex(s, b, k) && a != b
    ensures i != k
  {
  }

  /** `col_map[x] - 1`: the 0-based column the script writes for name `x`. */
  function Column(h: seq<Cell>, x: Cell): (j: nat)
    requires x in h
    ensures IsLastIndex(h, x, j)
  {
    assert x in Build(h);
    Build(h)[x] - 1
  }

  /** A column's ordinal is determined by the header: there is one last
      occurrence. */
  lemma LastIndexUnique<T>(s: seq<T>, x: T, i: int, k: int)
    requires IsLastIndex(s, x, i) && IsLastIndex(s, x, k)
    ensures i == k
  {
  }

  /** Header extension leaves the `col_map` entry of every name of the
      original header where it was. */
  lemma ExtendKeepsColumn(h: seq<Cell>, targets: seq<string>, x: Cell)
    requires x in h
    ensures x in Extend(h, targets) && Column(Extend(h, targets), x) == Column(h, x)
  {
    var e := Extend(h, targets);
    ExtendKeepsFirstIndex(h, targets, x);
    ExtendKeepsLastIndex(h, targets, x, Column(e, x));
    LastIndexUnique(h, x, Column(e, x), Column(h, x));
  }
}
