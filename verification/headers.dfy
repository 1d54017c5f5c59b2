/**
 * The header row as a Python list of cell values: membership (`in`),
 * `list.index`, the last position of a name, and the extension loop that
 * appends every missing target column.
 */
module Headers {
  import opened Cells

  /** Python's `s.index(x)`: the 0-based position of the first occurrence. */
  function FirstIndex<T(==)>(s: seq<T>, x: T): (i: nat)
    requires x in s
    ensures i < |s| && s[i] == x
    ensures forall j :: 0 <= j < i ==> s[j] != x
  {
    if s[0] == x then 0 else 1 + FirstIndex(s[1..], x)
  }

  /** `i` is the last position at which `x` occurs in `s`. */
  ghost predicate IsLastIndex<T>(s: seq<T>, x: T, i: int)
  {
    0 <= i < |s| && s[i] == x && forall j :: i < j < |s| ==> s[j] != x
  }

  /** The header-extension loop: for each target name in order, append it to
      the growing header unless an equal cell is already there. The header
      as read stays a prefix: extension only appends. */
  function Extend(h: seq<Cell>, targets: seq<string>): (e: seq<Cell>)
    ensures |h| <= |e| && e[..|h|] == h
    // naming `h` here keeps the verifier from evaluating the loop eagerly
    // over a literal target list
    decreases |targets|, |h|
  {
    if targets == [] then h
    else
      var grown := if Str(targets[0]) in h then h else h + [Str(targets[0])];
      Extend(grown, targets[1..])
  }

  /** Every element of a prefix is an element of the whole sequence. */
  lemma PrefixKeepsMembers<T>(p: seq<T>, s: seq<T>)
    requires |p| <= |s| && s[..|p|] == p
    ensures forall x :: x in p ==> x in s
  {
    forall x | x in p
      ensures x in s
    {
      var k :| 0 <= k < |p| && p[k] == x;
      assert s[..|p|][k] == x;
    }
  }

  /** After extension every target names a column of the header. */
  lemma {:induction false} ExtendHasTargets(h: seq<Cell>, targets: seq<string>)
    ensures forall t :: t in targets ==> Str(t) in Extend(h, targets)
    decreases |targets|
  {
    if targets != [] {
      var grown := if Str(targets[0]) in h then h else h + [Str(targets[0])];
      ExtendHasTargets(grown, targets[1..]);
      PrefixKeepsMembers(grown, Extend(grown, targets[1..]));
      assert Str(targets[0]) in grown;
    }
  }

  /** Every appended column is named by a target that was missing from the
      header as read. */
  lemma {:induction false} ExtendAppendsOnlyMissing(h: seq<Cell>, targets: seq<string>)
    ensures var e := Extend(h, targets);
      forall i :: |h| <= i < |e| ==> e[i].Str? && e[i].s in targets && e[i] !in h
    decreases |targets|
  {
    if targets != [] {
      var grown := if Str(targets[0]) in h then h else h + [Str(targets[0])];
      ExtendAppendsOnlyMissing(grown, targets[1..]);
      var e := Extend(h, targets);
      assert e == Extend(grown, targets[1..]);
      forall i | |h| <= i < |e|
        ensures e[i].Str? && e[i].s in targets && e[i] !in h
      {
        if i < |grown| {
          assert e[i] == e[..|grown|][i] == grown[i] == Str(targets[0]);
        } else {
          assert e[i].s in targets[1..];
          assert e[i] !in grown;
        }
      }
    }
  }

  /** The appended columns are pairwise distinct: no target is added twice,
      even when the target list repeats a name. */
  lemma {:induction false} ExtendAppendsOnce(h: seq<Cell>, targets: seq<string>)
    ensures var e := Extend(h, targets);
      forall i, j :: |h| <= i < j < |e| ==> e[i] != e[j]
    decreases |targets|
  {
    if targets != [] {
      var t := targets[0];
      var grown := if Str(t) in h then h else h + [Str(t)];
      ExtendAppendsOnce(grown, targets[1..]);
      ExtendAppendsOnlyMissing(grown, targets[1..]);
      var e := Extend(h, targets);
      assert e == Extend(grown, targets[1..]);
      forall i, j | |h| <= i < j < |e|
        ensures e[i] != e[j]
      {
        if i < |grown| {
          assert e[i] == grown[i];
          assert grown[i] in grown;
        }
      }
    }
  }

  /** Every target missing from the original header is appended. */
  lemma ExtendAppendsEveryMissing(h: seq<Cell>, targets: seq<string>)
    ensures var e := Extend(h, targets);
      forall t :: t in targets && Str(t) !in h ==> Str(t) in e[|h|..]
  {
    var e := Extend(h, targets);
    ExtendHasTargets(h, targets);
    forall t | t in targets && Str(t) !in h
      ensures Str(t) in e[|h|..]
    {
      var k :| 0 <= k < |e| && e[k] == Str(t);
      assert k >= |h|;
      assert e[|h|..][k - |h|] == Str(t);
    }
  }

  /** A name that is not the first element of `s` sits one further along in
      `s` than in its tail. */
  lemma FirstIndexTail<T>(s: seq<T>, x: T)
    requires x in s && s[0] != x
    ensures x in s[1..] && FirstIndex(s, x) == 1 + FirstIndex(s[1..], x)
  {
    var k :| 0 <= k < |s| && s[k] == x;
    assert s[1..][k - 1] == x;
  }

  /** Two appended columns `i < j` follow the order of their first mention
      in the target list. */
  lemma {:induction false} ExtendOrdersPair(h: seq<Cell>, targets: seq<string>, i: int, j: int)
    requires |h| <= i < j < |Extend(h, targets)|
    ensures var e := Extend(h, targets);
      e[i].Str? && e[j].Str? && e[i].s in targets && e[j].s in targets &&
      FirstIndex(targets, e[i].s) < FirstIndex(targets, e[j].s)
    decreases |targets|
  {
    ExtendAppendsOnlyMissing(h, targets);
    var t := targets[0];
    var rest := targets[1..];
    var grown := if Str(t) in h then h else h + [Str(t)];
    var e := Extend(h, targets);
    assert e == Extend(grown, rest);
    ExtendAppendsOnlyMissing(grown, rest);
    assert Str(t) in grown;
    assert e[j] != Str(t);
    FirstIndexTail(targets, e[j].s);
    if i < |grown| {
      assert e[i] == e[..|grown|][i] == grown[i] == Str(t);
    } else {
      assert e[i] != Str(t);
      FirstIndexTail(targets, e[i].s);
      ExtendOrdersPair(grown, rest, i, j);
    }
  }

  /** Appended columns are named by targets and follow the order of their
      first mention in the target list. */
  lemma ExtendAppendsInTargetOrder(h: seq<Cell>, targets: seq<string>)
    ensures var e := Extend(h, targets);
      forall i :: |h| <= i < |e| ==> e[i].Str? && e[i].s in targets
    ensures var e := Extend(h, targets);
      forall i, j :: |h| <= i < j < |e| ==> FirstIndex(targets, e[i].s) < FirstIndex(targets, e[j].s)
  {
    ExtendAppendsOnlyMissing(h, targets);
    var e := Extend(h, targets);
    forall i, j | |h| <= i < j < |e|
      ensures FirstIndex(targets, e[i].s) < FirstIndex(targets, e[j].s)
    {
      ExtendOrdersPair(h, targets, i, j);
    }
  }

  /** A header that already holds every target is left as it is. */
  lemma {:induction false} ExtendKeepsComplete(h: seq<Cell>, targets: seq<string>)
    requires forall t :: t in targets ==> Str(t) in h
    ensures Extend(h, targets) == h
    decreases |targets|
  {
    if targets != [] {
      assert targets[0] in targets;
      ExtendKeepsComplete(h, targets[1..]);
    }
  }

  /** Header extension is idempotent: extending an extended header appends
      nothing. */
  lemma ExtendIdempotent(h: seq<Cell>, targets: seq<string>)
    ensures Extend(Extend(h, targets), targets) == Extend(h, targets)
  {
    ExtendHasTargets(h, targets);
    ExtendKeepsComplete(Extend(h, targets), targets);
  }

  /** Extension never moves the first occurrence of a name of the original
      header (`headers.index` gives the same answer before and after). */
  lemma ExtendKeepsFirstIndex(h: seq<Cell>, targets: seq<string>, x: Cell)
    requires x in h
    ensures var e := Extend(h, targets);
      x in e && FirstIndex(e, x) == FirstIndex(h, x)
  {
    var e := Extend(h, targets);
    var i := FirstIndex(h, x);
    assert e[..|h|][i] == x;
    var k := FirstIndex(e, x);
    assert k >= i;
  }

  /** Extension never moves the last occurrence of a name of the original
      header either: appended names are all new. */
  lemma ExtendKeepsLastIndex(h: seq<Cell>, targets: seq<string>, x: Cell, i: int)
    requires x in h
    ensures IsLastIndex(Extend(h, targets), x, i) <==> IsLastIndex(h, x, i)
  {
    var e := Extend(h, targets);
    ExtendAppendsOnlyMissing(h, targets);
    assert forall j :: 0 <= j < |h| ==> e[j] == e[..|h|][j] == h[j];
    forall j | |h| <= j < |e|
      ensures e[j] != x
    {
      assert Extend(h, targets)[j] !in h;
    }
  }
}
