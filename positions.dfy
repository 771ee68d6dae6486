/** The display-order arithmetic of the category service: the per-row remap
    that moves one category to a new position, the "last position" used when
    a category is appended, and what it means for a language's positions to
    be dense (exactly 1..N with no duplicates). */
module Positions {
  import opened Categories

  /** The position a row ends up at when the category `id` moves from
      `from` to `target`. The moving row takes `target`; on a move down the
      rows in (from, target] step back by one; on a move up the rows in
      [target, from) step forward by one; every other row keeps its place. */
  function MovedPosition(p: int, isMoving: bool, from: int, target: int): int {
    if isMoving then target
    else if from < target then (if from < p <= target then p - 1 else p)
    else if from > target then (if target <= p < from then p + 1 else p)
    else p
  }

  /** One row after the move: only its `position` may differ. */
  function Shifted(c: Category, id: Id, from: int, target: int): Category {
    c.(position := MovedPosition(c.position, c.id == id, from, target))
  }

  /** The remap applied to every category of the moving category's
      language. */
  function Remap(cats: seq<Category>, id: Id, from: int, target: int): (r: seq<Category>)
    ensures |r| == |cats|
    ensures forall i :: 0 <= i < |cats| ==> r[i] == cats[i].(position := r[i].position)
    ensures forall i :: 0 <= i < |cats| && cats[i].id == id ==> r[i].position == target
    ensures forall i :: 0 <= i < |cats| && cats[i].id != id && from < target ==>
      r[i].position == if from < cats[i].position <= target then cats[i].position - 1 else cats[i].position
    ensures forall i :: 0 <= i < |cats| && cats[i].id != id && target < from ==>
      r[i].position == if target <= cats[i].position < from then cats[i].position + 1 else cats[i].position
    ensures forall i :: 0 <= i < |cats| && cats[i].id != id && target == from ==>
      r[i].position == cats[i].position
  {
    if cats == [] then []
    else [Shifted(cats[0], id, from, target)] + Remap(cats[1..], id, from, target)
  }

  /** Row `i` of the remapped list is row `i` of the input, shifted. */
  lemma {:induction false} RemapAt(cats: seq<Category>, id: Id, from: int, target: int, i: nat)
    requires i < |cats|
    ensures Remap(cats, id, from, target)[i] == Shifted(cats[i], id, from, target)
  {
    if i > 0 {
      RemapAt(cats[1..], id, from, target, i - 1);
    }
  }

  /** Undoing a move restores the position of every row that did not share
      the moving row's starting position. */
  lemma MovedPositionBack(p: int, isMoving: bool, from: int, target: int)
    requires isMoving || p != from
    ensures isMoving ==> MovedPosition(MovedPosition(p, isMoving, from, target), isMoving, target, from) == from
    ensures !isMoving ==> MovedPosition(MovedPosition(p, isMoving, from, target), isMoving, target, from) == p
  {
  }

  /** The highest position among `cats`, or 0 when there is none. */
  function LastPosition(cats: seq<Category>): (r: int)
    ensures cats == [] ==> r == 0
    ensures forall i :: 0 <= i < |cats| ==> cats[i].position <= r
    ensures cats != [] ==> exists i :: 0 <= i < |cats| && cats[i].position == r
  {
    if cats == [] then 0
    else if |cats| == 1 then cats[0].position
    else
      var rest := LastPosition(cats[1..]);
      if cats[0].position > rest then cats[0].position else rest
  }

  /** No two rows share a position. */
  predicate DistinctPositions(cats: seq<Category>) {
    forall i, j :: 0 <= i < j < |cats| ==> cats[i].position != cats[j].position
  }

  /** The positions of `cats` are 1..|cats|, each used once. */
  predicate Dense(cats: seq<Category>) {
    DistinctPositions(cats) &&
    forall i :: 0 <= i < |cats| ==> 1 <= cats[i].position <= |cats|
  }

  function PositionSet(cats: seq<Category>): set<int> {
    set c | c in cats :: c.position
  }

  /** The positions of `cats`, counted with multiplicity. */
  function PositionBag(cats: seq<Category>): multiset<int> {
    if cats == [] then multiset{} else multiset{cats[0].position} + PositionBag(cats[1..])
  }

  lemma {:induction false} PositionBagConcat(a: seq<Category>, b: seq<Category>)
    ensures PositionBag(a + b) == PositionBag(a) + PositionBag(b)
  {
    if a == [] {
      assert a + b == b;
    } else {
      assert (a + b)[0] == a[0];
      assert (a + b)[1..] == a[1..] + b;
      PositionBagConcat(a[1..], b);
    }
  }

  /** The positions 1..n. */
  function Range(n: nat): (r: set<int>)
    ensures |r| == n
    ensures forall p :: p in r <==> 1 <= p <= n
  {
    if n == 0 then {} else Range(n - 1) + {n}
  }

  lemma {:induction false} DistinctPositionsSize(cats: seq<Category>)
    requires DistinctPositions(cats)
    ensures |PositionSet(cats)| == |cats|
  {
    if cats != [] {
      var rest := cats[1..];
      assert DistinctPositions(rest) by {
        forall i, j | 0 <= i < j < |rest| ensures rest[i].position != rest[j].position {
          assert rest[i] == cats[i + 1] && rest[j] == cats[j + 1];
        }
      }
      DistinctPositionsSize(rest);
      forall c | c in rest ensures c.position != cats[0].position {
        var j :| 0 <= j < |rest| && rest[j] == c;
        assert cats[j + 1] == c;
      }
      assert PositionSet(cats) == {cats[0].position} + PositionSet(rest) by {
        assert cats == [cats[0]] + rest;
      }
    }
  }

  lemma SubsetOfSameSize(a: set<int>, b: set<int>)
    requires a <= b && |a| == |b|
    ensures a == b
  {
    assert b == a + (b - a);
    assert a * (b - a) == {};
  }

  /** A dense language uses every position 1..N exactly once. */
  lemma DenseIsExactRange(cats: seq<Category>)
    requires Dense(cats)
    ensures PositionSet(cats) == Range(|cats|)
  {
    DistinctPositionsSize(cats);
    SubsetOfSameSize(PositionSet(cats), Range(|cats|));
  }

  /** Moving a category to the position it already holds leaves every
      position as it was. */
  lemma MoveToSamePositionIsNoOp(cats: seq<Category>, k: nat)
    requires k < |cats| && UniqueIds(cats)
    ensures Remap(cats, cats[k].id, cats[k].position, cats[k].position) == cats
  {
  }

  /** If the language's positions are exactly 1..N and the target lies in
      1..N, the remap leaves them exactly 1..N again. */
  lemma RemapKeepsDense(cats: seq<Category>, k: nat, target: int)
    requires k < |cats| && UniqueIds(cats) && Dense(cats)
    requires 1 <= target <= |cats|
    ensures Dense(Remap(cats, cats[k].id, cats[k].position, target))
  {
  }

  /** Moving a category away and then back to where it was restores every
      position, provided no other category shared its position. */
  lemma MoveBackRestores(cats: seq<Category>, k: nat, target: int)
    requires k < |cats| && UniqueIds(cats)
    requires forall i :: 0 <= i < |cats| && i != k ==> cats[i].position != cats[k].position
    ensures Remap(Remap(cats, cats[k].id, cats[k].position, target), cats[k].id, target, cats[k].position) == cats
  {
    var id, from := cats[k].id, cats[k].position;
    var there := Remap(cats, id, from, target);
    var back := Remap(there, id, target, from);
    forall i | 0 <= i < |cats| ensures back[i] == cats[i] {
      RemapAt(cats, id, from, target, i);
      RemapAt(there, id, target, from, i);
      MovedPositionBack(cats[i].position, cats[i].id == id, from, target);
    }
  }

  /** In a dense language the last position is the number of categories. */
  lemma LastPositionOfDense(cats: seq<Category>)
    requires Dense(cats)
    ensures LastPosition(cats) == |cats|
  {
    if cats != [] {
      DenseIsExactRange(cats);
      assert |cats| in PositionSet(cats);
    }
  }

  /** Appending at the last position plus one keeps a dense language dense. */
  lemma AppendKeepsDense(cats: seq<Category>, c: Category)
    requires Dense(cats)
    requires c.position == LastPosition(cats) + 1
    ensures Dense(cats + [c])
  {
    LastPositionOfDense(cats);
  }
}
