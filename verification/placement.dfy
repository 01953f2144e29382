/**
 * Rejection sampling as the game places food and obstacles: random cells are
 * drawn one after another until one is free. The random source is a finite
 * sequence of draws; these functions say which draws the placement loops keep.
 */
module Placement {

  import opened Wrappers
  import opened Grid

  /** The index of the first draw, from index `from` on, that lies outside `taken`. */
  function FirstFreeFrom(draws: seq<Cell>, from: nat, taken: set<Cell>): (r: Option<nat>)
    ensures r.Some? ==> from <= r.value < |draws| && draws[r.value] !in taken
    decreases |draws| - from
  {
    if from >= |draws| then None
    else if draws[from] !in taken then Some(from)
    else FirstFreeFrom(draws, from + 1, taken)
  }

  /**
   * Every draw FirstFreeFrom skips is taken, and it finds nothing exactly
   * when every remaining draw is taken.
   */
  lemma {:induction false} FirstFreeIsFirst(draws: seq<Cell>, from: nat, taken: set<Cell>)
    ensures var r := FirstFreeFrom(draws, from, taken);
            && (r.Some? ==> forall j :: from <= j < r.value ==> draws[j] in taken)
            && (r.None? <==> forall j :: from <= j < |draws| ==> draws[j] in taken)
    decreases |draws| - from
  {
    if from < |draws| && draws[from] in taken {
      FirstFreeIsFirst(draws, from + 1, taken);
    }
  }

  /**
   * Extends `placed` by `count` cells, each the first later draw that avoids
   * `taken` and every cell placed before it; None when the draws run out first.
   */
  function PlaceFrom(draws: seq<Cell>, from: nat, count: nat, placed: seq<Cell>, taken: set<Cell>)
    : (r: Option<seq<Cell>>)
    decreases count
  {
    if count == 0 then Some(placed)
    else match FirstFreeFrom(draws, from, taken + Cells(placed))
      case None => None
      case Some(k) => PlaceFrom(draws, k + 1, count - 1, placed + [draws[k]], taken)
  }

  /** One round of placement: the first free draw from `from` on is kept and the search resumes after it. */
  lemma PlaceFromStep(draws: seq<Cell>, from: nat, count: nat, placed: seq<Cell>, taken: set<Cell>)
    requires count > 0 && PlaceFrom(draws, from, count, placed, taken).Some?
    ensures FirstFreeFrom(draws, from, taken + Cells(placed)).Some?
    ensures var k := FirstFreeFrom(draws, from, taken + Cells(placed)).value;
            PlaceFrom(draws, from, count, placed, taken)
              == PlaceFrom(draws, k + 1, count - 1, placed + [draws[k]], taken)
  {
  }

  /** `count` cells placed from the start of the draws, avoiding `taken`. */
  function Place(draws: seq<Cell>, count: nat, taken: set<Cell>): (r: Option<seq<Cell>>)
  {
    PlaceFrom(draws, 0, count, [], taken)
  }

  /**
   * A successful placement keeps what was placed before, adds exactly
   * `count` cells, none of them in `taken`, each one of the draws, and never
   * places a cell twice.
   */
  lemma {:induction false} PlaceFromExtends(draws: seq<Cell>, from: nat, count: nat, placed: seq<Cell>, taken: set<Cell>)
    requires Distinct(placed)
    requires PlaceFrom(draws, from, count, placed, taken).Some?
    ensures var r := PlaceFrom(draws, from, count, placed, taken).value;
            && |r| == |placed| + count && r[..|placed|] == placed && Distinct(r)
            && forall i :: |placed| <= i < |r| ==> r[i] !in taken && r[i] in draws
    decreases count
  {
    if count > 0 {
      var k := FirstFreeFrom(draws, from, taken + Cells(placed)).value;
      var c := draws[k];
      var next := placed + [c];
      assert PlaceFrom(draws, from, count, placed, taken) == PlaceFrom(draws, k + 1, count - 1, next, taken);
      assert c !in placed by {
        assert c !in Cells(placed);
      }
      assert Distinct(next) by {
        forall i, j | 0 <= i < j < |next| ensures next[i] != next[j] {
          if j < |placed| {
            assert next[i] == placed[i] && next[j] == placed[j];
          } else {
            assert next[i] == placed[i];
          }
        }
      }
      PlaceFromExtends(draws, k + 1, count - 1, next, taken);
      var r := PlaceFrom(draws, from, count, placed, taken).value;
      assert r[..|next|] == next;
      assert r[..|placed|] == next[..|placed|];
      assert r[|placed|] == c by {
        assert r[|placed|] == r[..|next|][|placed|];
      }
    }
  }

  /**
   * A successful placement from scratch yields exactly `count` cells,
   * pairwise distinct, none of them in `taken`, each one of the draws.
   */
  lemma PlacedCellsAreFree(draws: seq<Cell>, count: nat, taken: set<Cell>)
    requires Place(draws, count, taken).Some?
    ensures var r := Place(draws, count, taken).value;
            && |r| == count && Distinct(r)
            && forall i :: 0 <= i < count ==> r[i] !in taken && r[i] in draws
  {
    PlaceFromExtends(draws, 0, count, [], taken);
  }

  /** Placed cells come from the draws, so they lie wherever all draws lie. */
  lemma PlacedInBounds(draws: seq<Cell>, count: nat, taken: set<Cell>, n: int)
    requires AllInBounds(draws, n)
    requires Place(draws, count, taken).Some?
    ensures AllInBounds(Place(draws, count, taken).value, n)
  {
    PlacedCellsAreFree(draws, count, taken);
    var r := Place(draws, count, taken).value;
    forall i | 0 <= i < |r| ensures InBounds(r[i], n) {
      assert r[i] in draws;
      var k :| 0 <= k < |draws| && draws[k] == r[i];
    }
  }

  /**
   * When every cell of the board is taken, no draw on the board is ever
   * kept: a rejection loop over such a board never stops.
   */
  lemma SaturatedNeverFree(draws: seq<Cell>, from: nat, taken: set<Cell>, n: int)
    requires AllInBounds(draws, n)
    requires forall c :: InBounds(c, n) ==> c in taken
    ensures FirstFreeFrom(draws, from, taken).None?
  {
  }

  /** The free cells of an n-by-n board. */
  function FreeCells(n: int, taken: set<Cell>): (r: set<Cell>)
    ensures forall c :: c in r <==> InBounds(c, n) && c !in taken
  {
    set x, y | 0 <= x < n && 0 <= y < n && Cell(x, y) !in taken :: Cell(x, y)
  }

  /** A sequence without repeats covers as many cells as it is long. */
  lemma {:induction false} DistinctCellCount(s: seq<Cell>)
    requires Distinct(s)
    ensures |Cells(s)| == |s|
  {
    if s != [] {
      var t := s[1..];
      assert Distinct(t) by {
        forall i, j | 0 <= i < j < |t| ensures t[i] != t[j] {
          assert t[i] == s[i + 1] && t[j] == s[j + 1];
        }
      }
      DistinctCellCount(t);
      assert s == [s[0]] + t;
      assert Cells(s) == Cells(t) + {s[0]};
      assert s[0] !in Cells(t);
    }
  }

  /**
   * A placement only completes when the board has at least `count` free
   * cells; with more obstacles requested than free cells, the obstacle loop
   * never stops.
   */
  lemma PlacementFitsBoard(draws: seq<Cell>, count: nat, taken: set<Cell>, n: int)
    requires AllInBounds(draws, n)
    requires Place(draws, count, taken).Some?
    ensures count <= |FreeCells(n, taken)|
  {
    PlacedInBounds(draws, count, taken, n);
    PlacedCellsAreFree(draws, count, taken);
    var r := Place(draws, count, taken).value;
    var free := FreeCells(n, taken);
    DistinctCellCount(r);
    assert Cells(r) <= free by {
      forall c | c in Cells(r) ensures c in free {
        var i :| 0 <= i < |r| && r[i] == c;
      }
    }
    var rest := free - Cells(r);
    assert free == Cells(r) + rest;
    assert Cells(r) * rest == {};
    assert |free| == |Cells(r)| + |rest|;
  }

  /**
   * The board scanned row by row from (x, y): the first cell not in
   * `taken`, or None when the rest of the board is taken.
   */
  function ScanFrom(n: nat, y: nat, x: nat, taken: set<Cell>): (r: Option<Cell>)
    requires x <= n
    ensures r.Some? ==> InBounds(r.value, n) && r.value !in taken
    decreases n - y, n - x
  {
    if y >= n then None
    else if x == n then ScanFrom(n, y + 1, 0, taken)
    else if Cell(x, y) !in taken then Some(Cell(x, y))
    else ScanFrom(n, y, x + 1, taken)
  }

  /** The scan misses no free cell at or after its starting point. */
  lemma {:induction false} ScanFromMissesNothing(n: nat, y: nat, x: nat, taken: set<Cell>)
    requires x <= n
    ensures ScanFrom(n, y, x, taken).None? ==>
              forall c :: InBounds(c, n) && (y < c.y || (y == c.y && x <= c.x)) ==> c in taken
    decreases n - y, n - x
  {
    if y < n {
      if x == n {
        ScanFromMissesNothing(n, y + 1, 0, taken);
      } else if Cell(x, y) in taken {
        ScanFromMissesNothing(n, y, x + 1, taken);
      }
    }
  }

  /**
   * Food placement that cannot hang: the first free draw, as the source's
   * loop keeps, or, once the draws run out, any free cell of the board; None
   * exactly when the board has no free cell.
   */
  function FoodCell(draws: seq<Cell>, n: nat, taken: set<Cell>): (r: Option<Cell>)
    requires AllInBounds(draws, n)
    ensures r.None? <==> forall c :: InBounds(c, n) ==> c in taken
    ensures r.Some? ==> InBounds(r.value, n) && r.value !in taken
    ensures FirstFreeFrom(draws, 0, taken).Some? ==> r == Some(draws[FirstFreeFrom(draws, 0, taken).value])
  {
    match FirstFreeFrom(draws, 0, taken)
    case Some(k) => Some(draws[k])
    case None =>
      ScanFromMissesNothing(n, 0, 0, taken);
      ScanFrom(n, 0, 0, taken)
  }
}
