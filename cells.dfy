/** Cells of the maze lattice: a fixed identity, four structural adjacency
    references, and a set of passages ("links") to other cells. */
module Cells {

  /** The four cardinal directions, in the order in which `Neighbors` visits them. */
  datatype Direction = North | South | East | West

  const Directions: seq<Direction> := [North, South, East, West]

  /** No element occurs twice, as in a JavaScript `Set`. */
  predicate Distinct<T(==)>(s: seq<T>) {
    forall i, j :: 0 <= i < j < |s| ==> s[i] != s[j]
  }

  /** `Set.prototype.add` on a set kept in insertion order: `x` is appended
      unless it is already a member. */
  function Added<T(==)>(s: seq<T>, x: T): (r: seq<T>)
    ensures x in r && |s| <= |r| && r[..|s|] == s
    ensures |r| == if x in s then |s| else |s| + 1
    ensures Distinct(s) ==> Distinct(r)
  {
    if x in s then s else s + [x]
  }

  /** `Set.prototype.delete` on a set kept in insertion order: `x` is removed
      and the remaining members keep their order. */
  function Deleted<T(==)>(s: seq<T>, x: T): (r: seq<T>)
    ensures x !in r && |r| <= |s|
    ensures forall i :: 0 <= i < |r| ==> r[i] in s
    ensures forall i :: 0 <= i < |s| && s[i] != x ==> s[i] in r
    ensures x !in s ==> r == s
  {
    if s == [] then []
    else
      var init, last := s[..|s| - 1], s[|s| - 1];
      assert s == init + [last];
      Deleted(init, x) + (if last == x then [] else [last])
  }

  /** Deleting keeps a set free of duplicates. */
  lemma {:induction false} DeletedDistinct<T>(s: seq<T>, x: T)
    requires Distinct(s)
    ensures Distinct(Deleted(s, x))
  {
    if s != [] {
      var init, last := s[..|s| - 1], s[|s| - 1];
      assert s == init + [last];
      DeletedDistinct(init, x);
      assert last !in init;
    }
  }

  /** Deleting what was just added (and was not there before) gives back the
      original set, order included. */
  lemma {:induction false} DeletedUndoesAdded<T>(s: seq<T>, x: T)
    requires x !in s
    ensures Deleted(Added(s, x), x) == s
  {
    var t := s + [x];
    assert t[..|t| - 1] == s;
  }

  /** Adding twice is adding once; deleting twice is deleting once. */
  lemma {:induction false} AddDeleteIdempotent<T>(s: seq<T>, x: T)
    ensures Added(Added(s, x), x) == Added(s, x)
    ensures Deleted(Deleted(s, x), x) == Deleted(s, x)
  {
  }

  /** A possibly absent cell as a sequence of zero or one cells. */
  function Present(cell: Cell?): (r: seq<Cell>)
    ensures |r| == (if cell == null then 0 else 1)
    ensures cell != null ==> r[0] == cell
  {
    if cell == null then [] else [cell]
  }

  class Cell {
    const row: int
    const column: int
    var north: Cell?
    var south: Cell?
    var east: Cell?
    var west: Cell?
    /** The `_links` set, in insertion order. */
    var links: seq<Cell>

    constructor (row: int, column: int)
      ensures this.row == row && this.column == column
      ensures north == null && south == null && east == null && west == null
      ensures links == [] && Distinct(links)
    {
      this.row := row;
      this.column := column;
      north, south, east, west := null, null, null, null;
      links := [];
    }

    /** The linked cells, in the order they were linked: exactly the cells
        `IsLinked` accepts, each listed once while the links hold no
        duplicate (which `Link` and `Unlink` maintain). */
    function Links(): (r: seq<Cell>)
      reads this`links
      ensures forall i :: 0 <= i < |r| ==> IsLinked(r[i])
      ensures forall i :: 0 <= i < |links| ==> links[i] in r
      ensures Distinct(links) ==> Distinct(r)
    {
      links
    }

    /** A cell is listed by `Links` exactly when `IsLinked` accepts it. */
    lemma LinksListsLinked(c: Cell)
      ensures c in Links() <==> IsLinked(c)
    {
    }

    /** `this[direction]`: the structural neighbour in direction `d`, or
        null at the boundary. */
    function Toward(d: Direction): (r: Cell?)
      reads this`north, this`south, this`east, this`west
      ensures r == north || r == south || r == east || r == west
      ensures d == North ==> r == north
      ensures d == South ==> r == south
      ensures d == East ==> r == east
      ensures d == West ==> r == west
    {
      match d
      case North => north
      case South => south
      case East => east
      case West => west
    }

    /** The neighbours that are present along `ds`, in the order of `ds`. */
    function PresentAlong(ds: seq<Direction>): (r: seq<Cell>)
      reads this`north, this`south, this`east, this`west
      ensures |r| <= |ds|
    {
      if ds == [] then []
      else Present(Toward(ds[0])) + PresentAlong(ds[1..])
    }

    /** `PresentAlong` keeps exactly the non-null neighbours along `ds`: every
        kept cell is the neighbour in some direction of `ds`, and every
        present neighbour in a direction of `ds` is kept. */
    lemma {:induction false} PresentAlongExactly(ds: seq<Direction>)
      ensures forall i :: 0 <= i < |PresentAlong(ds)| ==>
        exists d :: d in ds && Toward(d) == PresentAlong(ds)[i]
      ensures forall d :: d in ds && Toward(d) != null ==> Toward(d) in PresentAlong(ds)
    {
      if ds != [] {
        PresentAlongExactly(ds[1..]);
        var head, rest := Present(Toward(ds[0])), PresentAlong(ds[1..]);
        assert PresentAlong(ds) == head + rest;
        forall i | 0 <= i < |PresentAlong(ds)|
          ensures exists d :: d in ds && Toward(d) == PresentAlong(ds)[i]
        {
          if i < |head| {
            assert Toward(ds[0]) == PresentAlong(ds)[i];
          } else {
            var d :| d in ds[1..] && Toward(d) == rest[i - |head|];
            assert d in ds;
          }
        }
        forall d | d in ds && Toward(d) != null ensures Toward(d) in PresentAlong(ds) {
          if d != ds[0] {
            assert d in ds[1..];
          }
        }
      } else {
        assert PresentAlong(ds) == [];
      }
    }

    /** Structural neighbours: the present ones among north, south, east and
        west, in that order. Its frame leaves out `links`: linking never
        changes it. */
    function Neighbors(): (r: seq<Cell>)
      reads this`north, this`south, this`east, this`west
      ensures r == Present(north) + Present(south) + Present(east) + Present(west)
      ensures forall i :: 0 <= i < |r| ==> r[i] == north || r[i] == south || r[i] == east || r[i] == west
    {
      DirectionsInOrder();
      PresentAlong(Directions)
    }

    /** Filtering `Directions` visits north, south, east, west in turn. */
    lemma DirectionsInOrder()
      ensures PresentAlong(Directions) == Present(north) + Present(south) + Present(east) + Present(west)
    {
      assert [West][1..] == [];
      assert PresentAlong([West]) == Present(west);
      assert [East, West][1..] == [West];
      assert PresentAlong([East, West]) == Present(east) + Present(west);
      assert [South, East, West][1..] == [East, West];
      assert PresentAlong([South, East, West]) == Present(south) + (Present(east) + Present(west));
      assert Directions[1..] == [South, East, West];
    }

    /** Whether `cell` is among the links; an absent cell never is. */
    function IsLinked(cell: Cell?): (r: bool)
      reads this`links
      ensures cell == null ==> !r
      ensures r <==> cell != null && cell in links
    {
      cell != null && cell in links
    }

    /** Adds `cell` to the links and, when bidirectional, this cell to
        `cell`'s links. No other cell and no adjacency changes. */
    method Link(cell: Cell, bidirectional: bool := true)
      modifies this`links, cell`links
      decreases bidirectional
      ensures links == Added(old(links), cell)
      ensures cell != this ==>
        cell.links == if bidirectional then Added(old(cell.links), this) else old(cell.links)
      ensures IsLinked(cell) && (bidirectional ==> cell.IsLinked(this))
      ensures Distinct(old(links)) ==> Distinct(links)
      ensures Distinct(old(cell.links)) ==> Distinct(cell.links)
    {
      links := Added(links, cell);
      if bidirectional {
        cell.Link(this, false);
      }
    }

    /** Removes `cell` from the links and, when bidirectional, this cell from
        `cell`'s links. No other cell and no adjacency changes. */
    method Unlink(cell: Cell, bidirectional: bool := true)
      modifies this`links, cell`links
      decreases bidirectional
      ensures links == Deleted(old(links), cell)
      ensures cell != this ==>
        cell.links == if bidirectional then Deleted(old(cell.links), this) else old(cell.links)
      ensures !IsLinked(cell) && (bidirectional ==> !cell.IsLinked(this))
      ensures Distinct(old(links)) ==> Distinct(links)
      ensures Distinct(old(cell.links)) ==> Distinct(cell.links)
    {
      if Distinct(links) {
        DeletedDistinct(links, cell);
      }
      links := Deleted(links, cell);
      if bidirectional {
        cell.Unlink(this, false);
      }
    }
  }
}
