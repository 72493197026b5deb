/**
  What one result page contributes. The page is seen through the two queries
  `run` makes of it: its tables in document order, each with its `summary`
  attribute (absent or a string) and the texts of its `td` cells in document order.
*/
module Extract {
  import opened Wrappers
  import Decimal

  datatype Table = Table(summary: Option<string>, cells: seq<string>)

  type Document = seq<Table>

  /** The summary of the ranking table for `top` names. */
  function Summary(top: int): string {
    "Popularity for top " + Decimal.FromInt(top)
  }

  /** The table is read only when its summary is present and equal to `Summary(top)`. */
  predicate Matches(t: Table, top: int) {
    t.summary == Some(Summary(top))
  }

  /** The texts of the cells whose zero-based index is `offset` modulo 3. */
  function CellNames(cells: seq<string>, offset: nat): set<string>
    decreases |cells|
  {
    if cells == [] then {}
    else
      var i := |cells| - 1;
      CellNames(cells[..i], offset) + (if i % 3 == offset then {cells[i]} else {})
  }

  /** The names all matching tables of `doc` contribute. */
  function PageNames(doc: Document, top: int, offset: nat): set<string>
    decreases |doc|
  {
    if doc == [] then {}
    else
      var t := doc[|doc| - 1];
      PageNames(doc[..|doc| - 1], top, offset) + (if Matches(t, top) then CellNames(t.cells, offset) else {})
  }

  /** A name is taken from a page when some matching table holds it in the sex's column. */
  ghost predicate Extracted(doc: Document, top: int, offset: nat, x: string) {
    exists ti, ci :: 0 <= ti < |doc| && 0 <= ci < |doc[ti].cells| &&
      Matches(doc[ti], top) && ci % 3 == offset && doc[ti].cells[ci] == x
  }

  /** The expected summary for each of the five sizes the service publishes. */
  lemma SummaryOfTopSizes()
    ensures Summary(20) == "Popularity for top 20"
    ensures Summary(50) == "Popularity for top 50"
    ensures Summary(100) == "Popularity for top 100"
    ensures Summary(500) == "Popularity for top 500"
    ensures Summary(1000) == "Popularity for top 1000"
  {
    assert Decimal.FromNat(1000) == Decimal.FromNat(100) + "0";
  }

  /** Two different sizes never share a summary, so the table for one is never read for the other. */
  lemma SummaryDeterminesTop(a: int, b: int)
    requires Summary(a) == Summary(b)
    ensures a == b
  {
    var p := "Popularity for top ";
    assert Decimal.FromInt(a) == Summary(a)[|p|..];
    assert Decimal.FromInt(b) == Summary(b)[|p|..];
    Decimal.FromIntInjective(a, b);
  }

  lemma {:induction false} CellNamesMembership(cells: seq<string>, offset: nat, x: string)
    ensures x in CellNames(cells, offset) <==> exists ci :: 0 <= ci < |cells| && ci % 3 == offset && cells[ci] == x
    decreases |cells|
  {
    if cells != [] {
      var i := |cells| - 1;
      CellNamesMembership(cells[..i], offset, x);
      if x in CellNames(cells, offset) && x !in CellNames(cells[..i], offset) {
        assert cells[i] == x;
      }
    }
  }

  /** A cell of the last table is selected when that table matches and the cell is in the sex's column. */
  ghost predicate ExtractedFromTable(t: Table, top: int, offset: nat, x: string) {
    Matches(t, top) && exists ci :: 0 <= ci < |t.cells| && ci % 3 == offset && t.cells[ci] == x
  }

  /** A name taken from a page comes from its tables before the last, or from the last one. */
  lemma ExtractedSplit(doc: Document, top: int, offset: nat, x: string)
    requires doc != []
    ensures Extracted(doc, top, offset, x) <==>
      Extracted(doc[..|doc| - 1], top, offset, x) || ExtractedFromTable(doc[|doc| - 1], top, offset, x)
  {
    var n := |doc| - 1;
    var front := doc[..n];
    if Extracted(doc, top, offset, x) {
      var ti, ci :| 0 <= ti < |doc| && 0 <= ci < |doc[ti].cells| &&
        Matches(doc[ti], top) && ci % 3 == offset && doc[ti].cells[ci] == x;
      if ti < n {
        assert front[ti] == doc[ti];
      }
    }
    if Extracted(front, top, offset, x) {
      var ti, ci :| 0 <= ti < |front| && 0 <= ci < |front[ti].cells| &&
        Matches(front[ti], top) && ci % 3 == offset && front[ti].cells[ci] == x;
      assert doc[ti] == front[ti];
    }
    if ExtractedFromTable(doc[n], top, offset, x) {
      var ci :| 0 <= ci < |doc[n].cells| && ci % 3 == offset && doc[n].cells[ci] == x;
      assert doc[n].cells[ci] == x;
    }
  }

  /**
    The names of a page are exactly the texts, unchanged, of the cells in the
    sex's column of every table whose summary matches; other cells and tables add nothing.
  */
  lemma {:induction false} PageNamesMembership(doc: Document, top: int, offset: nat, x: string)
    ensures x in PageNames(doc, top, offset) <==> Extracted(doc, top, offset, x)
    decreases |doc|
  {
    if doc != [] {
      var n := |doc| - 1;
      PageNamesMembership(doc[..n], top, offset, x);
      CellNamesMembership(doc[n].cells, offset, x);
      ExtractedSplit(doc, top, offset, x);
    }
  }

  /** Every matching table contributes, not only the first one. */
  lemma EveryMatchingTableContributes(doc: Document, top: int, offset: nat, ti: nat)
    requires ti < |doc| && Matches(doc[ti], top)
    ensures CellNames(doc[ti].cells, offset) <= PageNames(doc, top, offset)
  {
    forall x | x in CellNames(doc[ti].cells, offset)
      ensures x in PageNames(doc, top, offset)
    {
      CellNamesMembership(doc[ti].cells, offset, x);
      var ci :| 0 <= ci < |doc[ti].cells| && ci % 3 == offset && doc[ti].cells[ci] == x;
      PageNamesMembership(doc, top, offset, x);
    }
  }

  /** The inner `Each` over the cells of one matching table. */
  method AddCellNames(names: set<string>, cells: seq<string>, offset: nat) returns (out: set<string>)
    ensures out == names + CellNames(cells, offset)
  {
    out := names;
    var i := 0;
    while i < |cells|
      invariant 0 <= i <= |cells|
      invariant out == names + CellNames(cells[..i], offset)
    {
      assert cells[..i + 1][..i] == cells[..i];
      if i % 3 == offset {
        out := out + {cells[i]};
      }
      i := i + 1;
    }
    assert cells[..|cells|] == cells;
  }

  /** The outer `Each` over the tables of one page. */
  method AddPageNames(names: set<string>, doc: Document, top: int, offset: nat) returns (out: set<string>)
    ensures out == names + PageNames(doc, top, offset)
  {
    out := names;
    var summary := Summary(top);
    var k := 0;
    while k < |doc|
      invariant 0 <= k <= |doc|
      invariant out == names + PageNames(doc[..k], top, offset)
    {
      assert doc[..k + 1][..k] == doc[..k];
      var t := doc[k];
      if t.summary.Some? && t.summary.value == summary {
        out := AddCellNames(out, t.cells, offset);
      }
      k := k + 1;
    }
    assert doc[..|doc|] == doc;
  }

  /** A ranking table for the top 20 with two rows: rank, boy's name, girl's name per row. */
  lemma TwoRowExample()
    ensures var doc := [Table(Some("Popularity for top 20"), ["1", "Noah", "Emma", "2", "Liam", "Olivia"])];
      PageNames(doc, 20, 1) == {"Noah", "Liam"} &&
      PageNames(doc, 20, 2) == {"Emma", "Olivia"} &&
      PageNames(doc, 50, 1) == {}
  {
    var cells := ["1", "Noah", "Emma", "2", "Liam", "Olivia"];
    assert Decimal.FromInt(20) == "20" by {
      assert Decimal.FromNat(2) == "2";
    }
    assert Summary(20) == "Popularity for top 20";
    assert Summary(50) != "Popularity for top 20" by {
      if Summary(50) == Summary(20) {
        SummaryDeterminesTop(50, 20);
      }
    }
    var c1, c2, c3, c4, c5 := cells[..1], cells[..2], cells[..3], cells[..4], cells[..5];
    assert c1[..0] == [] && c2[..1] == c1 && c3[..2] == c2 && c4[..3] == c3 && c5[..4] == c4 && cells[..5] == c5;
    assert CellNames(c1, 1) == {} && CellNames(c1, 2) == {};
    assert CellNames(c2, 1) == {"Noah"} && CellNames(c2, 2) == {};
    assert CellNames(c3, 1) == {"Noah"} && CellNames(c3, 2) == {"Emma"};
    assert CellNames(c4, 1) == {"Noah"} && CellNames(c4, 2) == {"Emma"};
    assert CellNames(c5, 1) == {"Noah", "Liam"} && CellNames(c5, 2) == {"Emma"};
    assert CellNames(cells, 1) == {"Noah", "Liam"} && CellNames(cells, 2) == {"Emma", "Olivia"};
    var doc := [Table(Some("Popularity for top 20"), cells)];
    assert doc[..0] == [];
  }
}
