/** The table-filling matcher for patterns that no cheaper store can hold. */
module DpMatch {
  import opened Glob

  /** The scratch vector that successive matches share; nothing is assumed of what it holds. */
  class MatchBuffer {
    var cells: seq<bool>

    constructor () {
      cells := [];
    }

    /** `clear` followed by `resize(needed, false)`. */
    method Reset(needed: nat)
      modifies this
      ensures |cells| == needed && forall i | 0 <= i < needed :: !cells[i]
    {
      cells := seq(needed, _ => false);
    }
  }

  /** Position of table cell (row, column) in the flat vector. */
  function At(row: nat, column: nat, columns: nat): nat {
    row * columns + column
  }

  lemma {:induction false} RowStep(r: nat, r': nat, columns: nat)
    requires r < r'
    ensures r * columns + columns <= r' * columns
  {
    if r + 1 < r' {
      RowStep(r, r' - 1, columns);
    }
    assert r' * columns == (r' - 1) * columns + columns;
  }

  /** The flat table never aliases two cells of the grid. */
  lemma AtInjective(r: nat, c: nat, r': nat, c': nat, columns: nat)
    requires c < columns && c' < columns
    ensures At(r, c, columns) == At(r', c', columns) <==> r == r' && c == c'
  {
    if r < r' {
      RowStep(r, r', columns);
    } else if r' < r {
      RowStep(r', r, columns);
    }
  }

  /** Every cell of the grid lies within the vector. */
  lemma AtInBounds(r: nat, c: nat, rows: nat, columns: nat)
    requires r < rows && c < columns
    ensures At(r, c, columns) < rows * columns
  {
    RowStep(r, rows, columns);
  }

  /** Cell (row, c) says whether the pattern prefix of length `row` matches the host prefix of length `c`. */
  ghost predicate CellFilled(cells: seq<bool>, p: seq<string>, h: seq<string>, row: nat, c: nat) {
    && row <= |p| && c <= |h|
    && At(row, c, |h| + 1) < |cells|
    && cells[At(row, c, |h| + 1)] == Matches(p[..row], h[..c])
  }

  /** All rows before `row`, and the first `upto` cells of `row`, are filled. */
  ghost predicate Filled(cells: seq<bool>, p: seq<string>, h: seq<string>, row: nat, upto: nat) {
    && (forall r: nat, c: nat | r < row && c <= |h| :: CellFilled(cells, p, h, r, c))
    && (forall c: nat | c < upto :: CellFilled(cells, p, h, row, c))
  }

  /** Writing the next cell fills it and disturbs no other. */
  lemma FillNext(cells: seq<bool>, p: seq<string>, h: seq<string>, row: nat, upto: nat, cell: bool)
    requires row <= |p| && upto <= |h|
    requires Filled(cells, p, h, row, upto)
    requires At(row, upto, |h| + 1) < |cells|
    requires cell == Matches(p[..row], h[..upto])
    ensures Filled(cells[At(row, upto, |h| + 1) := cell], p, h, row, upto + 1)
  {
    var cells' := cells[At(row, upto, |h| + 1) := cell];
    forall r: nat, c: nat | r < row && c <= |h|
      ensures CellFilled(cells', p, h, r, c)
    {
      assert CellFilled(cells, p, h, r, c);
      AtInjective(r, c, row, upto, |h| + 1);
    }
    forall c: nat | c < upto + 1
      ensures CellFilled(cells', p, h, row, c)
    {
      if c < upto {
        assert CellFilled(cells, p, h, row, c);
        AtInjective(row, c, row, upto, |h| + 1);
      }
    }
  }

  /** The recurrence that fills one cell is sound: it peels the last label of the pattern prefix. */
  lemma CellRecurrence(p: seq<string>, h: seq<string>, row: nat, c: nat)
    requires 0 < row <= |p| && c <= |h|
    ensures Matches(p[..row], h[..c]) <==>
            if p[row - 1] == "**" then
              Matches(p[..row - 1], h[..c]) || (c > 0 && Matches(p[..row], h[..c - 1]))
            else
              c > 0 && Matches(p[..row - 1], h[..c - 1]) && Accepts(p[row - 1], h[c - 1])
  {
    assert p[..row] == p[..row - 1] + [p[row - 1]];
    var hc := h[..c];
    if c > 0 { assert hc[..|hc| - 1] == h[..c - 1]; }
    if p[row - 1] == "**" {
      PeelDouble(p[..row - 1], hc);
    } else {
      PeelSingle(p[..row - 1], p[row - 1], hc);
    }
  }

  /** The cleared table, with its corner set, is a filled row 0. */
  lemma FirstRow(cells: seq<bool>, p: seq<string>, h: seq<string>)
    requires |cells| == (|p| + 1) * (|h| + 1)
    requires forall i | 0 <= i < |cells| :: cells[i] <==> i == 0
    ensures Filled(cells, p, h, 1, 0)
  {
    forall r: nat, c: nat | r < 1 && c <= |h|
      ensures CellFilled(cells, p, h, r, c)
    {
      AtInBounds(0, c, |p| + 1, |h| + 1);
    }
  }

  /** `dp_host_matches`: decides the glob relation, whatever the reused buffer held before. */
  method DpHostMatches(patternLabels: seq<string>, hostLabels: seq<string>, buf: MatchBuffer) returns (r: bool)
    modifies buf
    ensures r == Matches(patternLabels, hostLabels)
  {
    var p, h := patternLabels, hostLabels;
    var columns := |h| + 1;
    var needed := (|p| + 1) * columns;
    AtInBounds(0, 0, |p| + 1, columns);
    buf.Reset(needed);
    buf.cells := buf.cells[0 := true];
    FirstRow(buf.cells, p, h);

    for patternPos := 1 to |p| + 1
      invariant |buf.cells| == needed && Filled(buf.cells, p, h, patternPos, 0)
    {
      var current := p[patternPos - 1];
      for hostPos := 0 to |h| + 1
        invariant |buf.cells| == needed && Filled(buf.cells, p, h, patternPos, hostPos)
      {
        var index := At(patternPos, hostPos, columns);
        AtInBounds(patternPos, hostPos, |p| + 1, columns);
        CellRecurrence(p, h, patternPos, hostPos);
        assert CellFilled(buf.cells, p, h, patternPos - 1, hostPos);
        var cell := false;
        if current == "**" {
          var skipThisLabel := buf.cells[At(patternPos - 1, hostPos, columns)];
          assert hostPos > 0 ==> CellFilled(buf.cells, p, h, patternPos, hostPos - 1);
          var eatOneMoreLabel := hostPos > 0 && buf.cells[At(patternPos, hostPos - 1, columns)];
          cell := skipThisLabel || eatOneMoreLabel;
        } else if hostPos > 0 {
          assert CellFilled(buf.cells, p, h, patternPos - 1, hostPos - 1);
          var previousLabelsMatch := buf.cells[At(patternPos - 1, hostPos - 1, columns)];
          var thisLabelMatches := current == "*" || current == h[hostPos - 1];
          cell := previousLabelsMatch && thisLabelMatches;
        }
        FillNext(buf.cells, p, h, patternPos, hostPos, cell);
        buf.cells := buf.cells[index := cell];
      }
    }
    assert CellFilled(buf.cells, p, h, |p|, |h|);
    assert p[..|p|] == p && h[..|h|] == h;
    r := buf.cells[At(|p|, |h|, columns)];
  }
}
