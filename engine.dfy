/** Option type, used for the source's `number | null` results. */
module Wrappers {
  datatype Option<+T> = None | Some(value: T)
}

/**
 * The pattern engine of the pattern tester: the 3x3 grid, the "skipped middle
 * dot" rule and the incremental append rule that turns the dots a pointer
 * touches into an unlock pattern.
 *
 * Dots are numbered 0..8 from the top-left corner, row = id / 3 and
 * col = id % 3.  The middle-dot formulas are kept exactly as the program has
 * them; GridMiddle below is the geometric midpoint, and the lemmas at the end
 * of the module say exactly where the two agree.
 */
module PatternEngine {
  import opened Wrappers

  /** Number of valid Android patterns of length 4 to 9. */
  const TotalPatterns: nat := 389112

  /** Number of dots on the grid; a pointer resolves to a dot below this. */
  const GridSize: nat := 9

  type Pattern = seq<nat>

  function Row(d: nat): (r: nat) { d / 3 }
  function Col(d: nat): (c: nat) { d % 3 }

  function Abs(x: int): (n: nat) { if x < 0 then -x else x }

  /** Same column, two rows apart. */
  predicate VerticalGap(a: nat, b: nat) {
    Abs(Row(b) - Row(a)) == 2 && Col(a) == Col(b)
  }

  /** Same row, two columns apart. */
  predicate HorizontalGap(a: nat, b: nat) {
    Abs(Col(b) - Col(a)) == 2 && Row(a) == Row(b)
  }

  /** Two rows and two columns apart. */
  predicate DiagonalGap(a: nat, b: nat) {
    Abs(Row(b) - Row(a)) == 2 && Abs(Col(b) - Col(a)) == 2
  }

  /**
   * The dot the program auto-includes between `a` and `b`, exactly as written:
   * the vertical case yields row(a) + 1 + 3 * col(a) and the horizontal case
   * 3 * row(a) + col(a) + 1, whichever way the stroke goes.
   */
  function MiddleDot(a: nat, b: nat): (r: Option<int>)
    ensures r.Some? ==> r.value >= 0
    ensures r.Some? <==> VerticalGap(a, b) || HorizontalGap(a, b) || DiagonalGap(a, b)
    ensures DiagonalGap(a, b) ==> r == Some(4)
    ensures r.Some? ==> r.value != b
    ensures a <= GridSize && b < GridSize && r.Some? ==> r.value <= GridSize
  {
    var row1, col1, row2, col2 := Row(a), Col(a), Row(b), Col(b);
    if Abs(row2 - row1) == 2 && col1 == col2 then
      Some(row1 + 1 + col1 * 3)
    else if Abs(col2 - col1) == 2 && row1 == row2 then
      Some(row1 * 3 + col1 + 1)
    else if Abs(row2 - row1) == 2 && Abs(col2 - col1) == 2 then
      Some(4)
    else
      None
  }

  /** No dot occurs twice. */
  predicate Distinct(p: Pattern) {
    forall i, j :: 0 <= i < j < |p| ==> p[i] != p[j]
  }

  /** Every entry is a grid dot or the one off-grid value 9 that MiddleDot can yield. */
  predicate InRange(p: Pattern) {
    forall i :: 0 <= i < |p| ==> p[i] <= GridSize
  }

  function Last(p: Pattern): (d: nat)
    requires p != []
  {
    p[|p| - 1]
  }

  /**
   * addDotToPattern: a dot already in the pattern is ignored; otherwise the
   * skipped middle dot, when there is one and it is not yet used, is appended
   * first, and then the new dot.
   */
  function AddDot(p: Pattern, d: nat): (r: Pattern)
    ensures d in p ==> r == p
    ensures d !in p ==> |p| < |r| <= |p| + 2 && r[..|p|] == p && Last(r) == d
    ensures d !in p && |r| == |p| + 2 ==>
              p != [] && MiddleDot(Last(p), d).Some? && r[|p|] == MiddleDot(Last(p), d).value && r[|p|] !in p
    ensures d !in p && p != [] && MiddleDot(Last(p), d).Some? && MiddleDot(Last(p), d).value !in p ==>
              |r| == |p| + 2
  {
    if d in p then p
    else
      var withMiddle :=
        if p != [] && MiddleDot(Last(p), d).Some? && MiddleDot(Last(p), d).value !in p
        then p + [MiddleDot(Last(p), d).value]
        else p;
      withMiddle + [d]
  }

  /**
   * The append rule never repeats a dot, since the middle is added only when
   * unused and is never the new dot, and keeps entries within 0..9.
   */
  lemma AddDotKeepsDistinct(p: Pattern, d: nat)
    ensures Distinct(p) ==> Distinct(AddDot(p, d))
    ensures InRange(p) && d < GridSize ==> InRange(AddDot(p, d))
  {
    var r := AddDot(p, d);
    if d !in p {
      assert r[..|p|] == p;
      if |r| == |p| + 2 {
        assert r == p + [r[|p|], d];
      } else {
        assert r == p + [d];
      }
    }
  }

  /**
   * The pattern a stroke produces: `moves` are the dots the pointer passes
   * over after `p`, each handed to AddDot in turn.
   */
  function Draw(p: Pattern, moves: seq<nat>): (r: Pattern)
    decreases |moves|
  {
    if moves == [] then p else AddDot(Draw(p, moves[..|moves| - 1]), moves[|moves| - 1])
  }

  /** A stroke that starts on a dot never repeats a dot and stays within 0..9. */
  lemma {:induction false} DrawDistinct(start: nat, moves: seq<nat>)
    requires start < GridSize
    requires forall i :: 0 <= i < |moves| ==> moves[i] < GridSize
    ensures Distinct(Draw([start], moves)) && InRange(Draw([start], moves))
    decreases |moves|
  {
    if moves != [] {
      DrawDistinct(start, moves[..|moves| - 1]);
      AddDotKeepsDistinct(Draw([start], moves[..|moves| - 1]), moves[|moves| - 1]);
    }
  }

  /** Drawing only ever extends the pattern: the start is a prefix of the result. */
  lemma {:induction false} DrawExtends(p: Pattern, moves: seq<nat>)
    ensures |p| <= |Draw(p, moves)| && Draw(p, moves)[..|p|] == p
    ensures |Draw(p, moves)| <= |p| + 2 * |moves|
    decreases |moves|
  {
    if moves != [] {
      var q := Draw(p, moves[..|moves| - 1]);
      DrawExtends(p, moves[..|moves| - 1]);
      assert AddDot(q, moves[|moves| - 1])[..|q|] == q;
      assert AddDot(q, moves[|moves| - 1])[..|p|] == q[..|p|];
    }
  }

  /** Every dot the pointer passed over ends up in the pattern. */
  lemma {:induction false} DrawContainsMoves(p: Pattern, moves: seq<nat>)
    ensures forall i :: 0 <= i < |moves| ==> moves[i] in Draw(p, moves)
    ensures forall x :: x in p ==> x in Draw(p, moves)
    decreases |moves|
  {
    if moves != [] {
      var init := moves[..|moves| - 1];
      var q := Draw(p, init);
      DrawContainsMoves(p, init);
      var r := AddDot(q, moves[|moves| - 1]);
      assert forall x :: x in q ==> x in r by {
        if moves[|moves| - 1] !in q {
          assert r[..|q|] == q;
        }
      }
      forall i | 0 <= i < |moves|
        ensures moves[i] in r
      {
        if i < |moves| - 1 {
          assert moves[i] == init[i];
        } else if moves[i] !in q {
          assert Last(r) == moves[i];
        }
      }
    }
  }

  /**
   * Geometric reference: the grid point halfway between two distinct dots,
   * when that point is itself a dot.
   */
  function GridMiddle(a: nat, b: nat): (r: Option<int>) {
    var rows, cols := Row(a) + Row(b), Col(a) + Col(b);
    if a != b && Even(rows) && Even(cols) then Some(3 * Half(rows) + Half(cols)) else None
  }

  predicate Even(n: nat) { n % 2 == 0 }

  function Half(n: nat): (h: nat) { n / 2 }

  /** Row and column of a grid dot, without division. */
  lemma Coordinates(d: nat)
    requires d < GridSize
    ensures d == 3 * Row(d) + Col(d)
    ensures Row(d) == (if d < 3 then 0 else if d < 6 then 1 else 2)
  {
  }

  /** On the grid, MiddleDot finds a middle exactly when the geometric midpoint is a dot. */
  lemma MiddleDotDetectsGaps(a: nat, b: nat)
    requires a < GridSize && b < GridSize
    ensures MiddleDot(a, b).Some? <==> GridMiddle(a, b).Some?
  {
    Coordinates(a);
    Coordinates(b);
  }

  /**
   * The strokes on which the program's middle dot is the geometric one:
   * diagonals through the centre, left-to-right rows, and the two vertical
   * strokes on which the transposed formula happens to coincide (1 -> 7 and
   * 6 -> 0).  Every other gap stroke gets a different dot.
   */
  lemma MiddleDotAgreesWithGrid(a: nat, b: nat)
    requires a < GridSize && b < GridSize
    ensures MiddleDot(a, b) == GridMiddle(a, b) <==>
              !(HorizontalGap(a, b) && Col(b) < Col(a)) &&
              !(VerticalGap(a, b) && a != 1 && a != 6)
  {
    MiddleDotDetectsGaps(a, b);
    if VerticalGap(a, b) {
      MiddleDotVertical(a, b);
    } else if HorizontalGap(a, b) {
      if Col(b) < Col(a) {
        MiddleDotRightToLeft(a, b);
      } else {
        MiddleDotLeftToRight(a, b);
      }
    } else if DiagonalGap(a, b) {
      MiddleDotDiagonal(a, b);
    }
  }

  /** The program's middle of a vertical gap, as a formula in the start dot's coordinates. */
  lemma MiddleDotVerticalValue(a: nat, b: nat)
    requires VerticalGap(a, b)
    ensures MiddleDot(a, b) == Some(Row(a) + 1 + 3 * Col(a))
  {
  }

  /** The program's middle of a horizontal gap, as a formula in the start dot's coordinates. */
  lemma MiddleDotHorizontalValue(a: nat, b: nat)
    requires HorizontalGap(a, b)
    ensures MiddleDot(a, b) == Some(3 * Row(a) + Col(a) + 1)
  {
  }

  /** A vertical gap on the grid joins the top and bottom rows of one column. */
  lemma VerticalCoords(a: nat, b: nat)
    requires a < GridSize && b < GridSize
    requires VerticalGap(a, b)
    ensures a != b && Col(a) == Col(b) && Col(a) < 3 && Row(a) + Row(b) == 2
    ensures a == 3 * Row(a) + Col(a) && (Row(a) == 0 || Row(a) == 2)
    ensures a < b <==> Row(a) == 0
  {
    Coordinates(a);
    Coordinates(b);
  }

  /** A horizontal gap on the grid joins the left and right columns of one row. */
  lemma HorizontalCoords(a: nat, b: nat)
    requires a < GridSize && b < GridSize
    requires HorizontalGap(a, b)
    ensures a != b && Row(a) == Row(b) && Col(a) + Col(b) == 2 && (Col(a) == 0 || Col(a) == 2)
    ensures a == 3 * Row(a) + Col(a)
  {
    Coordinates(a);
    Coordinates(b);
  }

  /** A diagonal gap on the grid joins opposite corners. */
  lemma DiagonalCoords(a: nat, b: nat)
    requires a < GridSize && b < GridSize
    requires DiagonalGap(a, b)
    ensures a != b && Row(a) + Row(b) == 2 && Col(a) + Col(b) == 2
  {
    Coordinates(a);
    Coordinates(b);
  }

  lemma Halves(n: nat)
    ensures Even(n + n) && Half(n + n) == n
    ensures Even(2) && Half(2) == 1
  {
  }

  /** The geometric middle of two dots of one column, top and bottom row. */
  lemma GridMiddleColumn(a: nat, b: nat)
    requires a != b && Col(a) == Col(b) && Row(a) + Row(b) == 2
    ensures GridMiddle(a, b) == Some(3 + Col(a))
  {
    Halves(Col(a));
  }

  /** The geometric middle of two dots of one row, left and right column. */
  lemma GridMiddleRow(a: nat, b: nat)
    requires a != b && Row(a) == Row(b) && Col(a) + Col(b) == 2
    ensures GridMiddle(a, b) == Some(3 * Row(a) + 1)
  {
    Halves(Row(a));
  }

  /** The geometric middle of two opposite corners is the centre. */
  lemma GridMiddleCorners(a: nat, b: nat)
    requires a != b && Row(a) + Row(b) == 2 && Col(a) + Col(b) == 2
    ensures GridMiddle(a, b) == Some(4)
  {
    Halves(0);
  }

  /** Vertical strokes: only 1 -> 7 and 6 -> 0 get the geometric middle. */
  lemma MiddleDotVertical(a: nat, b: nat)
    requires a < GridSize && b < GridSize
    requires VerticalGap(a, b)
    ensures GridMiddle(a, b) == Some(if a < b then a + 3 else a - 3)
    ensures MiddleDot(a, b) == GridMiddle(a, b) <==> a == 1 || a == 6
  {
    VerticalCoords(a, b);
    MiddleDotVerticalValue(a, b);
    GridMiddleColumn(a, b);
  }

  /** Diagonal strokes pass through the centre, as Android does. */
  lemma MiddleDotDiagonal(a: nat, b: nat)
    requires a < GridSize && b < GridSize
    requires DiagonalGap(a, b)
    ensures MiddleDot(a, b) == Some(4) && GridMiddle(a, b) == Some(4)
  {
    DiagonalCoords(a, b);
    GridMiddleCorners(a, b);
  }

  /** The right-to-left row stroke takes the dot to the right of its start. */
  lemma MiddleDotRightToLeft(a: nat, b: nat)
    requires a < GridSize && b < GridSize
    requires HorizontalGap(a, b) && Col(b) < Col(a)
    ensures MiddleDot(a, b) == Some(a + 1) && GridMiddle(a, b) == Some(a - 1)
  {
    HorizontalCoords(a, b);
    MiddleDotHorizontalValue(a, b);
    GridMiddleRow(a, b);
  }

  /** The left-to-right row stroke takes the next dot, as Android does. */
  lemma MiddleDotLeftToRight(a: nat, b: nat)
    requires a < GridSize && b < GridSize
    requires HorizontalGap(a, b) && Col(a) < Col(b)
    ensures MiddleDot(a, b) == Some(a + 1) && GridMiddle(a, b) == Some(a + 1)
  {
    HorizontalCoords(a, b);
    MiddleDotHorizontalValue(a, b);
    GridMiddleRow(a, b);
  }

  /** The behaviour on concrete strokes from the top-left corner. */
  lemma MiddleDotExamples()
    ensures MiddleDot(0, 2) == Some(1) && MiddleDot(0, 8) == Some(4) && MiddleDot(0, 1) == None
    ensures MiddleDot(0, 6) == Some(1) && GridMiddle(0, 6) == Some(3)
  {
    assert Row(0) == 0 && Col(0) == 0 && Row(1) == 0 && Col(1) == 1;
    assert Row(2) == 0 && Col(2) == 2 && Row(6) == 2 && Col(6) == 0;
    assert Row(8) == 2 && Col(8) == 2;
  }

  /** Strokes the wrong way: 2 -> 0 takes 3, and 8 -> 2 and 8 -> 6 leave the grid. */
  lemma MiddleDotBackwardExamples()
    ensures MiddleDot(2, 0) == Some(3)
    ensures MiddleDot(8, 2) == Some(9) && MiddleDot(8, 6) == Some(9)
  {
    assert Row(0) == 0 && Col(0) == 0 && Row(2) == 0 && Col(2) == 2;
    assert Row(6) == 2 && Col(6) == 0 && Row(8) == 2 && Col(8) == 2;
  }

  /** The unused middle between the last dot and a new dot goes in before it. */
  lemma AddDotInserts(p: Pattern, d: nat, m: nat)
    requires d !in p && p != [] && MiddleDot(Last(p), d) == Some(m as int) && m !in p
    ensures AddDot(p, d) == p + [m, d]
  {
  }

  /** With no unused middle, the new dot alone is appended. */
  lemma AddDotAppends(p: Pattern, d: nat)
    requires d !in p
    requires p == [] || MiddleDot(Last(p), d).None? || MiddleDot(Last(p), d).value in p
    ensures AddDot(p, d) == p + [d]
  {
  }

  /**
   * The stroke 8, 2, 1, 0, 3, 4, 5, 7, 6, one lemma per step.  The step
   * 8 -> 2 inserts the off-grid 9, and no later step skips a dot, so the
   * pattern ends with ten entries, one more than the grid has dots.
   */
  lemma OffGridStep2()
    ensures AddDot([8], 2) == [8, 9, 2]
  {
    assert MiddleDot(8, 2) == Some(9) by {
      assert Row(8) == 2 && Col(8) == 2 && Row(2) == 0 && Col(2) == 2;
    }
    OneDotInserts(8, 2, 9);
  }

  lemma OffGridStep3()
    ensures AddDot([8, 9, 2], 1) == [8, 9, 2, 1]
  {
    assert MiddleDot(2, 1) == None by {
      assert Row(2) == 0 && Col(2) == 2 && Row(1) == 0 && Col(1) == 1;
    }
    AddDotAppends([8, 9, 2], 1);
  }

  lemma OffGridStep4()
    ensures AddDot([8, 9, 2, 1], 0) == [8, 9, 2, 1, 0]
  {
    assert MiddleDot(1, 0) == None by {
      assert Row(1) == 0 && Col(1) == 1 && Row(0) == 0 && Col(0) == 0;
    }
    AddDotAppends([8, 9, 2, 1], 0);
  }

  lemma OffGridStep5()
    ensures AddDot([8, 9, 2, 1, 0], 3) == [8, 9, 2, 1, 0, 3]
  {
    assert MiddleDot(0, 3) == None by {
      assert Row(0) == 0 && Col(0) == 0 && Row(3) == 1 && Col(3) == 0;
    }
    AddDotAppends([8, 9, 2, 1, 0], 3);
  }

  lemma OffGridStep6()
    ensures AddDot([8, 9, 2, 1, 0, 3], 4) == [8, 9, 2, 1, 0, 3, 4]
  {
    assert MiddleDot(3, 4) == None by {
      assert Row(3) == 1 && Col(3) == 0 && Row(4) == 1 && Col(4) == 1;
    }
    AddDotAppends([8, 9, 2, 1, 0, 3], 4);
  }

  lemma OffGridStep7()
    ensures AddDot([8, 9, 2, 1, 0, 3, 4], 5) == [8, 9, 2, 1, 0, 3, 4, 5]
  {
    assert MiddleDot(4, 5) == None by {
      assert Row(4) == 1 && Col(4) == 1 && Row(5) == 1 && Col(5) == 2;
    }
    AddDotAppends([8, 9, 2, 1, 0, 3, 4], 5);
  }

  lemma OffGridStep8()
    ensures AddDot([8, 9, 2, 1, 0, 3, 4, 5], 7) == [8, 9, 2, 1, 0, 3, 4, 5, 7]
  {
    assert MiddleDot(5, 7) == None by {
      assert Row(5) == 1 && Col(5) == 2 && Row(7) == 2 && Col(7) == 1;
    }
    AddDotAppends([8, 9, 2, 1, 0, 3, 4, 5], 7);
  }

  lemma OffGridStep9()
    ensures AddDot([8, 9, 2, 1, 0, 3, 4, 5, 7], 6) == [8, 9, 2, 1, 0, 3, 4, 5, 7, 6]
    ensures |AddDot([8, 9, 2, 1, 0, 3, 4, 5, 7], 6)| == GridSize + 1
  {
    assert MiddleDot(7, 6) == None by {
      assert Row(7) == 2 && Col(7) == 1 && Row(6) == 2 && Col(6) == 0;
    }
    AddDotAppends([8, 9, 2, 1, 0, 3, 4, 5, 7], 6);
  }

  /** From a one-dot pattern, an unused middle goes in before the new dot. */
  lemma OneDotInserts(a: nat, d: nat, m: nat)
    requires a != d && MiddleDot(a, d) == Some(m as int) && m != a
    ensures AddDot([a], d) == [a, m, d]
  {
    assert Last([a]) == a;
    AddDotInserts([a], d, m);
  }

  /** From a one-dot pattern, a dot with no middle is appended alone. */
  lemma OneDotAppends(a: nat, d: nat)
    requires a != d && MiddleDot(a, d).None?
    ensures AddDot([a], d) == [a, d]
  {
    assert Last([a]) == a;
    AddDotAppends([a], d);
  }

  /** From a two-dot pattern, a middle that is one of the two is not added again. */
  lemma TwoDotsAppend(a: nat, b: nat, d: nat)
    requires d != a && d != b
    requires MiddleDot(b, d).None? || MiddleDot(b, d).value == a || MiddleDot(b, d).value == b
    ensures AddDot([a, b], d) == [a, b, d]
  {
    assert Last([a, b]) == b;
    AddDotAppends([a, b], d);
  }

  /** A row stroke 0 -> 2 auto-includes 1. */
  lemma AddDotSkipsRow()
    ensures AddDot([0], 2) == [0, 1, 2]
  {
    MiddleDotExamples();
    OneDotInserts(0, 2, 1);
  }

  /** A diagonal stroke 0 -> 8 auto-includes the centre. */
  lemma AddDotSkipsCentre()
    ensures AddDot([0], 8) == [0, 4, 8]
  {
    MiddleDotExamples();
    OneDotInserts(0, 8, 4);
  }

  /** A column stroke 0 -> 6 auto-includes 1, where the geometric middle is 3. */
  lemma AddDotSkipsColumn()
    ensures AddDot([0], 6) == [0, 1, 6]
  {
    MiddleDotExamples();
    OneDotInserts(0, 6, 1);
  }

  /** An adjacent dot is appended alone. */
  lemma AddDotAdjacent()
    ensures AddDot([0], 1) == [0, 1]
  {
    MiddleDotExamples();
    OneDotAppends(0, 1);
  }

  /** A middle that is already in the pattern is not included again. */
  lemma AddDotMiddleUsed()
    ensures AddDot([1, 0], 2) == [1, 0, 2]
  {
    MiddleDotExamples();
    TwoDotsAppend(1, 0, 2);
  }

  /** A dot that is already in the pattern changes nothing. */
  lemma AddDotRepeated()
    ensures AddDot([0, 1], 0) == [0, 1]
  {
  }
}
