/** Interlaced row order: Appendix E of GIF89a, the writer's walk and the reader's walk. */
module GifInterlace {
  import opened Arithmetic

  /** Every step-th row from `from` on. */
  function Rows(from: nat, step: nat, height: nat): seq<nat>
    requires step > 0
    decreases height - from
  {
    if from >= height then [] else [from] + Rows(from + step, step, height)
  }

  /** The four groups of Appendix E. */
  function AppendixE(height: nat): seq<nat> {
    Rows(0, 8, height) + Rows(4, 8, height) + Rows(2, 4, height) + Rows(1, 2, height)
  }

  function StepOf(pass: nat): (step: nat)
    ensures step > 0
  {
    if pass <= 1 then 8 else if pass == 2 then 4 else 2
  }

  function StartOf(pass: nat): nat {
    if pass == 0 then 0 else if pass == 1 then 4 else if pass == 2 then 2 else 1
  }

  /** The rows still to come when `row` is the next candidate of pass `pass`. */
  function RowsFrom(pass: nat, row: nat, height: nat): seq<nat>
    requires pass <= 3
    decreases 3 - pass, height - row
  {
    if row < height then [row] + RowsFrom(pass, row + StepOf(pass), height)
    else if pass < 3 then RowsFrom(pass + 1, StartOf(pass + 1), height)
    else []
  }

  /** The rows that follow row `row` of pass `pass`. */
  function RowsAfter(pass: nat, row: nat, height: nat): seq<nat>
    requires pass <= 3
  {
    RowsFrom(pass, row + StepOf(pass), height)
  }

  lemma {:induction false} OnePass(pass: nat, row: nat, height: nat)
    requires pass <= 3
    ensures RowsFrom(pass, row, height) ==
            Rows(row, StepOf(pass), height) + if pass < 3 then RowsFrom(pass + 1, StartOf(pass + 1), height) else []
    decreases height - row
  {
    hide StepOf, StartOf;
    if row < height { OnePass(pass, row + StepOf(pass), height); }
  }

  /** The walk from row 0 of pass 0 is the order of Appendix E. */
  lemma WalkIsAppendixE(height: nat)
    ensures RowsFrom(0, 0, height) == AppendixE(height)
  {
    hide Rows, RowsFrom;
    OnePass(0, 0, height);
    OnePass(1, 4, height);
    OnePass(2, 2, height);
    OnePass(3, 1, height);
  }

  lemma NextInStep(r: nat, from: nat, step: nat)
    requires step == 2 || step == 4 || step == 8
    ensures (from + step) % step == from % step
    ensures from <= r && r % step == from % step ==> r == from || from + step <= r
  {
    OneMore(from, step);
    if r % step == from % step { SameRest(r, from, step); }
  }

  // ------------------------------------------------------------------ the order is a permutation

  lemma {:induction false} RowsIncrease(from: nat, step: nat, height: nat)
    requires step == 2 || step == 4 || step == 8
    ensures forall i :: 0 <= i < |Rows(from, step, height)| ==>
      from <= Rows(from, step, height)[i] < height && Rows(from, step, height)[i] % step == from % step
    ensures forall i, j :: 0 <= i < j < |Rows(from, step, height)| ==>
      Rows(from, step, height)[i] < Rows(from, step, height)[j]
    decreases height - from
  {
    if from < height {
      RowsIncrease(from + step, step, height);
      NextInStep(from, from, step);
    }
  }

  lemma {:induction false} RowsCover(from: nat, step: nat, height: nat, r: nat)
    requires step == 2 || step == 4 || step == 8
    requires from <= r < height && r % step == from % step
    ensures r in Rows(from, step, height)
    decreases height - from
  {
    NextInStep(r, from, step);
    if r != from { RowsCover(from + step, step, height, r); }
  }

  /** The group a row belongs to. */
  function GroupOf(row: nat): nat {
    if row % 8 == 0 then 0 else if row % 8 == 4 then 1 else if row % 4 == 2 then 2 else 3
  }

  function Group(g: nat, height: nat): seq<nat>
    requires g <= 3
  {
    Rows(StartOf(g), StepOf(g), height)
  }

  lemma EightfoldRest(r: nat)
    ensures r % 4 == r % 8 % 4 && r % 2 == r % 8 % 2 && (r % 8 == r || r % 8 + 8 <= r)
  {
    var q, s := r / 8, r % 8;
    Quotient(r, 4, 2 * q + s / 4, s % 4);
    Quotient(r, 2, 4 * q + s / 2, s % 2);
  }

  lemma GroupResidue(r: nat, g: nat)
    requires g <= 3
    ensures r % StepOf(g) == StartOf(g) % StepOf(g) <==> GroupOf(r) == g
    ensures GroupOf(r) == g ==> StartOf(g) <= r
  {
    EightfoldRest(r);
    var s := r % 8;
    assert s == 0 || s == 1 || s == 2 || s == 3 || s == 4 || s == 5 || s == 6 || s == 7;
    assert s == r || s + 8 <= r;
  }

  /** A group is strictly increasing and holds exactly the rows of the image that belong to it. */
  lemma GroupIsExact(g: nat, height: nat)
    requires g <= 3
    ensures forall i :: 0 <= i < |Group(g, height)| ==>
      GroupOf(Group(g, height)[i]) == g && Group(g, height)[i] < height
    ensures forall i, j :: 0 <= i < j < |Group(g, height)| ==> Group(g, height)[i] < Group(g, height)[j]
    ensures forall r :: 0 <= r < height && GroupOf(r) == g ==> r in Group(g, height)
  {
    hide Rows;
    RowsIncrease(StartOf(g), StepOf(g), height);
    var rows := Group(g, height);
    forall i | 0 <= i < |rows| ensures GroupOf(rows[i]) == g {
      GroupResidue(rows[i], g);
    }
    forall r | 0 <= r < height && GroupOf(r) == g ensures r in rows {
      GroupResidue(r, g);
      RowsCover(StartOf(g), StepOf(g), height, r);
    }
  }

  lemma {:induction false} RowsLength(from: nat, step: nat, height: nat)
    requires step == 2 || step == 4 || step == 8
    ensures |Rows(from, step, height)| == if from >= height then 0 else (height - from + step - 1) / step
    decreases height - from
  {
    if from < height {
      RowsLength(from + step, step, height);
      OneMore(height - from - 1, step);
      if height - from <= step { Quotient(height - from - 1, step, 0, height - from - 1); }
    }
  }

  lemma GroupRest(r: nat)
    requires r < 8
    ensures (r + 7) / 8 + (r + 3) / 8 + (r + 1) / 4 + r / 2 == r
    ensures r <= 4 <==> (r + 3) / 8 == 0
    ensures r <= 2 <==> (r + 1) / 4 == 0
    ensures r <= 1 <==> r / 2 == 0
  {
    assert r == 0 || r == 1 || r == 2 || r == 3 || r == 4 || r == 5 || r == 6 || r == 7;
  }

  /** The sizes of the four groups add up to the height. */
  lemma GroupSizes(height: nat, q: nat)
    requires 8 * q <= height < 8 * q + 8
    ensures (height + 7) / 8 + (if height <= 4 then 0 else (height + 3) / 8)
            + (if height <= 2 then 0 else (height + 1) / 4) + (if height <= 1 then 0 else height / 2) == height
  {
    var r := height - 8 * q;
    GroupRest(r);
    Quotient(height + 7, 8, q + (r + 7) / 8, (r + 7) % 8);
    Quotient(height + 3, 8, q + (r + 3) / 8, (r + 3) % 8);
    Quotient(height + 1, 4, 2 * q + (r + 1) / 4, (r + 1) % 4);
    Quotient(height, 2, 4 * q + r / 2, r % 2);
  }

  lemma AppendixELength(height: nat)
    ensures |AppendixE(height)| == height
  {
    hide Rows;
    RowsLength(0, 8, height);
    RowsLength(4, 8, height);
    RowsLength(2, 4, height);
    RowsLength(1, 2, height);
    GroupSizes(height, height / 8);
  }

  ghost predicate IsPermutationOfRows(rows: seq<nat>, height: nat) {
    && (forall i :: 0 <= i < |rows| ==> rows[i] < height)
    && (forall i, j :: 0 <= i < j < |rows| ==> rows[i] != rows[j])
    && (forall r :: 0 <= r < height ==> r in rows)
  }

  /** Distinctness of a concatenation of row lists from different groups. */
  lemma Join(a: seq<nat>, b: seq<nat>, height: nat, g: nat, h: nat)
    requires g < h
    requires forall i :: 0 <= i < |a| ==> GroupOf(a[i]) <= g && a[i] < height
    requires forall i :: 0 <= i < |b| ==> GroupOf(b[i]) == h && b[i] < height
    requires forall i, j :: 0 <= i < j < |a| ==> a[i] != a[j]
    requires forall i, j :: 0 <= i < j < |b| ==> b[i] < b[j]
    ensures forall i :: 0 <= i < |a + b| ==> GroupOf((a + b)[i]) <= h && (a + b)[i] < height
    ensures forall i, j :: 0 <= i < j < |a + b| ==> (a + b)[i] != (a + b)[j]
  {
  }

  /** Appendix E visits every row of an image of any height exactly once. */
  lemma AppendixEIsPermutation(height: nat)
    ensures IsPermutationOfRows(AppendixE(height), height)
  {
    GroupIsExact(0, height);
    GroupIsExact(1, height);
    GroupIsExact(2, height);
    GroupIsExact(3, height);
    var a, b, c, d := Group(0, height), Group(1, height), Group(2, height), Group(3, height);
    Join(a, b, height, 0, 1);
    Join(a + b, c, height, 1, 2);
    Join(a + b + c, d, height, 2, 3);
    forall r | 0 <= r < height ensures r in AppendixE(height) {
      assert r in Group(GroupOf(r), height);
    }
  }

  /** Rows come group by group, and within a group from the top down. */
  lemma GroupOrder(height: nat, i: nat, j: nat)
    requires i < j < height
    ensures |AppendixE(height)| == height
    ensures var a, b := AppendixE(height)[i], AppendixE(height)[j];
            GroupOf(a) < GroupOf(b) || (GroupOf(a) == GroupOf(b) && a < b)
  {
    hide Rows, GroupOf;
    AppendixELength(height);
    GroupIsExact(0, height);
    GroupIsExact(1, height);
    GroupIsExact(2, height);
    GroupIsExact(3, height);
    assert AppendixE(height) == Group(0, height) + Group(1, height) + Group(2, height) + Group(3, height);
  }

  lemma GroupRows(r: nat)
    ensures GroupOf(r) == 0 <==> r % 8 == 0
    ensures GroupOf(r) == 1 <==> r % 8 == 4
    ensures GroupOf(r) <= 1 <==> r % 4 == 0
    ensures GroupOf(r) == 2 <==> r % 4 == 2
    ensures GroupOf(r) == 3 <==> r % 2 == 1
    ensures GroupOf(r) <= 3
  {
    EightfoldRest(r);
  }

  lemma GroupNumbers(a: nat, b: nat)
    requires GroupOf(a) < GroupOf(b) || (GroupOf(a) == GroupOf(b) && a < b)
    ensures || (a % 8 == 0 && b % 8 != 0) || (a % 8 == 4 && b % 4 != 0) || (a % 4 == 2 && b % 2 == 1)
            || (a < b && (a % 8 == b % 8 || (a % 4 == b % 4 == 2) || (a % 2 == b % 2 == 1)))
  {
    hide GroupOf;
    GroupRows(a);
    GroupRows(b);
  }

  /**
   The order in numbers: first the rows divisible by 8, then those 4 behind them, then the other even rows, then the
   odd ones, and within each of these groups from the top down.
   */
  lemma AppendixEOrder(height: nat, i: nat, j: nat)
    requires i < j < height
    ensures |AppendixE(height)| == height
    ensures var a, b := AppendixE(height)[i], AppendixE(height)[j];
            || (a % 8 == 0 && b % 8 != 0) || (a % 8 == 4 && b % 4 != 0) || (a % 4 == 2 && b % 2 == 1)
            || (a < b && (a % 8 == b % 8 || (a % 4 == b % 4 == 2) || (a % 2 == b % 2 == 1)))
  {
    hide AppendixE, GroupOf;
    GroupOrder(height, i, j);
    GroupNumbers(AppendixE(height)[i], AppendixE(height)[j]);
  }

  lemma RowsOfEight(height: nat)
    requires height == 8
    ensures AppendixE(height) == [0, 4, 2, 6, 1, 3, 5, 7]
  {
    assert Rows(0, 8, height) == [0] && Rows(4, 8, height) == [4] && Rows(2, 4, height) == [2, 6];
    assert Rows(1, 2, height) == [1] + ([3] + ([5] + ([7] + [])));
  }

  // ------------------------------------------------------------------ the writer's walk

  /** The `switch (pass)` of `putImage`, repeated while the candidate row lies below the image. */
  method NextWriterRow(pass0: nat, cury0: nat, height: nat) returns (pass: nat, cury: nat)
    requires pass0 <= 3
    ensures pass <= 3
    ensures RowsAfter(pass0, cury0, height) == if cury >= height then [] else [cury] + RowsAfter(pass, cury, height)
  {
    pass, cury := pass0, cury0;
    var again := true;
    while again
      invariant pass <= 3
      invariant again ==> RowsAfter(pass, cury, height) == RowsAfter(pass0, cury0, height)
      invariant !again ==> RowsFrom(pass, cury, height) == RowsAfter(pass0, cury0, height)
      invariant !again ==> pass == 3 || cury < height
      decreases again, 3 - pass, if cury < height then height - cury else 0
    {
      match pass {
        case 0 =>
          cury := cury + 8;
          if cury >= height { pass := pass + 1; cury := 4; }
        case 1 =>
          cury := cury + 8;
          if cury >= height { pass := pass + 1; cury := 2; }
        case 2 =>
          cury := cury + 4;
          if cury >= height { pass := pass + 1; cury := 1; }
        case _ =>
          cury := cury + 2;
      }
      again := pass < 3 && cury >= height;
    }
  }

  // ------------------------------------------------------------------ the reader's walk

  /** The image heights at which the reader's test `ypos > height` lets a row equal to the height through. */
  predicate ReaderOvershoots(height: nat) {
    height == 2 || height == 4
  }

  /**
   The row update of `readImage`. It follows the same order, except that from row 0 of an image of
   height 2 or 4 it steps to the row just below the image.
   */
  method NextReaderRow(pass0: nat, ypos0: nat, step0: nat, height: nat) returns (pass: nat, ypos: nat, step: nat)
    requires pass0 <= 3 && step0 == StepOf(pass0) && StartOf(pass0) <= ypos0 < height
    ensures RowsAfter(pass0, ypos0, height) != [] ==>
      if ReaderOvershoots(height) && pass0 == 0 then ypos == height
      else pass <= 3 && step == StepOf(pass) && StartOf(pass) <= ypos < height
           && RowsAfter(pass0, ypos0, height) == [ypos] + RowsAfter(pass, ypos, height)
  {
    pass, step, ypos := pass0, step0, ypos0 + step0;
    if ypos >= height {
      var again := true;
      while again
        invariant pass0 <= pass <= 4 && step == if pass <= 3 then StepOf(pass) else 1
        invariant pass == pass0 ==> again
        invariant pass0 < pass <= 3 ==> ypos == StartOf(pass)
        invariant again ==> pass <= 3 && ypos >= height
        invariant forall p :: pass0 < p < pass ==> StartOf(p) > height
        invariant again && pass > pass0 ==> ypos > height
        invariant !again ==> ypos <= height
        invariant if pass <= 3 then RowsFrom(pass, ypos, height) == RowsAfter(pass0, ypos0, height)
                  else RowsAfter(pass0, ypos0, height) == []
        decreases again, 5 - pass
      {
        if pass > 0 { step := step / 2; }
        pass := pass + 1;
        ypos := step / 2;
        again := ypos > height;
      }
    }
  }
}
