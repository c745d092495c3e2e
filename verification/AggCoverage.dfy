/** The coverage of a pixel, and what 32-bit sums make of it (`calculate_alpha` of pixmapgraphics.mod/agg.h). */
module AggCoverage {
  import opened AggGeometry
  import Arithmetic
  import opened Int32

  /** An index into the gamma table. */
  type Level = a: nat | a < 256

  /** A level for every pixel. */
  type Shade = (int, int) -> Level

  /** The fold of the even-odd rule. */
  function Fold(cover: int): int {
    if cover % 512 > 256 then 512 - cover % 512 else cover % 512
  }

  /** `calculate_alpha`. */
  function Alpha(evenOdd: bool, area: int): (a: Level)
    ensures area == 0 ==> a == 0
  {
    var cover: int := Abs(area / 512);
    var folded := if evenOdd then Fold(cover) else cover;
    if folded > 255 then 255 else folded
  }

  /** It is the distance to the nearest even number of full heights. */
  lemma FoldNearest(cover: nat, m: int) returns (n: int)
    ensures 0 <= Fold(cover) <= Abs(cover - 512 * m) && Fold(cover) == Abs(cover - 512 * n)
  {
    var q, rest := cover / 512, cover % 512;
    assert cover == 512 * q + rest;
    n := if rest > 256 then q + 1 else q;
  }

  /**
   What the alpha of an area is: the floor of its height in 256ths, without its sign, and with the even-odd rule the
   distance of that to the nearest even number of full heights; at most 255.
   */
  lemma AlphaMeaning(area: int, m: int)
    ensures var cover: int := Abs(area / 512);
            && Alpha(false, area) == (if cover > 255 then 255 else cover)
            && Alpha(true, area) <= Abs(cover - 512 * m)
            && (Alpha(true, area) == 255 ==> Abs(cover - 512 * m) >= 255)
            && exists n: int :: Alpha(true, area) == if Abs(cover - 512 * n) > 255 then 255 else Abs(cover - 512 * n)
  {
    hide Fold;
    var n := FoldNearest(Abs(area / 512), m);
  }

  /** It sees neither the sign nor whole turns. */
  lemma FoldTurned(cover: int, turns: int)
    ensures Fold(Abs(cover)) == Fold(cover) && Fold(cover + 512 * turns) == Fold(cover)
  {
    var q, r := cover / 512, cover % 512;
    assert cover == 512 * q + r;
    Arithmetic.Quotient(cover + 512 * turns, 512, q + turns, r);
    if r == 0 {
      Arithmetic.Quotient(-cover, 512, -q, 0);
    } else {
      Arithmetic.Quotient(-cover, 512, -q - 1, 512 - r);
    }
  }

  /** Whole turns of a 32-bit area are whole turns of its height. */
  lemma HeightTurned(area: int) returns (turns: int)
    ensures area / 512 == AsInt32(area) / 512 + 512 * turns
    ensures IsInt32(area) ==> AsInt32(area) == area
    ensures !IsInt32(area) ==> Abs(area / 512) >= 255
  {
    SameWrapped(area);
    var m := Turns(area);
    turns := 0x4000 * m;
    var left := AsInt32(area);
    assert left == 512 * (left / 512) + left % 512;
    Arithmetic.Quotient(area, 512, left / 512 + 0x80_0000 * m, left % 512);
    assert area == 512 * (area / 512) + area % 512;
  }

  /**
   When an area does not fit 32 bits, its alpha is still right with the even-odd rule; with the non-zero rule it is
   right exactly when what is left of the area is at least 255 high.
   */
  lemma WhenOverflowing(evenOdd: bool, area: int)
    ensures Alpha(evenOdd, AsInt32(area)) == Alpha(evenOdd, area) <==>
            evenOdd || IsInt32(area) || Abs(AsInt32(area) / 512) >= 255
  {
    hide AsInt32;
    var turns := HeightTurned(area);
    if evenOdd {
      FoldTurned(area / 512, 0);
      FoldTurned(AsInt32(area) / 512, turns);
    }
  }

  /** The coverage of pixel (x, y): the cells to its left cover it fully, the cell at it in part. */
  function TrueAlpha(cs: seq<Cell>, evenOdd: bool, x: int, y: int): Level {
    Alpha(evenOdd, 512 * Left(cs, x, y) - Area(cs, x, y))
  }

  /** The same in 32-bit arithmetic. */
  function PixelAlpha(cs: seq<Cell>, evenOdd: bool, x: int, y: int): Level {
    Alpha(evenOdd, AsInt32(512 * Left(cs, x, y) - Area(cs, x, y)))
  }

  function TrueShade(cs: seq<Cell>, evenOdd: bool): Shade {
    (x: int, y: int) => TrueAlpha(cs, evenOdd, x, y)
  }

  function PixelShade(cs: seq<Cell>, evenOdd: bool): Shade {
    (x: int, y: int) => PixelAlpha(cs, evenOdd, x, y)
  }
}
