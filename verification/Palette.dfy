/** The 256-colour fallback derivation (`cyclops-theme`). */
module Palette {

  type Channel = v: int | 0 <= v < 256

  datatype Rgb = Rgb(r: Channel, g: Channel, b: Channel)

  const LEVELS: seq<Channel> := [0, 95, 135, 175, 215, 255]

  // The square of a natural number, by its recurrence.
  function Sq(n: nat): nat {
    if n == 0 then 0 else Sq(n - 1) + 2 * n - 1
  }

  function Abs(x: int): nat { if x < 0 then -x else x }

  function Square(x: int): nat { Sq(Abs(x)) }

  lemma {:induction false} SquareIsProduct(x: int)
    ensures Square(x) == x * x
    decreases x < 0, Abs(x)
  {
    if x < 0 {
      SquareIsProduct(-x);
    } else if x > 0 {
      SquareIsProduct(x - 1);
      assert x * x == (x - 1) * (x - 1) + 2 * x - 1;
    }
  }

  lemma {:induction false} SqGrows(a: nat, b: nat)
    requires a <= b
    ensures Sq(a) <= Sq(b) && (a < b ==> Sq(a) < Sq(b))
    decreases b
  {
    if a < b {
      SqGrows(a, b - 1);
    }
  }

  function Distance(a: Rgb, b: Rgb): nat {
    Square(a.r - b.r) + Square(a.g - b.g) + Square(a.b - b.b)
  }

  // ---------------------------------------------------------------------
  // The xterm palette above the sixteen base colours
  // ---------------------------------------------------------------------

  predicate Derivable(index: int) { 16 <= index <= 255 }

  function Cube(r: nat, g: nat, b: nat): Rgb
    requires r < 6 && g < 6 && b < 6
  {
    Rgb(LEVELS[r], LEVELS[g], LEVELS[b])
  }

  function Gray(i: nat): Rgb
    requires i < 24
  {
    Rgb(8 + 10 * i, 8 + 10 * i, 8 + 10 * i)
  }

  // 16..=231 is the 6x6x6 cube, 232..=255 the gray ramp.
  function Colour(index: int): Rgb
    requires Derivable(index)
  {
    if index < 232 then Cube((index - 16) / 36, (index - 16) / 6 % 6, (index - 16) % 6) else Gray(index - 232)
  }

  // THEOREM. The candidates are the xterm palette: steps of forty above a first
  // one of ninety-five, red the most significant, then the greys from eight in
  // steps of ten.
  lemma ColoursExactly(r: nat, g: nat, b: nat, i: nat)
    requires r < 6 && g < 6 && b < 6 && i < 24
    ensures Colour(16 + 36 * r + 6 * g + b) == Rgb(Step(r), Step(g), Step(b))
    ensures Colour(232 + i) == Rgb(8 + 10 * i, 8 + 10 * i, 8 + 10 * i)
  {
    var index := 16 + 36 * r + 6 * g + b;
    assert (index - 16) / 36 == r && (index - 16) / 6 == 6 * r + g && (index - 16) % 6 == b;
  }

  ghost function Step(level: nat): Channel
    requires level < 6
  {
    if level == 0 then 0 else 55 + 40 * level
  }

  lemma DistanceExactly(a: Rgb, b: Rgb)
    ensures Distance(a, b) == (a.r - b.r) * (a.r - b.r) + (a.g - b.g) * (a.g - b.g) + (a.b - b.b) * (a.b - b.b)
  {
    SquareIsProduct(a.r - b.r);
    SquareIsProduct(a.g - b.g);
    SquareIsProduct(a.b - b.b);
  }

  // The lowest index of all those nearest to the colour.
  ghost predicate LeastNearest(rgb: Rgb, index: int) {
    && Derivable(index)
    && forall j :: Derivable(j) ==>
         && Distance(rgb, Colour(index)) <= Distance(rgb, Colour(j))
         && (j < index ==> Distance(rgb, Colour(index)) < Distance(rgb, Colour(j)))
  }

  // ---------------------------------------------------------------------
  // The derivation
  // ---------------------------------------------------------------------

  // How far a channel value is from a level.
  function Gap(v: Channel, level: nat): nat
    requires level < 6
  {
    Abs(v - LEVELS[level])
  }

  // The first level nearest to a channel value.
  ghost predicate NearestLevel(v: Channel, best: int) {
    && 0 <= best < 6
    && forall j :: 0 <= j < 6 ==> Gap(v, best) <= Gap(v, j) && (j < best ==> Gap(v, best) < Gap(v, j))
  }

  method Near(v: Channel) returns (best: nat)
    ensures NearestLevel(v, best)
  {
    best := 0;
    var bestD := Gap(v, 0);
    for i := 1 to 6
      invariant best < i && bestD == Gap(v, best)
      invariant forall j :: 0 <= j < i ==> bestD <= Gap(v, j) && (j < best ==> bestD < Gap(v, j))
    {
      var d := Gap(v, i);
      if d < bestD {
        best, bestD := i, d;
      }
    }
  }

  ghost predicate NearestGray(rgb: Rgb, i: nat) {
    && i < 24
    && forall j :: 0 <= j < 24 ==>
         Distance(rgb, Gray(i)) <= Distance(rgb, Gray(j))
         && (j < i ==> Distance(rgb, Gray(i)) < Distance(rgb, Gray(j)))
  }

  method NearGray(rgb: Rgb) returns (gray: nat)
    ensures NearestGray(rgb, gray)
  {
    gray := 0;
    var grayD := Distance(rgb, Gray(0));
    for i := 1 to 24
      invariant gray < i && grayD == Distance(rgb, Gray(gray))
      invariant forall j :: 0 <= j < i ==> grayD <= Distance(rgb, Gray(j)) && (j < gray ==> grayD < Distance(rgb, Gray(j)))
    {
      var d := Distance(rgb, Gray(i));
      if d < grayD {
        gray, grayD := i, d;
      }
    }
  }

  // THEOREM. The derived index is the lowest of all indices at minimum squared
  // distance among the 240 candidates. So choosing each channel on its own is
  // globally optimal, channel ties take the lower level, gray ties the darker
  // gray, and the cube wins a cube-versus-gray tie.
  method DeriveC256(rgb: Rgb) returns (index: int)
    ensures LeastNearest(rgb, index)
  {
    var r := Near(rgb.r);
    var g := Near(rgb.g);
    var b := Near(rgb.b);
    var gray := NearGray(rgb);
    PickIsLeastNearest(rgb, r, g, b, gray);
    index := Pick(rgb, r, g, b, gray);
  }

  // The cube unless a gray is strictly nearer.
  function Pick(rgb: Rgb, r: nat, g: nat, b: nat, gray: nat): int
    requires r < 6 && g < 6 && b < 6 && gray < 24
  {
    if Distance(rgb, Gray(gray)) < Distance(rgb, Cube(r, g, b)) then 232 + gray else 16 + 36 * r + 6 * g + b
  }

  lemma PickIsLeastNearest(rgb: Rgb, r: nat, g: nat, b: nat, gray: nat)
    requires NearestLevel(rgb.r, r) && NearestLevel(rgb.g, g) && NearestLevel(rgb.b, b)
    requires NearestGray(rgb, gray)
    ensures LeastNearest(rgb, Pick(rgb, r, g, b, gray))
  {
    if Distance(rgb, Gray(gray)) < Distance(rgb, Cube(r, g, b)) {
      GrayChoice(rgb, r, g, b, gray);
    } else {
      CubeChoice(rgb, r, g, b, gray);
    }
  }

  // A colour's distance from a cube colour is the sum of its channels'.
  lemma CubeDistance(rgb: Rgb, r: nat, g: nat, b: nat)
    requires r < 6 && g < 6 && b < 6
    ensures Distance(rgb, Cube(r, g, b)) == Sq(Gap(rgb.r, r)) + Sq(Gap(rgb.g, g)) + Sq(Gap(rgb.b, b))
  {
  }

  // The nearest level of a channel has the least square, strictly below the
  // levels before it.
  lemma ChannelIsOptimal(v: Channel, best: nat, j: nat)
    requires NearestLevel(v, best) && j < 6
    ensures Sq(Gap(v, best)) <= Sq(Gap(v, j))
    ensures j < best ==> Sq(Gap(v, best)) < Sq(Gap(v, j))
  {
    SqGrows(Gap(v, best), Gap(v, j));
  }

  // So nearest per channel is nearest in the cube.
  lemma CubeIsOptimal(rgb: Rgb, r: nat, g: nat, b: nat, r': nat, g': nat, b': nat)
    requires NearestLevel(rgb.r, r) && NearestLevel(rgb.g, g) && NearestLevel(rgb.b, b)
    requires r' < 6 && g' < 6 && b' < 6
    ensures Distance(rgb, Cube(r, g, b)) <= Distance(rgb, Cube(r', g', b'))
    ensures r' < r || g' < g || b' < b ==> Distance(rgb, Cube(r, g, b)) < Distance(rgb, Cube(r', g', b'))
  {
    ChannelIsOptimal(rgb.r, r, r');
    ChannelIsOptimal(rgb.g, g, g');
    ChannelIsOptimal(rgb.b, b, b');
    CubeDistance(rgb, r, g, b);
    CubeDistance(rgb, r', g', b');
  }

  // An index in the cube is its three levels, most significant first.
  lemma CubeIndex(r: nat, g: nat, b: nat)
    requires r < 6 && g < 6 && b < 6
    ensures Derivable(16 + 36 * r + 6 * g + b) && 16 + 36 * r + 6 * g + b < 232
    ensures Colour(16 + 36 * r + 6 * g + b) == Cube(r, g, b)
  {
    Digits(36 * r + 6 * g + b, r, g, b);
  }

  lemma Digits(i: nat, r: nat, g: nat, b: nat)
    requires i == 36 * r + 6 * g + b && r < 6 && g < 6 && b < 6
    ensures i / 36 == r && i / 6 % 6 == g && i % 6 == b
  {
    assert i / 6 == 6 * r + g;
  }

  // Nothing in the cube beats the nearest levels; a lower index has a lower
  // level in some channel, and is worse.
  lemma CubeBeats(rgb: Rgb, r: nat, g: nat, b: nat, j: int)
    requires NearestLevel(rgb.r, r) && NearestLevel(rgb.g, g) && NearestLevel(rgb.b, b)
    requires 16 <= j < 232
    ensures Distance(rgb, Cube(r, g, b)) <= Distance(rgb, Colour(j))
    ensures j < 16 + 36 * r + 6 * g + b ==> Distance(rgb, Cube(r, g, b)) < Distance(rgb, Colour(j))
  {
    var r', g', b' := (j - 16) / 36, (j - 16) / 6 % 6, (j - 16) % 6;
    ThreeDigits(j - 16);
    CubeIsOptimal(rgb, r, g, b, r', g', b');
  }

  lemma ThreeDigits(i: nat)
    requires i < 216
    ensures i == 36 * (i / 36) + 6 * (i / 6 % 6) + i % 6 && i / 36 < 6
  {
    assert i / 6 / 6 == i / 36;
  }

  lemma CubeChoice(rgb: Rgb, r: nat, g: nat, b: nat, gray: nat)
    requires NearestLevel(rgb.r, r) && NearestLevel(rgb.g, g) && NearestLevel(rgb.b, b)
    requires NearestGray(rgb, gray) && Distance(rgb, Gray(gray)) >= Distance(rgb, Cube(r, g, b))
    ensures LeastNearest(rgb, 16 + 36 * r + 6 * g + b)
  {
    CubeIndex(r, g, b);
    forall j | Derivable(j)
      ensures Distance(rgb, Cube(r, g, b)) <= Distance(rgb, Colour(j))
      ensures j < 16 + 36 * r + 6 * g + b ==> Distance(rgb, Cube(r, g, b)) < Distance(rgb, Colour(j))
    {
      if j < 232 {
        CubeBeats(rgb, r, g, b, j);
      } else {
        assert Colour(j) == Gray(j - 232);
      }
    }
  }

  lemma GrayChoice(rgb: Rgb, r: nat, g: nat, b: nat, gray: nat)
    requires NearestLevel(rgb.r, r) && NearestLevel(rgb.g, g) && NearestLevel(rgb.b, b)
    requires NearestGray(rgb, gray) && Distance(rgb, Gray(gray)) < Distance(rgb, Cube(r, g, b))
    ensures LeastNearest(rgb, 232 + gray)
  {
    forall j | Derivable(j)
      ensures Distance(rgb, Gray(gray)) <= Distance(rgb, Colour(j))
      ensures j < 232 + gray ==> Distance(rgb, Gray(gray)) < Distance(rgb, Colour(j))
    {
      if j < 232 {
        CubeBeats(rgb, r, g, b, j);
      } else {
        assert Colour(j) == Gray(j - 232);
      }
    }
  }

  // ---------------------------------------------------------------------
  // The choice is unique, and every palette colour is its own choice
  // ---------------------------------------------------------------------

  lemma DistanceIsZero(a: Rgb, b: Rgb)
    ensures Distance(a, b) == 0 <==> a == b
  {
    SqGrows(0, Abs(a.r - b.r));
    SqGrows(0, Abs(a.g - b.g));
    SqGrows(0, Abs(a.b - b.b));
  }

  lemma LeastNearestUnique(rgb: Rgb, i: int, j: int)
    requires LeastNearest(rgb, i) && LeastNearest(rgb, j)
    ensures i == j
  {
  }

  lemma LevelsDistinct(i: nat, j: nat)
    requires i < 6 && j < 6 && LEVELS[i] == LEVELS[j]
    ensures i == j
  {
  }

  lemma ColoursDistinct(i: int, j: int)
    requires Derivable(i) && Derivable(j) && Colour(i) == Colour(j)
    ensures i == j
  {
    if i < 232 && j < 232 {
      LevelsDistinct((i - 16) / 36, (j - 16) / 36);
      LevelsDistinct((i - 16) / 6 % 6, (j - 16) / 6 % 6);
      LevelsDistinct((i - 16) % 6, (j - 16) % 6);
      assert (i - 16) / 6 / 6 == (i - 16) / 36 && (j - 16) / 6 / 6 == (j - 16) / 36;
    }
  }

  // THEOREM. The derivation maps each of the 240 palette colours to its own
  // index: that index is its least nearest one, and there is no other.
  lemma PaletteColoursAreFixed(index: int)
    requires Derivable(index)
    ensures LeastNearest(Colour(index), index)
    ensures forall j :: LeastNearest(Colour(index), j) ==> j == index
  {
    forall j | Derivable(j) && j != index
      ensures Distance(Colour(index), Colour(index)) < Distance(Colour(index), Colour(j))
    {
      if Colour(j) == Colour(index) {
        ColoursDistinct(index, j);
      } else {
        DistanceIsZero(Colour(index), Colour(j));
        DistanceIsZero(Colour(index), Colour(index));
      }
    }
  }
}
