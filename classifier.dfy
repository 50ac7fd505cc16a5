/**
 * `CubeScanner::classifyColor`: a white test on the raw channels, then five inclusive hue bands
 * tried in a fixed order, then a WHITE fallback. The hue comes from OpenCV's BGR-to-HSV conversion,
 * which is not modelled: it is a parameter here.
 */
module Classifier {
  import opened Types

  function Abs(x: int): nat
  {
    if x < 0 then -x else x
  }

  /** Bright and nearly grey: every channel above 200 and every pairwise difference below 30. */
  predicate IsWhitish(p: Pixel)
  {
    p.r > 200 && p.g > 200 && p.b > 200 &&
    Abs(p.r - p.g) < 30 && Abs(p.g - p.b) < 30 && Abs(p.b - p.r) < 30
  }

  /** The classifier as written: first test that matches wins. */
  function Classify(p: Pixel, h: Hue): (c: Color)
    ensures c != Unknown
    ensures IsWhitish(p) ==> c == White
  {
    if IsWhitish(p) then White
    else if 160 <= h <= 190 then Red
    else if 3 <= h <= 19 then Orange
    else if 20 <= h <= 30 then Yellow
    else if 60 <= h <= 90 then Green
    else if 100 <= h <= 120 then Blue
    else White
  }

  /** An inclusive hue band and the colour it stands for. */
  datatype Band = Band(lo: int, hi: int, color: Color) {
    predicate Contains(h: int) { lo <= h <= hi }
  }

  /** The hue bands of the classifier, in the order it tries them. */
  const HueBands: seq<Band> :=
    [Band(160, 190, Red), Band(3, 19, Orange), Band(20, 30, Yellow), Band(60, 90, Green), Band(100, 120, Blue)]

  /** No hue lies in two different bands. */
  predicate Disjoint(bands: seq<Band>)
  {
    forall x, y | x in bands && y in bands :: x == y || x.hi < y.lo || y.hi < x.lo
  }

  /** The colour of the first band in `bands` that contains `h`, if any. */
  function FirstBand(bands: seq<Band>, h: int): Option<Color>
  {
    if bands == [] then None
    else if bands[0].Contains(h) then Some(bands[0].color)
    else FirstBand(bands[1..], h)
  }

  lemma HueBandsDisjoint()
    ensures Disjoint(HueBands)
    ensures forall b | b in HueBands :: b.color != White && b.color != Unknown
  {
  }

  /** With disjoint bands, the first match is THE band containing the hue. */
  lemma {:induction false} FirstBandFindsContainingBand(bands: seq<Band>, h: int, b: Band)
    requires Disjoint(bands) && b in bands && b.Contains(h)
    ensures FirstBand(bands, h) == Some(b.color)
  {
    if !bands[0].Contains(h) {
      assert b in bands[1..];
      assert Disjoint(bands[1..]) by {
        forall x | x in bands[1..] ensures x in bands { }
      }
      FirstBandFindsContainingBand(bands[1..], h, b);
    }
  }

  /** No match exactly when no band contains the hue. */
  lemma {:induction false} FirstBandNone(bands: seq<Band>, h: int)
    ensures FirstBand(bands, h) == None <==> forall b | b in bands :: !b.Contains(h)
  {
    if bands != [] {
      FirstBandNone(bands[1..], h);
      assert forall b | b in bands :: b == bands[0] || b in bands[1..];
    }
  }

  /**
   * The order in which the bands are tried does not matter: any listing of the same bands finds
   * the same colour for every hue.
   */
  lemma BandOrderIrrelevant(order: seq<Band>, h: int)
    requires forall b :: b in order <==> b in HueBands
    ensures FirstBand(order, h) == FirstBand(HueBands, h)
  {
    HueBandsDisjoint();
    if b :| b in HueBands && b.Contains(h) {
      FirstBandFindsContainingBand(HueBands, h, b);
      FirstBandFindsContainingBand(order, h, b);
    } else {
      FirstBandNone(HueBands, h);
      FirstBandNone(order, h);
    }
  }

  /** The chain of `if`s in `Classify` is the first-match search over `HueBands`. */
  lemma ClassifyIsFirstBand(p: Pixel, h: Hue)
    requires !IsWhitish(p)
    ensures Classify(p, h) == match FirstBand(HueBands, h) case Some(c) => c case None => White
  {
    var bs := HueBands;
    assert bs[4..][1..] == [];
    assert FirstBand(bs[4..], h) == if 100 <= h <= 120 then Some(Blue) else None;
    assert bs[3..][1..] == bs[4..];
    assert FirstBand(bs[3..], h) == if 60 <= h <= 90 then Some(Green) else FirstBand(bs[4..], h);
    assert bs[2..][1..] == bs[3..];
    assert FirstBand(bs[2..], h) == if 20 <= h <= 30 then Some(Yellow) else FirstBand(bs[3..], h);
    assert bs[1..][1..] == bs[2..];
    assert FirstBand(bs[1..], h) == if 3 <= h <= 19 then Some(Orange) else FirstBand(bs[2..], h);
  }

  /**
   * Outside the white test, a colour other than WHITE is returned exactly when the hue lies in
   * that colour's band.
   */
  lemma ClassifyBandColor(p: Pixel, h: Hue, c: Color)
    requires c != White
    ensures Classify(p, h) == c <==> !IsWhitish(p) && exists b | b in HueBands :: b.color == c && b.Contains(h)
  {
    HueBandsDisjoint();
    if !IsWhitish(p) {
      ClassifyIsFirstBand(p, h);
      if b :| b in HueBands && b.Contains(h) {
        FirstBandFindsContainingBand(HueBands, h, b);
      } else {
        FirstBandNone(HueBands, h);
      }
    }
  }

  /** WHITE comes from the white test or from a hue in no band: the fallback. */
  lemma ClassifyWhite(p: Pixel, h: Hue)
    ensures Classify(p, h) == White <==> IsWhitish(p) || forall b | b in HueBands :: !b.Contains(h)
  {
    HueBandsDisjoint();
    if !IsWhitish(p) {
      ClassifyIsFirstBand(p, h);
      FirstBandNone(HueBands, h);
      if b :| b in HueBands && b.Contains(h) {
        FirstBandFindsContainingBand(HueBands, h, b);
      }
    }
  }
}
