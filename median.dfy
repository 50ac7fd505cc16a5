/**
 * `CubeScanner::medianColor`: the per-channel median of the in-frame pixels of a square
 * neighbourhood. A frame is a 2-D array of BGR pixels indexed `[y, x]` (rows, then columns).
 */
module Median {
  import opened Types
  import opened CArith
  import opened Sorting

  /** The default neighbourhood side of `medianColor`. */
  const Region: int := 5

  predicate InFrame(frame: array2<Pixel>, y: int, x: int)
  {
    0 <= y < frame.Length0 && 0 <= x < frame.Length1
  }

  /** The pixel at (x, y) when it lies in the frame; nothing otherwise. */
  function Pick(frame: array2<Pixel>, y: int, x: int): seq<Pixel>
    reads frame
  {
    if InFrame(frame, y, x) then [frame[y, x]] else []
  }

  /** The in-frame pixels of row `y` at columns `cx - half` .. `cx + dx - 1`, left to right. */
  function RowPart(frame: array2<Pixel>, y: int, cx: int, half: int, dx: int): seq<Pixel>
    reads frame
    decreases dx + half
  {
    if dx <= -half then [] else RowPart(frame, y, cx, half, dx - 1) + Pick(frame, y, cx + dx - 1)
  }

  /** The in-frame pixels of rows `cy - half` .. `cy + dy - 1` of the window, row by row. */
  function WindowPart(frame: array2<Pixel>, cx: int, cy: int, half: int, dy: int): seq<Pixel>
    reads frame
    decreases dy + half
  {
    if dy <= -half then []
    else WindowPart(frame, cx, cy, half, dy - 1) + RowPart(frame, cy + dy - 1, cx, half, half + 1)
  }

  /** The samples `medianColor` collects: in-frame pixels of the `(2*half+1)`-square around (cx, cy). */
  function Window(frame: array2<Pixel>, cx: int, cy: int, half: int): seq<Pixel>
    reads frame
  {
    WindowPart(frame, cx, cy, half, half + 1)
  }

  /** One channel of a run of pixels. */
  function Channel(ps: seq<Pixel>, k: nat): seq<Byte>
    requires k < 3
  {
    seq(|ps|, i requires 0 <= i < |ps| => ps[i].At(k))
  }

  /** Channel `k` of the samples, sorted on its own, then the element at index `n / 2`. */
  function ChannelMedian(ps: seq<Pixel>, k: nat): Byte
    requires |ps| > 0 && k < 3
  {
    Sort(Channel(ps, k))[|ps| / 2]
  }

  /** The per-channel median of the samples. */
  function MedianOf(ps: seq<Pixel>): Pixel
    requires |ps| > 0
  {
    Pixel(ChannelMedian(ps, 0), ChannelMedian(ps, 1), ChannelMedian(ps, 2))
  }

  /** The square window has at least one pixel inside a `rows` x `cols` frame. */
  predicate WindowMeetsFrame(rows: int, cols: int, cx: int, cy: int, half: int)
  {
    0 <= half && 0 < rows && 0 < cols &&
    cx - half < cols && 0 <= cx + half && cy - half < rows && 0 <= cy + half
  }

  /** How many t with lo <= t < hi also satisfy 0 <= t < n. */
  function Span(lo: int, hi: int, n: int): nat
  {
    var a := if lo < 0 then 0 else lo;
    var b := if hi < n then hi else n;
    if a < b then b - a else 0
  }

  /**
   * The sampling loops of `medianColor`: walk the square row by row and push the channels of every
   * in-frame pixel onto `B`, `G` and `R`.
   */
  method CollectChannels(frame: array2<Pixel>, centerX: int, centerY: int, half: int)
    returns (B: seq<Byte>, G: seq<Byte>, R: seq<Byte>)
    ensures Channels(Window(frame, centerX, centerY, half), B, G, R)
  {
    B, G, R := [], [], [];
    ghost var samples: seq<Pixel> := [];
    var dy := -half;
    while dy <= half
      invariant half < 0 ==> dy == -half
      invariant 0 <= half ==> -half <= dy <= half + 1
      invariant samples == WindowPart(frame, centerX, centerY, half, dy)
      invariant Channels(samples, B, G, R)
    {
      B, G, R := CollectRow(frame, centerX, centerY + dy, half, samples, B, G, R);
      samples := samples + RowPart(frame, centerY + dy, centerX, half, half + 1);
      assert WindowPart(frame, centerX, centerY, half, dy + 1)
          == WindowPart(frame, centerX, centerY, half, dy) + RowPart(frame, centerY + dy, centerX, half, half + 1);
      dy := dy + 1;
    }
    if half < 0 {
      assert WindowPart(frame, centerX, centerY, half, half + 1) == [];
    }
  }

  /** The inner loop of `medianColor`: appends the channels of the in-frame pixels of row `y` of the window. */
  method CollectRow(frame: array2<Pixel>, centerX: int, y: int, half: int, ghost samples: seq<Pixel>,
                    B: seq<Byte>, G: seq<Byte>, R: seq<Byte>)
    returns (B': seq<Byte>, G': seq<Byte>, R': seq<Byte>)
    requires 0 <= half && Channels(samples, B, G, R)
    ensures Channels(samples + RowPart(frame, y, centerX, half, half + 1), B', G', R')
  {
    B', G', R' := B, G, R;
    ghost var row: seq<Pixel> := [];
    var dx := -half;
    while dx <= half
      invariant -half <= dx <= half + 1
      invariant row == RowPart(frame, y, centerX, half, dx)
      invariant Channels(samples + row, B', G', R')
    {
      var x := centerX + dx;
      if 0 <= x < frame.Length1 && 0 <= y < frame.Length0 {
        var bgr := frame[y, x];
        ChannelAppend(samples + row, B', G', R', bgr);
        B', G', R' := B' + [bgr.b], G' + [bgr.g], R' + [bgr.r];
        assert samples + row + [bgr] == samples + (row + [bgr]);
        row := row + [bgr];
      }
      assert RowPart(frame, y, centerX, half, dx + 1) == RowPart(frame, y, centerX, half, dx) + Pick(frame, y, x);
      dx := dx + 1;
    }
  }


  /** `medianColor`: collect the in-frame samples, sort each channel, take the middle element of each. */
  method MedianColor(frame: array2<Pixel>, centerX: int, centerY: int, region: int) returns (m: Pixel)
    requires WindowMeetsFrame(frame.Length0, frame.Length1, centerX, centerY, Half(region))
    ensures |Window(frame, centerX, centerY, Half(region))| > 0
    ensures m == MedianOf(Window(frame, centerX, centerY, Half(region)))
  {
    var half := Half(region);
    WindowNonEmpty(frame, centerX, centerY, half);
    var B, G, R := CollectChannels(frame, centerX, centerY, half);
    ghost var samples := Window(frame, centerX, centerY, half);
    B, G, R := Sort(B), Sort(G), Sort(R);
    var mid := |B| / 2;
    m := Pixel(B[mid], G[mid], R[mid]);
    MedianOfSortedChannels(samples, B, G, R);
  }

  lemma MedianOfSortedChannels(ps: seq<Pixel>, B: seq<Byte>, G: seq<Byte>, R: seq<Byte>)
    requires |ps| > 0
    requires B == Sort(Channel(ps, 0)) && G == Sort(Channel(ps, 1)) && R == Sort(Channel(ps, 2))
    ensures MedianOf(ps) == Pixel(B[|ps| / 2], G[|ps| / 2], R[|ps| / 2])
  {
    assert ChannelMedian(ps, 0) == B[|ps| / 2];
  }

  /** `B`, `G` and `R` are the three channels of `ps`. */
  predicate Channels(ps: seq<Pixel>, B: seq<Byte>, G: seq<Byte>, R: seq<Byte>)
  {
    B == Channel(ps, 0) && G == Channel(ps, 1) && R == Channel(ps, 2)
  }

  lemma ChannelAppend(ps: seq<Pixel>, B: seq<Byte>, G: seq<Byte>, R: seq<Byte>, p: Pixel)
    requires Channels(ps, B, G, R)
    ensures Channels(ps + [p], B + [p.b], G + [p.g], R + [p.r])
  {
    assert Channel(ps + [p], 0) == Channel(ps, 0) + [p.b];
    assert Channel(ps + [p], 1) == Channel(ps, 1) + [p.g];
    assert Channel(ps + [p], 2) == Channel(ps, 2) + [p.r];
  }

  /** Counting positions of a range one step shorter. */
  lemma SpanStep(lo: int, hi: int, n: int)
    requires lo < hi
    ensures Span(lo, hi, n) == Span(lo, hi - 1, n) + (if 0 <= hi - 1 < n then 1 else 0)
  {
  }

  lemma {:induction false} RowPartSize(frame: array2<Pixel>, y: int, cx: int, half: int, dx: int)
    ensures |RowPart(frame, y, cx, half, dx)| == if 0 <= y < frame.Length0 then Span(cx - half, cx + dx, frame.Length1) else 0
    decreases dx + half
  {
    if dx > -half {
      RowPartSize(frame, y, cx, half, dx - 1);
      SpanStep(cx - half, cx + dx, frame.Length1);
    }
  }

  lemma {:induction false} WindowPartSize(frame: array2<Pixel>, cx: int, cy: int, half: int, dy: int)
    ensures |WindowPart(frame, cx, cy, half, dy)|
         == Span(cy - half, cy + dy, frame.Length0) * Span(cx - half, cx + half + 1, frame.Length1)
    decreases dy + half
  {
    if dy > -half {
      WindowPartSize(frame, cx, cy, half, dy - 1);
      RowPartSize(frame, cy + dy - 1, cx, half, half + 1);
      SpanStep(cy - half, cy + dy, frame.Length0);
      AreaStep(|WindowPart(frame, cx, cy, half, dy - 1)|, |RowPart(frame, cy + dy - 1, cx, half, half + 1)|,
               Span(cy - half, cy + dy - 1, frame.Length0), Span(cy - half, cy + dy, frame.Length0),
               Span(cx - half, cx + half + 1, frame.Length1), 0 <= cy + dy - 1 < frame.Length0);
    } else {
      assert Span(cy - half, cy + dy, frame.Length0) == 0;
    }
  }

  /** Adding a row of `w` samples, or an empty one, to an `a` x `w` block. */
  lemma AreaStep(block: int, row: int, a: int, a': int, w: int, inFrame: bool)
    requires block == a * w
    requires row == if inFrame then w else 0
    requires a' == a + if inFrame then 1 else 0
    ensures block + row == a' * w
  {
    if inFrame {
      assert (a + 1) * w == a * w + w;
    }
  }



  /**
   * The window holds exactly the in-frame positions of the square: its size is the clipped
   * height times the clipped width.
   */
  lemma WindowSize(frame: array2<Pixel>, cx: int, cy: int, half: int)
    ensures |Window(frame, cx, cy, half)|
         == Span(cy - half, cy + half + 1, frame.Length0) * Span(cx - half, cx + half + 1, frame.Length1)
  {
    WindowPartSize(frame, cx, cy, half, half + 1);
  }

  /** `medianColor` has a sample to return exactly when the window meets the frame. */
  lemma WindowNonEmpty(frame: array2<Pixel>, cx: int, cy: int, half: int)
    ensures |Window(frame, cx, cy, half)| > 0 <==> WindowMeetsFrame(frame.Length0, frame.Length1, cx, cy, half)
  {
    WindowSize(frame, cx, cy, half);
    var a := Span(cy - half, cy + half + 1, frame.Length0);
    var b := Span(cx - half, cx + half + 1, frame.Length1);
    assert a * b > 0 <==> a > 0 && b > 0;
  }

  /** (y, x) lies in the frame and in the square of half-side `half` around (cx, cy). */
  predicate InWindow(frame: array2<Pixel>, cx: int, cy: int, half: int, y: int, x: int)
  {
    InFrame(frame, y, x) && cy - half <= y <= cy + half && cx - half <= x <= cx + half
  }

  lemma {:induction false} RowPartFromFrame(frame: array2<Pixel>, y: int, cx: int, half: int, dx: int, p: Pixel)
    requires p in RowPart(frame, y, cx, half, dx)
    ensures exists x | InFrame(frame, y, x) && cx - half <= x < cx + dx :: frame[y, x] == p
    decreases dx + half
  {
    if p !in Pick(frame, y, cx + dx - 1) {
      RowPartFromFrame(frame, y, cx, half, dx - 1, p);
      var x :| InFrame(frame, y, x) && cx - half <= x < cx + dx - 1 && frame[y, x] == p;
      assert x < cx + dx;
    }
  }

  lemma {:induction false} WindowPartFromFrame(frame: array2<Pixel>, cx: int, cy: int, half: int, dy: int, p: Pixel)
    requires dy <= half + 1
    requires p in WindowPart(frame, cx, cy, half, dy)
    ensures exists y, x | InWindow(frame, cx, cy, half, y, x) && y < cy + dy :: frame[y, x] == p
    decreases dy + half
  {
    assert WindowPart(frame, cx, cy, half, dy)
        == WindowPart(frame, cx, cy, half, dy - 1) + RowPart(frame, cy + dy - 1, cx, half, half + 1);
    if p in WindowPart(frame, cx, cy, half, dy - 1) {
      WindowPartFromFrame(frame, cx, cy, half, dy - 1, p);
      var y, x :| InWindow(frame, cx, cy, half, y, x) && y < cy + dy - 1 && frame[y, x] == p;
      assert y < cy + dy;
    } else {
      var y := cy + dy - 1;
      RowPartFromFrame(frame, y, cx, half, half + 1, p);
      var x :| InFrame(frame, y, x) && cx - half <= x < cx + half + 1 && frame[y, x] == p;
      assert InWindow(frame, cx, cy, half, y, x);
    }
  }

  /** Every sample is a real in-frame pixel of the window: nothing is padded or invented. */
  lemma WindowFromFrame(frame: array2<Pixel>, cx: int, cy: int, half: int, p: Pixel)
    requires p in Window(frame, cx, cy, half)
    ensures exists y, x | InWindow(frame, cx, cy, half, y, x) :: frame[y, x] == p
  {
    WindowPartFromFrame(frame, cx, cy, half, half + 1, p);
  }

  lemma {:induction false} RowPartLocal(f1: array2<Pixel>, f2: array2<Pixel>, y: int, cx: int, half: int, dx: int)
    requires f1.Length0 == f2.Length0 && f1.Length1 == f2.Length1
    requires forall x | InFrame(f1, y, x) && cx - half <= x < cx + dx :: f1[y, x] == f2[y, x]
    ensures RowPart(f1, y, cx, half, dx) == RowPart(f2, y, cx, half, dx)
    decreases dx + half
  {
    if dx > -half {
      RowPartLocal(f1, f2, y, cx, half, dx - 1);
    }
  }

  lemma {:induction false} WindowPartLocal(f1: array2<Pixel>, f2: array2<Pixel>, cx: int, cy: int, half: int, dy: int)
    requires f1.Length0 == f2.Length0 && f1.Length1 == f2.Length1
    requires dy <= half + 1
    requires forall y, x | InWindow(f1, cx, cy, half, y, x) && y < cy + dy :: f1[y, x] == f2[y, x]
    ensures WindowPart(f1, cx, cy, half, dy) == WindowPart(f2, cx, cy, half, dy)
    decreases dy + half
  {
    if dy > -half {
      WindowPartLocal(f1, f2, cx, cy, half, dy - 1);
      var y := cy + dy - 1;
      forall x | InFrame(f1, y, x) && cx - half <= x < cx + half + 1 ensures f1[y, x] == f2[y, x] {
        assert InWindow(f1, cx, cy, half, y, x);
      }
      RowPartLocal(f1, f2, y, cx, half, half + 1);
    }
  }

  /** The samples depend only on the in-frame pixels of the window. */
  lemma WindowLocal(f1: array2<Pixel>, f2: array2<Pixel>, cx: int, cy: int, half: int)
    requires f1.Length0 == f2.Length0 && f1.Length1 == f2.Length1
    requires forall y, x | InWindow(f1, cx, cy, half, y, x) :: f1[y, x] == f2[y, x]
    ensures Window(f1, cx, cy, half) == Window(f2, cx, cy, half)
  {
    WindowPartLocal(f1, f2, cx, cy, half, half + 1);
  }

  /** Each channel of the median is that channel of one of the samples. */
  lemma MedianIsSample(ps: seq<Pixel>, k: nat)
    requires |ps| > 0 && k < 3
    ensures exists i | 0 <= i < |ps| :: ps[i].At(k) == MedianOf(ps).At(k)
  {
    var c := Channel(ps, k);
    var s := Sort(c);
    var v := s[|ps| / 2];
    SortPermutes(c);
    assert MedianOf(ps).At(k) == ChannelMedian(ps, k) == v;
    assert v in multiset(s);
    assert v in c;
    var i :| 0 <= i < |c| && c[i] == v;
    assert ps[i].At(k) == v;
  }

  /** More than half of `c` is at most the middle element of `s`, its sorted order. */
  lemma MiddleBoundsBelow(s: seq<Byte>, c: seq<Byte>)
    requires |c| > 0 && |s| == |c| && Sorted(s) && multiset(s) == multiset(c)
    ensures exists below: seq<Byte> :: multiset(below) <= multiset(c) && |below| == |c| / 2 + 1 &&
              forall j | 0 <= j < |below| :: below[j] <= s[|c| / 2]
  {
    var m := |c| / 2;
    var below := s[..m + 1];
    assert multiset(below) <= multiset(c) by {
      assert s == below + s[m + 1..];
    }
    assert forall j | 0 <= j < |below| :: below[j] <= s[m] by {
      forall j | 0 <= j < |below| ensures below[j] <= s[m] {
        assert below[j] == s[j];
      }
    }
    assert |below| == |c| / 2 + 1;
  }

  /** At least half of `c` is at least the middle element of `s`, its sorted order. */
  lemma MiddleBoundsAbove(s: seq<Byte>, c: seq<Byte>)
    requires |c| > 0 && |s| == |c| && Sorted(s) && multiset(s) == multiset(c)
    ensures exists above: seq<Byte> :: multiset(above) <= multiset(c) && |above| == |c| - |c| / 2 &&
              forall j | 0 <= j < |above| :: above[j] >= s[|c| / 2]
  {
    var m := |c| / 2;
    var above := s[m..];
    assert multiset(above) <= multiset(c) by {
      assert s == s[..m] + above;
    }
    assert forall j | 0 <= j < |above| :: above[j] >= s[m] by {
      forall j | 0 <= j < |above| ensures above[j] >= s[m] {
        assert above[j] == s[m + j];
      }
    }
    assert |above| == |c| - |c| / 2;
  }

  /** More than half of the samples are at most the median, channel by channel. */
  lemma MedianRankBelow(ps: seq<Pixel>, k: nat)
    requires |ps| > 0 && k < 3
    ensures exists below: seq<Byte> :: multiset(below) <= multiset(Channel(ps, k)) && |below| == |ps| / 2 + 1 &&
              forall j | 0 <= j < |below| :: below[j] <= ChannelMedian(ps, k)
  {
    var c := Channel(ps, k);
    assert |c| == |ps| && ChannelMedian(ps, k) == Sort(c)[|c| / 2];
    SortPermutes(c);
    SortSorted(c);
    MiddleBoundsBelow(Sort(c), c);
  }

  /** At least half of the samples are at least the median, channel by channel. */
  lemma MedianRankAbove(ps: seq<Pixel>, k: nat)
    requires |ps| > 0 && k < 3
    ensures exists above: seq<Byte> :: multiset(above) <= multiset(Channel(ps, k)) && |above| == |ps| - |ps| / 2 &&
              forall j | 0 <= j < |above| :: above[j] >= ChannelMedian(ps, k)
  {
    var c := Channel(ps, k);
    assert |c| == |ps| && ChannelMedian(ps, k) == Sort(c)[|c| / 2];
    SortPermutes(c);
    SortSorted(c);
    MiddleBoundsAbove(Sort(c), c);
  }

  /** A neighbourhood of one colour has that colour as its median. */
  lemma MedianOfUniform(ps: seq<Pixel>, p: Pixel)
    requires |ps| > 0
    requires forall i | 0 <= i < |ps| :: ps[i] == p
    ensures MedianOf(ps) == p
  {
    MedianIsSample(ps, 0);
    MedianIsSample(ps, 1);
    MedianIsSample(ps, 2);
  }

  /** A window whose in-frame pixels all have one colour has that colour as its median. */
  lemma WindowMedianUniform(frame: array2<Pixel>, cx: int, cy: int, half: int, p: Pixel)
    requires WindowMeetsFrame(frame.Length0, frame.Length1, cx, cy, half)
    requires forall y, x | InWindow(frame, cx, cy, half, y, x) :: frame[y, x] == p
    ensures |Window(frame, cx, cy, half)| > 0 && MedianOf(Window(frame, cx, cy, half)) == p
  {
    var w := Window(frame, cx, cy, half);
    WindowNonEmpty(frame, cx, cy, half);
    forall i | 0 <= i < |w| ensures w[i] == p {
      WindowFromFrame(frame, cx, cy, half, w[i]);
    }
    MedianOfUniform(w, p);
  }

  /** The median of a channel is the middle of any sorted arrangement of that channel's samples. */
  lemma ChannelMedianOfSorted(ps: seq<Pixel>, k: nat, s: seq<Byte>)
    requires |ps| > 0 && k < 3
    requires Sorted(s) && multiset(s) == multiset(Channel(ps, k))
    ensures |s| == |ps| && ChannelMedian(ps, k) == s[|ps| / 2]
  {
    SortPermutes(Channel(ps, k));
    SortSorted(Channel(ps, k));
    SortedUnique(Sort(Channel(ps, k)), s);
  }
}
