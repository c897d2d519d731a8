/** Choice of the level-2 headings that receive an inline illustration
    (select_sections_for_images): drop the closing heading, then sample the
    rest with an even stride, keeping at most `maxImages` of them. */
module Selection {

  function Min(a: int, b: int): int { if a <= b then a else b }
  function Max(a: int, b: int): int { if a >= b then a else b }

  /** Python's a // b, which rounds toward negative infinity (Dafny's `/`
      is Euclidean and differs for a negative divisor). */
  function FloorDiv(a: int, b: int): int
    requires b != 0
  {
    if b > 0 || a % b == 0 then a / b else a / b - 1
  }

  /** FloorDiv rounds toward negative infinity: the remainder takes the sign
      of the divisor. */
  lemma FloorDivBounds(a: int, b: int)
    requires b != 0
    ensures b > 0 ==> b * FloorDiv(a, b) <= a < b * FloorDiv(a, b) + b
    ensures b < 0 ==> b * FloorDiv(a, b) + b < a <= b * FloorDiv(a, b)
  {
  }

  /** ceil(n / d) for a positive divisor. */
  function CeilDiv(n: nat, d: nat): nat
    requires d > 0
  {
    (n + d - 1) / d
  }

  /** `k` is ceil(n / d) exactly when k - 1 multiples of `d` fall short of `n`
      and `k` multiples reach it. */
  lemma CeilDivUnique(n: nat, d: nat, k: nat)
    requires d > 0
    requires (k - 1) * d < n <= k * d
    ensures CeilDiv(n, d) == k
  {
    var x := n + d - 1;
    var q := x / d;
    assert d * q <= x < d * q + d;
    assert k * d <= x < k * d + d;
    if q > k {
      MulMono(k + 1, q, d);
    } else if q < k {
      MulMono(q + 1, k, d);
    }
  }

  lemma MulMono(a: int, b: int, d: nat)
    requires a <= b
    ensures a * d <= b * d
  {
  }

  /** Python's s[::step]: every `step`-th element starting at index 0. */
  function Stride<T>(s: seq<T>, step: nat): (r: seq<T>)
    requires step > 0
    ensures forall i :: 0 <= i < |r| ==> i * step < |s| && r[i] == s[i * step]
    decreases |s|
  {
    if s == [] then []
    else if |s| <= step then [s[0]]
    else
      var rest := Stride(s[step..], step);
      var r := [s[0]] + rest;
      forall i | 1 <= i < |r|
        ensures i * step < |s| && r[i] == s[i * step]
      {
        MulSucc(i - 1, step);
      }
      r
  }

  /** The stride takes the least number `k` of elements with k * step >= |s|,
      so no element at a multiple of `step` is skipped. */
  lemma {:induction false} StrideLength<T>(s: seq<T>, step: nat)
    requires step > 0
    ensures (|Stride(s, step)| - 1) * step < |s| <= |Stride(s, step)| * step
    decreases |s|
  {
    if s != [] && |s| > step {
      StrideLength(s[step..], step);
      var rest := Stride(s[step..], step);
      assert |Stride(s, step)| == |rest| + 1;
      MulSucc(|rest|, step);
      MulSucc(|rest| - 1, step);
    }
  }

  lemma MulSucc(k: int, d: int)
    ensures (k + 1) * d == k * d + d
  {
  }

  /** Python's s[:m], including the negative bound that counts from the end. */
  function SliceTo<T>(s: seq<T>, m: int): (r: seq<T>)
    ensures m >= 0 ==> r == s[..Min(m, |s|)]
    ensures m < 0 ==> r == s[..Max(0, |s| + m)]
  {
    if m >= 0 then s[..Min(m, |s|)] else s[..Max(0, |s| + m)]
  }

  /** Every heading except the last one, unless it is the only one. */
  function Candidates<T>(h: seq<T>): seq<T>
  {
    if |h| > 1 then h[..|h| - 1] else h
  }

  /** The sampling stride: max(1, len(candidates) // max_images). */
  function Step(n: nat, maxImages: int): (step: nat)
    requires maxImages != 0
    ensures step >= 1
  {
    Max(1, FloorDiv(n, maxImages))
  }

  /** select_sections_for_images(h2_sections, max_images). The source divides
      by `maxImages` whenever there is at least one heading, so a zero bound
      is only admitted for an empty heading list. Element `i` of the result
      is candidate `i * step`: a stride sample from the front, in order. */
  function SelectSections<T>(h: seq<T>, maxImages: int): (r: seq<T>)
    requires h == [] || maxImages != 0
    ensures h == [] ==> r == []
    ensures h != [] ==>
              forall i :: 0 <= i < |r| ==>
                i * Step(|Candidates(h)|, maxImages) < |Candidates(h)|
                && r[i] == h[i * Step(|Candidates(h)|, maxImages)]
    ensures maxImages > 0 ==> |r| <= maxImages
  {
    if h == [] then []
    else
      var candidates := Candidates(h);
      if candidates == [] then []
      else SliceTo(Stride(candidates, Step(|candidates|, maxImages)), maxImages)
  }

  /** A non-empty heading list always yields a picture for its first heading,
      and a lone heading is kept although it is the last one. */
  lemma SelectFirst<T>(h: seq<T>, maxImages: int)
    requires h != [] && maxImages > 0
    ensures SelectSections(h, maxImages) != []
    ensures SelectSections(h, maxImages)[0] == h[0]
    ensures |h| == 1 ==> SelectSections(h, maxImages) == h
  {
    var c := Candidates(h);
    var step := Step(|c|, maxImages);
    assert Stride(c, step)[0] == c[0];
  }

  /** Of several headings the last one is never chosen: every pick comes
      from positions 0 .. |h| - 2. */
  lemma SelectNeverLast<T>(h: seq<T>, maxImages: int)
    requires |h| > 1 && maxImages != 0
    ensures var r := SelectSections(h, maxImages);
            var step := Step(|Candidates(h)|, maxImages);
            forall i :: 0 <= i < |r| ==> i * step <= |h| - 2 && r[i] == h[i * step]
  {
    assert |Candidates(h)| == |h| - 1;
  }

  /** The number of picks is min(maxImages, ceil(|candidates| / step)). */
  lemma SelectCount<T>(h: seq<T>, maxImages: int)
    requires h != [] && maxImages > 0
    ensures var c := Candidates(h);
            |SelectSections(h, maxImages)|
              == Min(maxImages, CeilDiv(|c|, Step(|c|, maxImages)))
  {
    var c := Candidates(h);
    var step := Step(|c|, maxImages);
    StrideLength(c, step);
    CeilDivUnique(|c|, step, |Stride(c, step)|);
  }

  /** A negative bound is Python's negative slice: the stride is 1 and the
      last |maxImages| candidates are cut off. */
  lemma SelectNegativeBound<T>(h: seq<T>, maxImages: int)
    requires h != [] && maxImages < 0
    ensures var c := Candidates(h);
            SelectSections(h, maxImages) == c[..Max(0, |c| + maxImages)]
  {
    var c := Candidates(h);
    var q := FloorDiv(|c|, maxImages);
    FloorDivBounds(|c|, maxImages);
    assert maxImages * q + maxImages < |c|;
    if q > 0 {
      MulMono(1, q, -maxImages);
    }
    assert Step(|c|, maxImages) == 1;
    var sampled := Stride(c, 1);
    assert |sampled| == |c| by {
      StrideLength(c, 1);
    }
    assert sampled == c;
  }

  /** An example: five headings, at most three images. The last
      heading is skipped and the stride is max(1, 4 // 3) = 1. */
  lemma FiveHeadingsThreeImages()
    ensures SelectSections(["A", "B", "C", "D", "E"], 3) == ["A", "B", "C"]
  {
    var h := ["A", "B", "C", "D", "E"];
    assert Candidates(h) == ["A", "B", "C", "D"];
    assert Step(4, 3) == 1;
  }

  /** With more candidates than images the stride spreads the picks out:
      seven headings, three images, candidates 0..5, stride 2. */
  lemma SevenHeadingsThreeImages()
    ensures SelectSections([0, 1, 2, 3, 4, 5, 6], 3) == [0, 2, 4]
  {
    var h := [0, 1, 2, 3, 4, 5, 6];
    assert Candidates(h) == [0, 1, 2, 3, 4, 5];
    assert Step(6, 3) == 2;
    var r := SelectSections(h, 3);
    assert |r| == 3;
  }
}
