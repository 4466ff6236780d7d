/**
 The viewer's decoding worker (`onmessage`): it walks a frame's points, four
 numbers each (x, y, z, intensity), keeps every point or, in `'nth'` mode,
 only those whose index is a multiple of `n`, and emits three position
 numbers and three colour numbers per kept point.

 JavaScript numbers are modelled as `Option<real>`: `None` stands for NaN,
 which is what a read past the end of the buffer (`undefined`) becomes in a
 `Float32Array`.
 */
module PointCloudWorker {
  import opened Wrappers

  type Number = Option<real>

  /** `allData[k]`: undefined (NaN) past the end. */
  function At(allData: seq<real>, k: nat): (v: Number)
    ensures v.Some? <==> k < |allData|
    ensures k < |allData| ==> v.value == allData[k]
  {
    if k < |allData| then Some(allData[k]) else None
  }

  /**
   Line 14: a point survives unless the mode is `'nth'` and `i % n !== 0`.
   For `i >= 0` JavaScript's `%` agrees with Euclidean `%`; `i % 0` is NaN,
   which is never `0`, so `n == 0` keeps nothing.
   */
  predicate Selected(i: nat, mode: string, n: int) {
    mode != "nth" || (n != 0 && i % n == 0)
  }

  /** The indices below `count` that the loop keeps, in the order it visits them. */
  function KeptIndices(count: nat, mode: string, n: int): (r: seq<nat>)
    ensures |r| <= count
    decreases count
  {
    if count == 0 then []
    else KeptIndices(count - 1, mode, n) + (if Selected(count - 1, mode, n) then [count - 1] else [])
  }

  /** The kept indices are exactly the selected ones below `count`, strictly increasing. */
  lemma {:induction false} KeptIndicesSpec(count: nat, mode: string, n: int)
    ensures forall k :: 0 <= k < |KeptIndices(count, mode, n)| ==> KeptIndices(count, mode, n)[k] < count
    ensures forall k1, k2 :: 0 <= k1 < k2 < |KeptIndices(count, mode, n)| ==>
      KeptIndices(count, mode, n)[k1] < KeptIndices(count, mode, n)[k2]
    ensures forall i :: 0 <= i < count ==> (i in KeptIndices(count, mode, n) <==> Selected(i, mode, n))
    decreases count
  {
    if count > 0 {
      KeptIndicesSpec(count - 1, mode, n);
    }
  }

  /** Line 19: the point's coordinates, in order. */
  function PositionTriple(allData: seq<real>, i: nat): (t: seq<Number>)
    ensures |t| == 3
    ensures t[0] == At(allData, 4 * i) && t[1] == At(allData, 4 * i + 1) && t[2] == At(allData, 4 * i + 2)
  {
    [At(allData, 4 * i), At(allData, 4 * i + 1), At(allData, 4 * i + 2)]
  }

  /** Line 22: `Math.min(1.0, intensity / 255.0)`; NaN stays NaN. */
  function Norm(intensity: Number): (v: Number)
    ensures v.Some? <==> intensity.Some?
    ensures v.Some? ==> v.value <= 1.0 && (intensity.value >= 0.0 ==> v.value >= 0.0)
    ensures v.Some? && intensity.value <= 255.0 ==> v.value == intensity.value / 255.0
    ensures v.Some? && intensity.value >= 255.0 ==> v.value == 1.0
  {
    match intensity
    case None => None
    case Some(x) => Some(if x / 255.0 < 1.0 then x / 255.0 else 1.0)
  }

  /** Line 23: red and green from the intensity, no blue. */
  function ColorTriple(allData: seq<real>, i: nat): (t: seq<Number>)
    ensures |t| == 3
    ensures t[0] == t[1] == Norm(At(allData, 4 * i + 3)) && t[2] == Some(0.0)
  {
    var norm := Norm(At(allData, 4 * i + 3));
    [norm, norm, Some(0.0)]
  }

  /** Triple `k` of `positions` and of `colors` belongs to the `k`-th index of `kept`. */
  ghost predicate Emitted(positions: seq<Number>, colors: seq<Number>, allData: seq<real>, kept: seq<nat>) {
    && |positions| == |colors| == 3 * |kept|
    && forall k :: 0 <= k < |kept| ==>
      && positions[3 * k .. 3 * k + 3] == PositionTriple(allData, kept[k])
      && colors[3 * k .. 3 * k + 3] == ColorTriple(allData, kept[k])
  }

  lemma EmitOne(positions: seq<Number>, colors: seq<Number>, allData: seq<real>, kept: seq<nat>, i: nat)
    requires Emitted(positions, colors, allData, kept)
    ensures Emitted(positions + PositionTriple(allData, i), colors + ColorTriple(allData, i), allData, kept + [i])
  {
    var p, c := positions + PositionTriple(allData, i), colors + ColorTriple(allData, i);
    forall k | 0 <= k < |kept|
      ensures p[3 * k .. 3 * k + 3] == positions[3 * k .. 3 * k + 3]
      ensures c[3 * k .. 3 * k + 3] == colors[3 * k .. 3 * k + 3]
    {
    }
    assert p[3 * |kept| .. 3 * |kept| + 3] == PositionTriple(allData, i);
    assert c[3 * |kept| .. 3 * |kept| + 3] == ColorTriple(allData, i);
  }

  /** One step of the loop: point `i` is emitted exactly when it is selected. */
  lemma EmitStep(positions: seq<Number>, colors: seq<Number>, allData: seq<real>, i: nat, mode: string, n: int)
    requires Emitted(positions, colors, allData, KeptIndices(i, mode, n))
    ensures !Selected(i, mode, n) ==> KeptIndices(i + 1, mode, n) == KeptIndices(i, mode, n)
    ensures Selected(i, mode, n) ==>
      Emitted(positions + PositionTriple(allData, i), colors + ColorTriple(allData, i), allData, KeptIndices(i + 1, mode, n))
  {
    var kept := KeptIndices(i, mode, n);
    if Selected(i, mode, n) {
      assert KeptIndices(i + 1, mode, n) == kept + [i];
      EmitOne(positions, colors, allData, kept, i);
    }
  }

  /**
   Lines 1-34 without the transfer: `frameId` is passed through; triple `k`
   of `positions` and of `colors` belongs to the `k`-th kept index.
   */
  method Downsample(frameId: int, pointCount: nat, allData: seq<real>, mode: string, n: int)
    returns (outFrameId: int, positions: seq<Number>, colors: seq<Number>)
    ensures outFrameId == frameId
    ensures |positions| == |colors| == 3 * |KeptIndices(pointCount, mode, n)|
    ensures forall k :: 0 <= k < |KeptIndices(pointCount, mode, n)| ==>
      && positions[3 * k .. 3 * k + 3] == PositionTriple(allData, KeptIndices(pointCount, mode, n)[k])
      && colors[3 * k .. 3 * k + 3] == ColorTriple(allData, KeptIndices(pointCount, mode, n)[k])
  {
    positions, colors := [], [];
    var i := 0;
    while i < pointCount
      invariant 0 <= i <= pointCount
      invariant Emitted(positions, colors, allData, KeptIndices(i, mode, n))
    {
      var idx := i * 4;
      var x, y, z, intensity := At(allData, idx), At(allData, idx + 1), At(allData, idx + 2), At(allData, idx + 3);
      EmitStep(positions, colors, allData, i, mode, n);
      if mode == "nth" && (n == 0 || i % n != 0) {
        i := i + 1;
        continue;
      }
      assert [x, y, z] == PositionTriple(allData, i);
      assert [Norm(intensity), Norm(intensity), Some(0.0)] == ColorTriple(allData, i);
      positions := positions + [x, y, z];
      colors := colors + [Norm(intensity), Norm(intensity), Some(0.0)];
      i := i + 1;
    }
    outFrameId := frameId;
  }

  /** In any mode other than `'nth'` every index is kept: `positions` has three numbers per point. */
  lemma {:induction false} EveryPointUnlessNth(count: nat, mode: string, n: int)
    requires mode != "nth"
    ensures |KeptIndices(count, mode, n)| == count
    ensures forall k :: 0 <= k < count ==> KeptIndices(count, mode, n)[k] == k
    decreases count
  {
    if count > 0 {
      EveryPointUnlessNth(count - 1, mode, n);
    }
  }

  /**
   In `'nth'` mode with `n >= 1` the kept indices are the multiples of `n`
   below the count (by the contract of `KeptIndices`), one per block of `n`:
   there are `ceil(count / n)` of them.
   */
  lemma {:induction false} NthKeepsOnePerBlock(count: nat, n: int)
    requires n >= 1
    ensures |KeptIndices(count, "nth", n)| == (count + n - 1) / n
    decreases count
  {
    if count > 0 {
      NthKeepsOnePerBlock(count - 1, n);
      var c := count - 1;
      assert KeptIndices(count, "nth", n)
          == KeptIndices(c, "nth", n) + (if c % n == 0 then [c] else []);
      CeilStep(c, n);
    }
  }

  /** `ceil((c + 1) / n)` exceeds `ceil(c / n)` exactly when `c` is a multiple of `n`. */
  lemma CeilStep(c: nat, n: int)
    requires n >= 1
    ensures (c + 1 + n - 1) / n == (c + n - 1) / n + (if c % n == 0 then 1 else 0)
  {
    var q, r := c / n, c % n;
    assert c == q * n + r;
    MulSucc(q, n);
    if r == 0 {
      DivBlock(q, n - 1, n);
      assert c + n - 1 == q * n + (n - 1);
      DivBlock(q + 1, 0, n);
      assert c + 1 + n - 1 == (q + 1) * n + 0;
    } else {
      DivBlock(q + 1, r - 1, n);
      assert c + n - 1 == (q + 1) * n + (r - 1);
      DivBlock(q + 1, r, n);
      assert c + 1 + n - 1 == (q + 1) * n + r;
    }
  }

  lemma MulSucc(q: int, n: int)
    ensures (q + 1) * n == q * n + n
  {}

  lemma AtLeastOneBlock(a: int, n: int)
    requires a >= 1 && n >= 1
    ensures a * n >= n
  {}

  /** `(q * n + r) / n == q` for a remainder `0 <= r < n`. */
  lemma DivBlock(q: int, r: int, n: int)
    requires n >= 1 && 0 <= r < n
    ensures (q * n + r) / n == q
  {
    var x := q * n + r;
    var d, m := x / n, x % n;
    assert d * n + m == x;
    assert (d - q) * n == r - m;
    if d > q {
      AtLeastOneBlock(d - q, n);
    } else if d < q {
      AtLeastOneBlock(q - d, n);
    }
  }

  /** `config.n == 0` in `'nth'` mode keeps nothing, because `i % 0` is NaN. */
  lemma NthZeroKeepsNothing(count: nat)
    ensures KeptIndices(count, "nth", 0) == []
  {
  }
}
