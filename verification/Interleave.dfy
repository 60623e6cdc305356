/** Writing planar audio frames as packed samples: the two loops at the end of `decode` in testC.c. */
module Interleave {
  import opened Bytes
  import opened Arithmetic

  /** One plane per channel, each with room for `n` samples of `size` bytes. */
  ghost predicate Planar(planes: seq<seq<byte>>, size: nat, n: nat) {
    forall c :: 0 <= c < |planes| ==> |planes[c]| >= n * size
  }

  /** The place of byte `b` of sample `i` of channel `c` in the output. */
  function Place(channels: nat, size: nat, i: nat, c: nat, b: nat): (k: nat) {
    (i * channels + c) * size + b
  }

  lemma {:induction false} Rows(i: nat, n: nat, w: nat)
    requires i < n
    ensures i * w + w <= n * w
  {
    assert n * w == i * w + (n - i) * w;
    if w > 0 {
      AtLeastOnce(n - i, w);
    }
  }

  /** Places count up byte by byte, then channel by channel, then sample by sample. */
  lemma {:induction false} PlaceInRange(channels: nat, size: nat, i: nat, c: nat, b: nat, n: nat)
    requires i < n && c < channels && b < size
    ensures Place(channels, size, i, c, b) < n * channels * size
    ensures i * size + b < n * size
  {
    Rows(i, n, channels);
    Rows(i * channels + c, n * channels, size);
    Rows(i, n, size);
  }

  /** Every byte of the output has one place, and every place one byte. */
  lemma {:induction false} PlaceUnique(channels: nat, size: nat, i: nat, c: nat, b: nat)
    requires c < channels && b < size
    ensures var k := Place(channels, size, i, c, b);
            k / size / channels == i && k / size % channels == c && k % size == b
  {
    DivModUnique(Place(channels, size, i, c, b), i * channels + c, b, size);
    DivModUnique(i * channels + c, i, c, channels);
  }

  lemma Below(a: nat, n: nat, w: nat)
    requires w > 0 && a < n * w
    ensures a / w < n
  {
    var q, r := a / w, a % w;
    assert a == q * w + r;
    assert (n - q) * w == n * w - q * w;
    if q >= n {
      NotPositive(n - q, w);
    }
  }

  lemma Divided(k: nat, m: nat, w: nat) returns (q: nat, r: nat)
    requires k < m * w
    ensures q < m && r < w && q * w + r == k
  {
    if w > 0 {
      q, r := k / w, k % w;
      Below(k, m, w);
    } else {
      assert false;
    }
  }

  lemma PlaceOnto(channels: nat, size: nat, n: nat, k: nat) returns (i: nat, c: nat, b: nat)
    requires k < n * channels * size
    ensures i < n && c < channels && b < size && Place(channels, size, i, c, b) == k
  {
    var q;
    q, b := Divided(k, n * channels, size);
    i, c := Divided(q, n, channels);
  }

  /** `out` holds the first `n` samples of all channels, interleaved. */
  ghost predicate Packed(out: seq<byte>, planes: seq<seq<byte>>, size: nat, n: nat)
    requires Planar(planes, size, n)
  {
    && |out| == n * |planes| * size
    && forall i, c, b :: 0 <= i < n && 0 <= c < |planes| && 0 <= b < size ==> Holds(out, planes, size, i, c, b)
  }

  /** Byte `b` of sample `i` of channel `c` is in its place. */
  ghost predicate Holds(out: seq<byte>, planes: seq<seq<byte>>, size: nat, i: nat, c: nat, b: nat)
    requires c < |planes|
  {
    && Place(|planes|, size, i, c, b) < |out| && i * size + b < |planes[c]|
    && out[Place(|planes|, size, i, c, b)] == planes[c][i * size + b]
  }

  /** The bytes of one channel, taken from their places. */
  function Unpack(out: seq<byte>, channels: nat, size: nat, n: nat, c: nat): (plane: seq<byte>)
    requires c < channels && |out| == n * channels * size
  {
    seq(n * size, k requires 0 <= k < n * size =>
      UnpackInRange(channels, size, n, c, k);
      out[Place(channels, size, k / size, c, k % size)])
  }

  lemma {:induction false} UnpackInRange(channels: nat, size: nat, n: nat, c: nat, k: nat)
    requires c < channels && k < n * size
    ensures size > 0 && Place(channels, size, k / size, c, k % size) < n * channels * size
  {
    if size > 0 {
      Below(k, n, size);
      PlaceInRange(channels, size, k / size, c, k % size, n);
    }
  }

  /** Taking each channel's bytes from their places recovers the planes. */
  lemma {:induction false} UnpackRecovers(out: seq<byte>, planes: seq<seq<byte>>, size: nat, n: nat, c: nat)
    requires Planar(planes, size, n) && Packed(out, planes, size, n) && c < |planes|
    ensures Unpack(out, |planes|, size, n, c) == planes[c][..n * size]
  {
    hide Place;
    var plane := Unpack(out, |planes|, size, n, c);
    forall k | 0 <= k < n * size
      ensures plane[k] == planes[c][k]
    {
      UnpackInRange(|planes|, size, n, c, k);
      Below(k, n, size);
      assert Holds(out, planes, size, k / size, c, k % size);
      assert k / size * size + k % size == k;
    }
  }

  /** The output is determined: there is only one packed form of the planes. */
  lemma PackedUnique(a: seq<byte>, b: seq<byte>, planes: seq<seq<byte>>, size: nat, n: nat)
    requires Planar(planes, size, n) && Packed(a, planes, size, n) && Packed(b, planes, size, n)
    ensures a == b
  {
    hide Packed;
    assert |a| == |b| by {
      SameLength(a, b, planes, size, n);
    }
    forall k | 0 <= k < |a|
      ensures a[k] == b[k]
    {
      ByteDetermined(a, b, planes, size, n, k);
    }
  }

  lemma SameLength(a: seq<byte>, b: seq<byte>, planes: seq<seq<byte>>, size: nat, n: nat)
    requires Planar(planes, size, n) && Packed(a, planes, size, n) && Packed(b, planes, size, n)
    ensures |a| == |b|
  {
  }

  lemma ByteDetermined(a: seq<byte>, b: seq<byte>, planes: seq<seq<byte>>, size: nat, n: nat, k: nat)
    requires Planar(planes, size, n) && Packed(a, planes, size, n) && Packed(b, planes, size, n)
    requires k < |a| == |b|
    ensures a[k] == b[k]
  {
    hide Place;
    var i, c, j := PlaceOnto(|planes|, size, n, k);
    assert Holds(a, planes, size, i, c, j) && Holds(b, planes, size, i, c, j);
  }

  /** `fwrite(frame->data[ch] + data_size*i, 1, data_size, outfile)` */
  function Written(out: seq<byte>, plane: seq<byte>, size: nat, i: nat): (r: seq<byte>)
    requires (i + 1) * size <= |plane|
  {
    Rows(i, i + 1, size);
    out + plane[i * size..i * size + size]
  }

  /** What has been written before sample `i` of channel `c` is in its place. */
  ghost predicate Filled(out: seq<byte>, planes: seq<seq<byte>>, size: nat, n: nat, i: nat, c: nat)
    requires Planar(planes, size, n)
  {
    && |out| == (i * |planes| + c) * size
    && forall j, d, b :: 0 <= j < n && 0 <= d < |planes| && 0 <= b < size && (j < i || (j == i && d < c)) ==>
         Holds(out, planes, size, j, d, b)
  }

  lemma {:induction false} FilledNext(out: seq<byte>, planes: seq<seq<byte>>, size: nat, n: nat, i: nat, c: nat)
    requires Planar(planes, size, n) && i < n && c < |planes| && Filled(out, planes, size, n, i, c)
    ensures (i + 1) * size <= |planes[c]|
    ensures Filled(Written(out, planes[c], size, i), planes, size, n, i, c + 1)
  {
    Rows(i, n, size);
    Rows(i, i + 1, size);
    assert (i + 1) * size == i * size + size;
    var r := Written(out, planes[c], size, i);
    assert |r| == (i * |planes| + c) * size + size == (i * |planes| + c + 1) * size;
    forall j, d, b | 0 <= j < n && 0 <= d < |planes| && 0 <= b < size && (j < i || (j == i && d < c + 1))
      ensures Holds(r, planes, size, j, d, b)
    {
      if j == i && d == c {
        assert Place(|planes|, size, i, c, b) == |out| + b;
        assert r[|out| + b] == planes[c][i * size..i * size + size][b];
      } else {
        assert Holds(out, planes, size, j, d, b);
      }
    }
  }

  lemma FilledRow(out: seq<byte>, planes: seq<seq<byte>>, size: nat, n: nat, i: nat)
    requires Planar(planes, size, n) && Filled(out, planes, size, n, i, |planes|)
    ensures Filled(out, planes, size, n, i + 1, 0)
  {
    assert i * |planes| + |planes| == (i + 1) * |planes|;
  }

  /** The two loops: sample by sample, channel by channel. */
  method WriteFrame(planes: seq<seq<byte>>, dataSize: nat, nbSamples: nat) returns (out: seq<byte>)
    requires Planar(planes, dataSize, nbSamples)
    ensures Packed(out, planes, dataSize, nbSamples)
  {
    hide Written, Filled;
    out := [];
    FilledStart(planes, dataSize, nbSamples);
    for i := 0 to nbSamples
      invariant Filled(out, planes, dataSize, nbSamples, i, 0)
    {
      for ch := 0 to |planes|
        invariant Filled(out, planes, dataSize, nbSamples, i, ch)
      {
        FilledNext(out, planes, dataSize, nbSamples, i, ch);
        out := Written(out, planes[ch], dataSize, i);
      }
      FilledRow(out, planes, dataSize, nbSamples, i);
    }
    FilledEnd(out, planes, dataSize, nbSamples);
  }

  lemma FilledStart(planes: seq<seq<byte>>, size: nat, n: nat)
    requires Planar(planes, size, n)
    ensures Filled([], planes, size, n, 0, 0)
  {
  }

  lemma FilledEnd(out: seq<byte>, planes: seq<seq<byte>>, size: nat, n: nat)
    requires Planar(planes, size, n) && Filled(out, planes, size, n, n, 0)
    ensures Packed(out, planes, size, n)
  {
    hide Holds;
  }
}
