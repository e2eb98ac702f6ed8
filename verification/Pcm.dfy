/** Sixteen-bit samples, the C conversions applied to them, and interleaved channels. */
module Pcm {

  /** The source's `short`. */
  type Sample = x: int | -32768 <= x <= 32767

  /** The C conversion of a floating value to `int`: toward zero. */
  function Trunc(x: real): (n: int)
    ensures 0.0 <= x ==> n as real <= x < (n + 1) as real
    ensures x < 0.0 ==> (n - 1) as real < x <= n as real
  {
    if 0.0 <= x then x.Floor else -((-x).Floor)
  }

  function Saturate(value: int): (y: Sample)
    ensures -32768 <= value <= 32767 ==> y == value
  {
    if value > 32767 then 32767 else if value < -32768 then -32768 else value
  }

  function Distance(a: int, b: int): (d: nat)
    ensures d == a - b || d == b - a
  {
    if a <= b then b - a else a - b
  }

  /** Saturating gives the nearest sixteen-bit value: no other is as close. */
  lemma {:induction false} SaturateIsNearest(value: int, z: Sample)
    ensures Distance(Saturate(value), value) <= Distance(z, value)
    ensures Distance(Saturate(value), value) == Distance(z, value) ==> z == Saturate(value)
  {
  }

  /** C integer division, which rounds toward zero. */
  function TruncDiv(a: int, b: int): int
    requires 0 < b
  {
    if 0 <= a then a / b else -((-a) / b)
  }

  lemma {:induction false} TruncOfQuotient(a: int, b: int)
    requires 0 < b
    ensures Trunc(a as real / b as real) == TruncDiv(a, b)
  {
    if 0 <= a {
      FloorOfQuotient(a, b);
    } else {
      FloorOfQuotient(-a, b);
      assert -(a as real / b as real) == (-a) as real / b as real;
    }
  }

  lemma {:induction false} FloorOfQuotient(a: nat, b: nat)
    requires 0 < b
    ensures (a as real / b as real).Floor == a / b
  {
    var q, r := a / b, a % b;
    assert a == q * b + r;
    assert a as real == q as real * b as real + r as real;
    assert a as real / b as real == q as real + r as real / b as real;
    assert 0.0 <= r as real / b as real < 1.0;
  }

  /** The samples of channel `ch` of an interleaved stereo buffer. */
  function Channel<T>(xs: seq<T>, ch: nat): (c: seq<T>)
    requires ch < 2
    ensures |c| == |xs| / 2
    ensures forall i :: 0 <= i < |c| ==> c[i] == xs[2 * i + ch]
  {
    seq(|xs| / 2, i requires 0 <= i < |xs| / 2 => xs[2 * i + ch])
  }

  function Interleave<T>(left: seq<T>, right: seq<T>): (xs: seq<T>)
    requires |left| == |right|
    ensures |xs| == 2 * |left|
  {
    seq(2 * |left|, i requires 0 <= i < 2 * |left| => if i % 2 == 0 then left[i / 2] else right[i / 2])
  }

  /** An interleaved buffer is determined by its two channels. */
  lemma {:induction false} ChannelsDetermine<T>(xs: seq<T>, left: seq<T>, right: seq<T>)
    requires |xs| % 2 == 0 && Channel(xs, 0) == left && Channel(xs, 1) == right
    ensures xs == Interleave(left, right)
  {
    var ys := Interleave(left, right);
    forall i | 0 <= i < |xs|
      ensures xs[i] == ys[i]
    {
      ChannelAt(xs, i);
    }
  }

  lemma {:induction false} ChannelAt<T>(xs: seq<T>, i: nat)
    requires i < |xs| && |xs| % 2 == 0
    ensures xs[i] == Channel(xs, i % 2)[i / 2]
  {
    assert i == 2 * (i / 2) + i % 2;
  }

  lemma {:induction false} ChannelOfInterleave<T>(left: seq<T>, right: seq<T>)
    requires |left| == |right|
    ensures Channel(Interleave(left, right), 0) == left
    ensures Channel(Interleave(left, right), 1) == right
  {
  }
}
