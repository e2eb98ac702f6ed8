/** Where an output sample falls in the source stream, and how many outputs that yields. */
module Position {
  import opened Pcm

  /** The machine's value of `ratio * k`. */
  type Scale = nat -> real

  /** The source position of output `k`, without rounding: srcrate * k / tarrate. */
  function Exact(srcrate: nat, tarrate: nat, k: nat): real
    requires 0 < tarrate
  {
    (srcrate * k) as real / tarrate as real
  }

  function ExactScale(srcrate: nat, tarrate: nat): Scale
    requires 0 < tarrate
  {
    (k: nat) => Exact(srcrate, tarrate, k)
  }

  /** Rounding keeps `scale` non-negative, monotone, and within `slack` of the exact position. */
  ghost predicate Tolerant(scale: Scale, srcrate: nat, tarrate: nat, slack: real)
    requires 0 < tarrate
  {
    && (forall k: nat :: 0.0 <= scale(k))
    && (forall k: nat :: Exact(srcrate, tarrate, k) - slack <= scale(k) <= Exact(srcrate, tarrate, k) + slack)
    && (forall j: nat, k: nat :: j <= k ==> scale(j) <= scale(k))
  }

  function CeilDiv(a: int, b: int): int
    requires 0 < b
  {
    -((-a) / b)
  }

  function Ceil(x: real): (n: int)
    ensures (n - 1) as real < x <= n as real
  {
    -((-x).Floor)
  }

  lemma {:induction false} CeilDivIff(a: int, b: int, k: int)
    requires 0 < b
    ensures k < CeilDiv(a, b) <==> k * b < a
  {
    FloorDivIff(-a, b, -k);
  }

  lemma {:induction false} FloorDivIff(a: int, b: int, k: int)
    requires 0 < b
    ensures a / b < k <==> a < k * b
  {
    var q := a / b;
    assert q * b <= a < q * b + b;
    if q < k {
      TimesMonotone(q + 1, k, b);
      assert (q + 1) * b == q * b + b;
    } else {
      TimesMonotone(k, q, b);
    }
  }

  lemma {:induction false} TimesMonotone(x: int, y: int, b: nat)
    requires x <= y
    ensures x * b <= y * b
  {
    assert 0 <= (y - x) * b;
  }

  lemma {:induction false} DivShift(a: int, b: int, w: int)
    requires 0 < b
    ensures (a + w * b) / b == a / b + w
    ensures (a + w * b) % b == a % b
  {
    var q := a / b + w;
    assert (a / b) * b + a % b == a;
    assert q * b == (a / b) * b + w * b;
    FloorDivIff(a + w * b, b, q + 1);
    FloorDivIff(a + w * b, b, q);
    assert (q + 1) * b == q * b + b;
  }

  /** The number of outputs owed after `n` source samples, max(0, ceil(tarrate * (n - 1) / srcrate)). */
  function Total(srcrate: nat, tarrate: nat, n: nat): (m: nat)
    requires 0 < srcrate && 0 < tarrate
  {
    if n == 0 then 0 else
      CeilDivIff(tarrate * (n - 1), srcrate, -1);
      CeilDiv(tarrate * (n - 1), srcrate)
  }

  /** Output `k` needs source samples up to k's position plus one; `Total` counts those available. */
  lemma {:induction false} TotalIff(srcrate: nat, tarrate: nat, n: nat, k: nat)
    requires 0 < srcrate && 0 < tarrate
    ensures k < Total(srcrate, tarrate, n) <==> srcrate * k / tarrate + 1 < n
  {
    if n > 0 {
      CeilDivIff(tarrate * (n - 1), srcrate, k);
      FloorDivIff(srcrate * k, tarrate, n - 1);
      assert srcrate * k == k * srcrate && tarrate * (n - 1) == (n - 1) * tarrate;
    } else {
      FloorDivIff(srcrate * k, tarrate, 0);
    }
  }

  lemma {:induction false} ExactFloor(srcrate: nat, tarrate: nat, k: nat)
    requires 0 < tarrate
    ensures 0.0 <= Exact(srcrate, tarrate, k)
    ensures Trunc(Exact(srcrate, tarrate, k)) == srcrate * k / tarrate
  {
    FloorOfQuotient(srcrate * k, tarrate);
  }

  lemma {:induction false} ExactIsTolerant(srcrate: nat, tarrate: nat, slack: real)
    requires 0 < tarrate && 0.0 <= slack
    ensures Tolerant(ExactScale(srcrate, tarrate), srcrate, tarrate, slack)
  {
    var scale := ExactScale(srcrate, tarrate);
    forall k: nat
      ensures 0.0 <= scale(k)
    {
      ExactFloor(srcrate, tarrate, k);
    }
    forall j: nat, k: nat | j <= k
      ensures scale(j) <= scale(k)
    {
      TimesMonotone(j, k, srcrate);
      DivMonotone((srcrate * j) as real, (srcrate * k) as real, tarrate as real);
    }
  }

  lemma {:induction false} DivMonotone(a: real, b: real, t: real)
    requires a <= b && 0.0 < t
    ensures a / t <= b / t
  {
  }

  lemma {:induction false} ExactAtLeast(srcrate: nat, tarrate: nat, k: nat, m: nat)
    requires 0 < srcrate && 0 < tarrate && tarrate * m <= k
    ensures m as real <= Exact(srcrate, tarrate, k)
  {
    TimesMonotone(1, srcrate, k);
    FloorDivIff(srcrate * k, tarrate, m);
    ExactFloor(srcrate, tarrate, k);
    assert tarrate * m == m * tarrate;
  }
}
