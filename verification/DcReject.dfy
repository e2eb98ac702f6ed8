/** The two-stage high-pass filter, over the reals. */
module DcReject {
  import opened Basics
  import opened Pcm

  /** One channel's two cells of `hp_mem`. */
  datatype Memory = Memory(m0: real, m1: real)

  const ZERO := Memory(0.0, 0.0)

  /** `coef` is 4 * cutoff / Fs; `tiny` is the constant that keeps the cells off denormal numbers. */
  datatype Filter = Filter(coef: real, tiny: real) {

    predicate Stable() {
      0.0 < coef <= 1.0 && 0.0 <= tiny
    }

    function Next(h: Memory, x: real): Memory {
      var tmp := x - h.m0;
      Memory(h.m0 + coef * (x - h.m0) + tiny, h.m1 + coef * (tmp - h.m1) + tiny)
    }

    function Response(h: Memory, x: real): real {
      x - h.m0 - h.m1
    }

    function After(h: Memory, xs: seq<Sample>): Memory {
      if xs == [] then h else
        var last := |xs| - 1;
        Next(After(h, xs[..last]), xs[last] as real)
    }

    /** The value computed for sample `i`, before it is cut to sixteen bits. */
    function Value(h: Memory, xs: seq<Sample>, i: nat): real
      requires i < |xs|
    {
      Response(After(h, xs[..i]), xs[i] as real)
    }

    function Filtered(h: Memory, xs: seq<Sample>): (ys: seq<Sample>)
      ensures |ys| == |xs|
    {
      seq<Sample>(|xs|, i requires 0 <= i < |xs| => Saturate(Trunc(Value(h, xs, i))))
    }

    /** Each output is the sixteen-bit value nearest to the computed one, cut toward zero. */
    lemma {:induction false} FilteredIsNearest(h: Memory, xs: seq<Sample>, i: nat, z: Sample)
      requires i < |xs|
      ensures var value := Trunc(Value(h, xs, i));
              && Distance(Filtered(h, xs)[i], value) <= Distance(z, value)
              && (value < -32768 ==> Filtered(h, xs)[i] == -32768)
              && (-32768 <= value <= 32767 ==> Filtered(h, xs)[i] == value)
              && (32767 < value ==> Filtered(h, xs)[i] == 32767)
    {
      SaturateIsNearest(Trunc(Value(h, xs, i)), z);
    }

    lemma {:induction false} AfterNothing(h: Memory)
      ensures After(h, []) == h
    {
    }

    lemma {:induction false} OneMore(h: Memory, xs: seq<Sample>, i: nat)
      requires i < |xs|
      ensures var m, x := After(h, xs[..i]), xs[i] as real;
              && After(h, xs[..i + 1]) == Next(m, x)
              && Filtered(h, xs)[i] == Saturate(Trunc(Response(m, x)))
    {
      assert xs[..i + 1][..i] == xs[..i];
    }

    lemma {:induction false} AfterConcat(h: Memory, xs: seq<Sample>, ys: seq<Sample>)
      ensures After(h, xs + ys) == After(After(h, xs), ys)
      decreases |ys|
    {
      if ys == [] {
        assert xs + ys == xs;
      } else {
        var last := |ys| - 1;
        assert (xs + ys)[..|xs + ys| - 1] == xs + ys[..last];
        AfterConcat(h, xs, ys[..last]);
      }
    }

    /** Filtering the pieces with the memory carried over is filtering the whole. */
    lemma {:induction false} FilteredConcat(h: Memory, xs: seq<Sample>, ys: seq<Sample>)
      ensures Filtered(h, xs + ys) == Filtered(h, xs) + Filtered(After(h, xs), ys)
    {
      var zs := xs + ys;
      forall i | 0 <= i < |zs|
        ensures Value(h, zs, i) == if i < |xs| then Value(h, xs, i) else Value(After(h, xs), ys, i - |xs|)
      {
        if i < |xs| {
          assert zs[..i] == xs[..i];
        } else {
          assert zs[..i] == xs + ys[..i - |xs|];
          AfterConcat(h, xs, ys[..i - |xs|]);
        }
      }
    }

    /** The bounds both cells keep over any run of sixteen-bit input. */
    predicate Bounded(h: Memory)
      requires 0.0 < coef
    {
      && -(32768.0 + tiny / coef) <= h.m0 <= 32768.0 + tiny / coef
      && -(65536.0 + 2.0 * (tiny / coef)) <= h.m1 <= 65536.0 + 2.0 * (tiny / coef)
    }

    lemma {:induction false} RestIsBounded()
      requires Stable()
      ensures Bounded(ZERO)
    {
      QuotientNonNegative(tiny, coef);
    }

    lemma {:induction false} NextStaysBounded(h: Memory, x: Sample)
      requires Stable() && Bounded(h)
      ensures Bounded(Next(h, x as real))
    {
      var d := tiny / coef;
      assert coef * d == tiny;
      CellStaysBounded(coef, tiny, d, h.m0, x as real, 32768.0);
      CellStaysBounded(coef, tiny, d, h.m1, x as real - h.m0, 65536.0 + d);
    }

    lemma {:induction false} StaysBounded(h: Memory, xs: seq<Sample>)
      requires Stable() && Bounded(h)
      ensures Bounded(After(h, xs))
      decreases |xs|
    {
      if xs != [] {
        StaysBounded(h, xs[..|xs| - 1]);
        NextStaysBounded(After(h, xs[..|xs| - 1]), xs[|xs| - 1]);
      }
    }

    /** What is converted to `int` stays far inside it, over runs of any length. */
    lemma {:induction false} ValueIsBounded(h: Memory, xs: seq<Sample>, i: nat)
      requires Stable() && Bounded(h) && i < |xs|
      ensures var b := 131072.0 + 3.0 * (tiny / coef); -b <= Value(h, xs, i) <= b
    {
      StaysBounded(h, xs[..i]);
    }

    /** What is left of a constant `x` in the first stage's difference after n samples. */
    function Fading(n: nat, x: real): real {
      if n == 0 then x else Fading(n - 1, x) - coef * Fading(n - 1, x)
    }

    /** What the second cell then holds. */
    function Settling(n: nat, x: real): real {
      if n == 0 then 0.0 else Settling(n - 1, x) + coef * (Fading(n - 1, x) - Settling(n - 1, x))
    }

    /** The level the first cell settles at: the input plus the offset `tiny` puts on it. */
    function Level(x: Sample): real
      requires 0.0 < coef
    {
      x as real + tiny / coef
    }

    /** On a constant the first cell nears the level; the second forgets what it held and follows the first. */
    lemma {:induction false} ConstantInput(h: Memory, x: Sample, n: nat)
      requires 0.0 < coef
      ensures var f0 := Level(x) - h.m0;
              After(h, Repeat(x, n)) == Memory(Level(x) - Fading(n, f0), Settling(n, f0) + Fading(n, h.m1))
    {
      hide *;
      AfterRepeat(h, x, n);
      if n > 0 {
        ConstantInput(h, x, n - 1);
        ConstantStep(x, n, Level(x) - h.m0, h.m1);
      }
    }

    lemma {:induction false} AfterRepeat(h: Memory, x: Sample, n: nat)
      requires 0.0 < coef
      ensures var f0 := Level(x) - h.m0;
              n == 0 ==>
                After(h, Repeat(x, n)) == Memory(Level(x) - Fading(n, f0), Settling(n, f0) + Fading(n, h.m1))
      ensures 0 < n ==> After(h, Repeat(x, n)) == Next(After(h, Repeat(x, n - 1)), x as real)
    {
      if n > 0 {
        assert Repeat(x, n)[..n - 1] == Repeat(x, n - 1);
      }
    }

    lemma {:induction false} ConstantStep(x: Sample, n: nat, f0: real, s0: real)
      requires 0.0 < coef && 0 < n
      ensures var l := Level(x);
              Next(Memory(l - Fading(n - 1, f0), Settling(n - 1, f0) + Fading(n - 1, s0)), x as real)
              == Memory(l - Fading(n, f0), Settling(n, f0) + Fading(n, s0))
    {
      var l, d := Level(x), tiny / coef;
      assert coef * d == tiny;
      var f, s, g := Fading(n - 1, f0), Settling(n - 1, f0), Fading(n - 1, s0);
      assert coef * (f - (s + g)) == coef * (f - s) - coef * g;
      NextOf(l, d, f, s + g, Fading(n, f0), Settling(n, f0) + Fading(n, s0));
      assert l - d == x as real;
    }

    lemma {:induction false} NextOf(l: real, d: real, f: real, s: real, f': real, s': real)
      requires coef * d == tiny && f' == f - coef * f && s' == s + coef * (f - s)
      ensures Next(Memory(l - f, s), l - d) == Memory(l - f', s')
    {
      assert l - d - (l - f) == f - d;
      assert coef * (f - d) == coef * f - tiny;
      assert coef * (f - d - s) == coef * (f - s) - tiny;
    }

    lemma {:induction false} FadingIsPower(n: nat, x: real)
      ensures Fading(n, x) == PowerTerm(n, x)
    {
      if n > 0 {
        FadingIsPower(n - 1, x);
        PowerTermStep(n, x);
      }
    }

    lemma {:induction false} PowerTermStep(n: nat, x: real)
      requires 0 < n
      ensures PowerTerm(n, x) == PowerTerm(n - 1, x) - coef * PowerTerm(n - 1, x)
    {
      OneLess(coef, Pow(1.0 - coef, n - 1), x);
    }

    lemma {:induction false} SettlingIsPower(n: nat, x: real)
      ensures Settling(n, x) == HumpTerm(n, x)
    {
      hide *;
      SettlingBase(x);
      if 1 < n {
        FadingIsPower(n - 1, x);
        SettlingIsPower(n - 1, x);
        SettlingStep(n, x);
      }
    }

    lemma {:induction false} Unfolded(n: nat, x: real)
      requires 0 < n
      ensures Settling(n, x) == Settling(n - 1, x) + coef * (Fading(n - 1, x) - Settling(n - 1, x))
      ensures HumpTerm(n, x) == n as real * (coef * PowerTerm(n - 1, x))
    {
    }

    lemma {:induction false} SettlingBase(x: real)
      ensures Settling(0, x) == HumpTerm(0, x) && Settling(1, x) == HumpTerm(1, x)
    {
      assert Settling(0, x) == 0.0;
      assert Fading(0, x) == x == PowerTerm(0, x);
    }

    lemma {:induction false} SettlingStep(n: nat, x: real)
      requires 1 < n && Fading(n - 1, x) == PowerTerm(n - 1, x) && Settling(n - 1, x) == HumpTerm(n - 1, x)
      ensures Settling(n, x) == HumpTerm(n, x)
    {
      hide *;
      Unfolded(n, x);
      Unfolded(n - 1, x);
      PowerTermStep(n - 1, x);
      HumpStep(coef, PowerTerm(n - 2, x), (n - 1) as real, n as real, PowerTerm(n - 1, x),
               HumpTerm(n - 1, x), HumpTerm(n, x));
    }

    /** a^n * x and n * c * a^(n-1) * x, with a = 1 - c. */
    function PowerTerm(n: nat, x: real): real {
      Pow(1.0 - coef, n) * x
    }

    function HumpTerm(n: nat, x: real): real {
      if n == 0 then 0.0 else n as real * (coef * PowerTerm(n - 1, x))
    }

    /** The response to a constant from any memory: with f0 the distance of the first cell from the level,
        output number n is a^n * f0 - n * c * a^(n-1) * f0 - a^n * m1 - tiny / c. */
    lemma {:induction false} ConstantResponse(h: Memory, x: Sample, len: nat, n: nat)
      requires 0.0 < coef && n < len
      ensures var f0 := Level(x) - h.m0;
              Value(h, Repeat(x, len), n)
              == PowerTerm(n, f0) - HumpTerm(n, f0) - PowerTerm(n, h.m1) - tiny / coef
    {
      hide Fading, Settling, PowerTerm, HumpTerm, Level, After;
      assert Repeat(x, len)[..n] == Repeat(x, n);
      ConstantInput(h, x, n);
      FadingIsPower(n, Level(x) - h.m0);
      FadingIsPower(n, h.m1);
      SettlingIsPower(n, Level(x) - h.m0);
      LevelIs(x);
    }

    lemma {:induction false} LevelIs(x: Sample)
      requires 0.0 < coef
      ensures Level(x) == x as real + tiny / coef
    {
    }

    /** The response to a constant from rest: with l the input plus tiny / c, output number n is
        a^n * l - n * c * a^(n-1) * l - tiny / c. */
    lemma {:induction false} ClosedForm(x: Sample, len: nat, n: nat)
      requires 0.0 < coef && n < len
      ensures Value(ZERO, Repeat(x, len), n) == PowerTerm(n, Level(x)) - HumpTerm(n, Level(x)) - tiny / coef
    {
      hide Value, HumpTerm, Level;
      ConstantResponse(ZERO, x, len, n);
    }

    /** A constant is rejected, whatever was filtered before it: with m samples to one time constant of the
        filter, every output from number 22 * m + 1 on is zero. */
    lemma {:induction false} ConstantIsRejected(h: Memory, x: Sample, len: nat, m: nat, n: nat)
      requires 0.0 < coef < 1.0 && 0.0 <= tiny && tiny / coef <= 0.5 && Bounded(h)
      requires 1.0 <= m as real * coef && 22 * m + 1 <= n < len
      ensures Filtered(h, Repeat(x, len))[n] == 0
    {
      hide After, PowerTerm, HumpTerm, Level, Bounded, Value;
      QuotientNonNegative(tiny, coef);
      ConstantResponse(h, x, len, n);
      ResponseIsSmall(h, m, n, x);
      assert Filtered(h, Repeat(x, len))[n] == Saturate(Trunc(Value(h, Repeat(x, len), n)));
    }

    /** The factor by which the first cell's distance from the level still shows, reversed in sign. */
    function Residue(n: nat): real
      requires 0 < n
    {
      Pow(1.0 - coef, n - 1) * (n as real * coef - (1.0 - coef))
    }

    lemma {:induction false} TermsFactor(n: nat, x: real)
      requires 0 < n
      ensures HumpTerm(n, x) - PowerTerm(n, x) == Residue(n) * x
    {
      var p := Pow(1.0 - coef, n - 1);
      assert PowerTerm(n, x) == (1.0 - coef) * p * x;
      CommonFactor(coef, p, n as real, x);
    }

    /** After 22 time constants neither the first cell's distance nor the second cell's content shows. */
    lemma {:induction false} FactorIsSmall(m: nat, n: nat)
      requires 0.0 < coef < 1.0 && 1.0 <= m as real * coef && 22 * m + 1 <= n
      ensures var p := Pow(1.0 - coef, n);
              0.0 <= Residue(n) && 0.0 <= p && 131074.0 * (Residue(n) + p) < 1.0
    {
      hide *;
      ResidueIs(n);
      FactorBound(coef, m, n, Pow(1.0 - coef, n), Residue(n));
    }

    lemma {:induction false} ResidueIs(n: nat)
      requires 0 < n
      ensures Residue(n) == Pow(1.0 - coef, n - 1) * (Times(n, coef) - (1.0 - coef))
      ensures Pow(1.0 - coef, n) == (1.0 - coef) * Pow(1.0 - coef, n - 1)
    {
    }

    lemma {:induction false} ResponseIsSmall(h: Memory, m: nat, n: nat, x: Sample)
      requires 0.0 < coef < 1.0 && 0.0 <= tiny && tiny / coef <= 0.5 && Bounded(h)
      requires 1.0 <= m as real * coef && 22 * m + 1 <= n
      ensures var f0 := Level(x) - h.m0;
              -0.5 < PowerTerm(n, f0) - HumpTerm(n, f0) - PowerTerm(n, h.m1) < 0.5
    {
      hide *;
      var f0 := Level(x) - h.m0;
      MemoryIsNear(h, x);
      FactorIsSmall(m, n);
      TermsFactor(n, f0);
      PowerTermIs(n, h.m1);
      SmallResponse(Residue(n), Pow(1.0 - coef, n), f0, h.m1, HumpTerm(n, f0) - PowerTerm(n, f0),
                    PowerTerm(n, h.m1));
    }

    lemma {:induction false} PowerTermIs(n: nat, x: real)
      ensures PowerTerm(n, x) == Pow(1.0 - coef, n) * x
    {
    }

    lemma {:induction false} MemoryIsNear(h: Memory, x: Sample)
      requires 0.0 < coef && 0.0 <= tiny && tiny / coef <= 0.5 && Bounded(h)
      ensures -65537.0 <= Level(x) - h.m0 <= 65537.0 && -65537.0 <= h.m1 <= 65537.0
    {
      QuotientNonNegative(tiny, coef);
    }
  }

  lemma {:induction false} QuotientNonNegative(a: real, b: real)
    requires 0.0 <= a && 0.0 < b
    ensures 0.0 <= a / b
  {
  }

  lemma {:induction false} CommonFactor(c: real, p: real, k: real, x: real)
    ensures k * (c * (p * x)) - (1.0 - c) * p * x == p * (k * c - (1.0 - c)) * x
  {
  }

  /** One filter cell: a step of size c from m towards x, plus e, keeps the bound b + e/c. */
  lemma {:induction false} CellStaysBounded(c: real, e: real, d: real, m: real, x: real, b: real)
    requires 0.0 < c <= 1.0 && 0.0 <= e && c * d == e && 0.0 <= d
    requires -b <= x <= b && -(b + d) <= m <= b + d
    ensures -(b + d) <= m + c * (x - m) + e <= b + d
  {
    Towards(c, m, x, b + d, b);
    Towards(c, -m, -x, b + d, b);
    assert c * (-x - -m) == -(c * (x - m));
    assert c * (b + d - b) == e;
  }

  lemma {:induction false} Towards(c: real, m: real, x: real, k: real, b: real)
    requires 0.0 <= c <= 1.0 && m <= k && x <= b
    ensures m + c * (x - m) <= k - c * (k - b)
  {
    ProductNonNegative(1.0 - c, k - m);
    ProductNonNegative(c, b - x);
    assert (1.0 - c) * (k - m) == k - m - c * k + c * m;
    assert c * (b - x) == c * b - c * x;
    assert c * (x - m) == c * x - c * m && c * (k - b) == c * k - c * b;
  }

  lemma {:induction false} ProductMonotone(c: real, x: real, y: real)
    requires 0.0 <= c && x <= y
    ensures c * x <= c * y
  {
  }

  lemma {:induction false} ProductStrict(c: real, x: real, y: real)
    requires 0.0 < c && x < y
    ensures c * x < c * y
  {
  }

  function Repeat(x: Sample, n: nat): (xs: seq<Sample>)
    ensures |xs| == n
    ensures forall i :: 0 <= i < n ==> xs[i] == x
  {
    if n == 0 then [] else Repeat(x, n - 1) + [x]
  }

  function Pow(a: real, n: nat): real {
    if n == 0 then 1.0 else a * Pow(a, n - 1)
  }

  lemma {:induction false} OneLess(c: real, p: real, x: real)
    ensures c * (p * x) == p * x - (1.0 - c) * p * x
  {
  }

  lemma {:induction false} HumpStep(c: real, q: real, k: real, k': real, f: real, s: real, s': real)
    requires f == q - c * q && s == k * (c * q) && k' == k + 1.0 && s' == k' * (c * f)
    ensures s + c * (f - s) == s'
  {
    var r := c * q;
    assert c * f == r - c * r;
    assert c * s == k * (c * r);
    assert k * (r - c * r) == s - c * s;
    assert c * (f - s) == c * f - c * s;
  }

  lemma {:induction false} PowPositive(a: real, n: nat)
    requires 0.0 < a
    ensures 0.0 < Pow(a, n)
  {
    if n > 0 {
      PowPositive(a, n - 1);
    }
  }

  /** (1 - c)^n falls at least as fast as 1 / (1 + n * c). */
  lemma {:induction false} PowDecays(c: real, n: nat)
    requires 0.0 < c < 1.0
    ensures 0.0 < Pow(1.0 - c, n) && Pow(1.0 - c, n) * (1.0 + n as real * c) <= 1.0
  {
    hide *;
    PowPositive(1.0 - c, n);
    PowUnfolds(1.0 - c, n);
    if n > 0 {
      PowDecays(c, n - 1);
      LinearShrinks(c, n as real);
      DecayStep(1.0 - c, Pow(1.0 - c, n - 1), Pow(1.0 - c, n), 1.0 + n as real * c, 1.0 + (n - 1) as real * c);
    }
  }

  lemma {:induction false} LinearShrinks(c: real, k: real)
    requires 0.0 < c && 0.0 <= k
    ensures (1.0 - c) * (1.0 + k * c) <= 1.0 + (k - 1.0) * c
  {
    ProductNonNegative(k * c, c);
    assert (1.0 - c) * (1.0 + k * c) == 1.0 + (k - 1.0) * c - k * c * c;
  }

  lemma {:induction false} PowUnfolds(a: real, n: nat)
    ensures Pow(a, n) == if n == 0 then 1.0 else a * Pow(a, n - 1)
  {
  }

  lemma {:induction false} DecayStep(a: real, p: real, p': real, s: real, s': real)
    requires 0.0 < p && p' == a * p && a * s <= s' && p * s' <= 1.0
    ensures p' * s <= 1.0
  {
    ProductMonotone(p, a * s, s');
    assert a * p * s == p * (a * s);
  }

  lemma {:induction false} PowAdd(a: real, m: nat, n: nat)
    ensures Pow(a, m + n) == Pow(a, m) * Pow(a, n)
  {
    if m > 0 {
      PowAdd(a, m - 1, n);
      assert m + n - 1 == m - 1 + n;
    }
  }

  /** Every m samples at least halve what is left of a constant. */
  lemma {:induction false} PowHalves(c: real, m: nat, j: nat)
    requires 0.0 < c < 1.0 && 1.0 <= m as real * c
    ensures 0.0 < Pow(1.0 - c, m * j) && Pow(1.0 - c, m * j) * Pow(2.0, j) <= 1.0
  {
    PowPositive(1.0 - c, m * j);
    if j > 0 {
      PowHalves(c, m, j - 1);
      PowDecays(c, m);
      assert m * (j - 1) + m == m * j;
      PowAdd(1.0 - c, m * (j - 1), m);
      HalfStep(Pow(1.0 - c, m * (j - 1)), Pow(1.0 - c, m), Pow(2.0, j - 1), m as real * c);
    }
  }

  lemma {:induction false} TwoToThe20()
    ensures Pow(2.0, 20) == 1048576.0
  {
    PowAdd(2.0, 1, 1);
    PowAdd(2.0, 2, 2);
    PowAdd(2.0, 4, 1);
    PowAdd(2.0, 5, 5);
    PowAdd(2.0, 10, 10);
  }

  lemma {:induction false} HalfStep(p: real, q: real, t: real, u: real)
    requires 0.0 < p && 0.0 < q && p * t <= 1.0 && q * (1.0 + u) <= 1.0 && 1.0 <= u
    ensures p * q * (2.0 * t) <= 1.0
  {
    ProductMonotone(q, 2.0, 1.0 + u);
    ProductMonotone(q, p * t, 1.0);
    Twice(p, q, t);
    Halved(q * (p * t), q);
  }

  lemma {:induction false} Halved(h: real, q: real)
    requires h <= q && 2.0 * q <= 1.0
    ensures 2.0 * h <= 1.0
  {
  }

  lemma {:induction false} Twice(p: real, q: real, t: real)
    ensures p * q * (2.0 * t) == 2.0 * (q * (p * t))
  {
  }

  // Products under a name, so that a proof can treat them as one value.

  function Times(k: nat, c: real): real {
    k as real * c
  }

  lemma {:induction false} TimesParts(c: real, m: nat, n: nat, r: nat)
    requires n == 22 * m + r + 1 && 0.0 <= c
    ensures Times(n, c) == 22.0 * Times(m, c) + Times(r, c) + c && 0.0 <= Times(r, c)
    ensures Times(m, c) == m as real * c
  {
  }

  function Mul(x: real, y: real): real {
    x * y
  }

  function Product(x: real, y: real, z: real): real {
    x * y * z
  }

  /** What 22 * m + r samples leave, in three parts. */
  lemma {:induction false} PowParts(c: real, m: nat, r: nat) returns (x: real, y: real, z: real)
    requires 0.0 < c < 1.0 && 1.0 <= m as real * c
    ensures 0.0 < x && 0.0 < y && 0.0 < z && Pow(1.0 - c, 22 * m + r) == Product(x, y, z)
    ensures x * 1048576.0 <= 1.0 && z * (1.0 + Times(r, c)) <= 1.0
    ensures y * ((1.0 + Times(m, c)) * (1.0 + Times(m, c))) <= 1.0
  {
    hide *;
    x, y, z := Pow(1.0 - c, m * 20), Pow(1.0 - c, m + m), Pow(1.0 - c, r);
    PowHalves(c, m, 20);
    TwoToThe20();
    PowSquare(c, m);
    PowBelow(c, r);
    PowAdd(1.0 - c, m * 20, m + m);
    PowAdd(1.0 - c, m * 20 + (m + m), r);
    assert m * 20 + (m + m) + r == 22 * m + r;
    ProductIs(x, y, z);
  }

  lemma {:induction false} ProductIs(x: real, y: real, z: real)
    ensures Product(x, y, z) == x * y * z
  {
  }

  lemma {:induction false} PowBelow(c: real, n: nat)
    requires 0.0 < c < 1.0
    ensures 0.0 < Pow(1.0 - c, n) && Pow(1.0 - c, n) * (1.0 + Times(n, c)) <= 1.0 && 0.0 <= Times(n, c)
  {
    PowDecays(c, n);
  }

  lemma {:induction false} PowSquare(c: real, m: nat)
    requires 0.0 < c < 1.0
    ensures var u, y := 1.0 + Times(m, c), Pow(1.0 - c, m + m); 0.0 < y && y * (u * u) <= 1.0
  {
    hide *;
    PowBelow(c, m);
    PowPositive(1.0 - c, m + m);
    PowAdd(1.0 - c, m, m);
    Squared(Pow(1.0 - c, m), 1.0 + Times(m, c), Pow(1.0 - c, m + m));
  }

  lemma {:induction false} Squared(y: real, u: real, y2: real)
    requires 0.0 < y && 0.0 < u && y * u <= 1.0 && y2 == y * y
    ensures y2 * (u * u) <= 1.0
  {
    ProductNonNegative(y, u);
    UnitProduct(y * u, y * u);
    SquareOfProduct(y, u);
  }

  lemma {:induction false} SquareOfProduct(y: real, u: real)
    ensures y * y * (u * u) == y * u * (y * u)
  {
  }

  lemma {:induction false} DecayBound(c: real, u: real, v: real, t: real, x: real, y: real, z: real, p: real)
    requires 0.0 < c < 1.0 && 1.0 <= u && 0.0 <= v && t == 22.0 * u + v + c
    requires 0.0 < x && 0.0 < y && 0.0 < z && p == Product(x, y, z)
    requires x * 1048576.0 <= 1.0 && y * ((1.0 + u) * (1.0 + u)) <= 1.0 && z * (1.0 + v) <= 1.0
    ensures 0.0 < p && 131074.0 * Mul(p, t) < 1.0
  {
    var q := (1.0 + u) * (1.0 + u);
    SpanBelow(c, u, v, t, q);
    ThreeUnits(x, y, z, 1048576.0, q, 1.0 + v);
    Squeeze(p, t, 5.75 * (q * (1.0 + v)), 1048576.0 * (q * (1.0 + v)));
  }

  lemma {:induction false} SpanBelow(c: real, u: real, v: real, t: real, q: real)
    requires 0.0 < c < 1.0 && 1.0 <= u && 0.0 <= v && t == 22.0 * u + v + c && q == (1.0 + u) * (1.0 + u)
    ensures t <= 5.75 * (q * (1.0 + v)) && 4.0 <= q && 0.0 < q * (1.0 + v)
  {
    SquareGrows(u);
    SpanWithin(c, u, v, t, q);
  }

  lemma {:induction false} SpanWithin(c: real, u: real, v: real, t: real, q: real)
    requires c < 1.0 && 1.0 <= u && 0.0 <= v && t == 22.0 * u + v + c && 4.0 * u <= q
    ensures t <= 5.75 * (q * (1.0 + v)) && 0.0 < q * (1.0 + v)
  {
    ProductMonotone(v, 4.0, q);
    assert q * (1.0 + v) == q + v * q;
  }

  lemma {:induction false} SquareGrows(u: real)
    requires 1.0 <= u
    ensures 4.0 * u <= (1.0 + u) * (1.0 + u) && 4.0 <= (1.0 + u) * (1.0 + u)
  {
    ProductNonNegative(u - 1.0, u - 1.0);
    assert (1.0 + u) * (1.0 + u) == 4.0 * u + (u - 1.0) * (u - 1.0);
  }

  /** After 22 * m samples the hump n * c * (1 - c)^(n-1) is too low for 17 bits. */
  lemma {:induction false} HumpIsLow(c: real, m: nat, n: nat)
    requires 0.0 < c < 1.0 && 1.0 <= m as real * c && 22 * m + 1 <= n
    ensures 0.0 < Pow(1.0 - c, n - 1) && 1.0 <= Times(n, c)
    ensures 131074.0 * Mul(Pow(1.0 - c, n - 1), Times(n, c)) < 1.0
  {
    hide *;
    var r := n - 1 - 22 * m;
    var x, y, z := PowParts(c, m, r);
    TimesParts(c, m, n, r);
    DecayBound(c, Times(m, c), Times(r, c), Times(n, c), x, y, z, Pow(1.0 - c, n - 1));
  }

  lemma {:induction false} FactorBound(c: real, m: nat, n: nat, power: real, residue: real)
    requires 0.0 < c < 1.0 && 1.0 <= m as real * c && 22 * m + 1 <= n
    requires var p := Pow(1.0 - c, n - 1); residue == p * (Times(n, c) - (1.0 - c)) && power == (1.0 - c) * p
    ensures 0.0 <= residue && 0.0 <= power && 131074.0 * (residue + power) < 1.0
  {
    hide *;
    var p, t := Pow(1.0 - c, n - 1), Times(n, c);
    HumpIsLow(c, m, n);
    ResidueParts(c, p, t, power, residue);
    Chain(residue + power, Mul(p, t), 1.0);
  }

  lemma {:induction false} ResidueParts(c: real, p: real, t: real, power: real, residue: real)
    requires 0.0 < c < 1.0 && 0.0 < p && 1.0 <= t && residue == p * (t - (1.0 - c)) && power == (1.0 - c) * p
    ensures 0.0 <= residue && 0.0 <= power && residue + power == Mul(p, t)
  {
    ProductNonNegative(1.0 - c, p);
    ProductNonNegative(p, t - (1.0 - c));
    assert p * (t - (1.0 - c)) == p * t - (1.0 - c) * p;
  }

  lemma {:induction false} ThreeUnits(x: real, y: real, z: real, a: real, b: real, c: real)
    requires 0.0 < x && 0.0 < y && 0.0 < z && 0.0 < a && 0.0 < b && 0.0 < c
    requires x * a <= 1.0 && y * b <= 1.0 && z * c <= 1.0
    ensures 0.0 < x * y * z && x * y * z * (a * (b * c)) <= 1.0
  {
    ProductStrict(x, 0.0, y);
    ProductStrict(x * y, 0.0, z);
    ProductNonNegative(y, b);
    ProductNonNegative(z, c);
    UnitProduct(y * b, z * c);
    UnitProduct(x * a, y * b * (z * c));
    Regroup(x, y, z, a, b, c);
  }

  lemma {:induction false} UnitProduct(i: real, k: real)
    requires i <= 1.0 && 0.0 <= k <= 1.0
    ensures i * k <= 1.0
  {
    ProductMonotone(k, i, 1.0);
  }

  lemma {:induction false} Regroup(x: real, y: real, z: real, a: real, b: real, c: real)
    ensures x * y * z * (a * (b * c)) == x * a * (y * b * (z * c))
  {
  }

  lemma {:induction false} Squeeze(p: real, g: real, b: real, s: real)
    requires 0.0 < p && p * s <= 1.0 && g <= b && 131074.0 * b < s
    ensures 131074.0 * (p * g) < 1.0
  {
    ProductMonotone(p, g, b);
    ProductStrict(p, 131074.0 * b, s);
    Scaled(p, b);
    Chain(p * g, p * b, p * s);
  }

  lemma {:induction false} Scaled(p: real, b: real)
    ensures p * (131074.0 * b) == 131074.0 * (p * b)
  {
  }

  lemma {:induction false} Chain(x: real, y: real, t: real)
    requires x <= y && 131074.0 * y < t <= 1.0
    ensures 131074.0 * x < 1.0
  {
  }

  lemma {:induction false} SmallResponse(residue: real, power: real, f: real, s: real, a: real, b: real)
    requires 0.0 <= residue && 0.0 <= power && 131074.0 * (residue + power) < 1.0
    requires -65537.0 <= f <= 65537.0 && -65537.0 <= s <= 65537.0
    requires a == residue * f && b == power * s
    ensures -0.5 < -a - b < 0.5
  {
    Scales(residue, f);
    Scales(power, s);
    SumIsSmall(residue, power, a, b);
  }

  lemma {:induction false} SumIsSmall(r: real, p: real, a: real, b: real)
    requires 131074.0 * (r + p) < 1.0
    requires -(65537.0 * r) <= a <= 65537.0 * r && -(65537.0 * p) <= b <= 65537.0 * p
    ensures -0.5 < -a - b < 0.5
  {
  }

  lemma {:induction false} Scales(p: real, s: real)
    requires 0.0 <= p && -65537.0 <= s <= 65537.0
    ensures -(65537.0 * p) <= p * s <= 65537.0 * p
  {
    ProductNonNegative(p, 65537.0 - s);
    ProductNonNegative(p, 65537.0 + s);
    assert p * (65537.0 - s) == 65537.0 * p - p * s && p * (65537.0 + s) == 65537.0 * p + p * s;
  }
}
