/**
 Log-linear quantization: the bin that llquantize() code counts a value in
 (dt_cg_agg_llquantize_bin() and the parameter checks, libdtrace/dt_cg.c) and the weight
 that sorting gives to each bin (dt_aggregate_llquantizedsum(),
 libdtrace/dt_aggregate.c).

 Both are tied to the boundaries of the bins: bin i on either side of the underflow bin
 holds the magnitudes from Lower(i) up to Lower(i + 1).
 */
module Llquantize {
  import opened Word

  function Power(b: nat, e: nat): nat {
    if e == 0 then 1 else b * Power(b, e - 1)
  }

  /** The arguments of llquantize(). */
  datatype Params = Params(factor: nat, lmag: nat, hmag: nat, steps: nat) {
    /** The checks at compile time. */
    predicate Accepted() {
      && 2 <= factor <= 0xffff && lmag <= hmag <= 0xffff
      && Power(factor, hmag + 1) < W
      && 1 <= steps <= 0xffff
      && (steps < factor ==> factor % steps == 0)
      && (steps > factor ==>
            && steps % factor == 0
            && (if lmag == 0 then (factor * factor) % steps == 0 else Power(factor, lmag + 1) % steps == 0))
    }

    /** The bins of one magnitude that overlap with lower magnitudes. */
    function Overlap(): nat
      requires factor > 0
    {
      steps / factor
    }

    /** The bins of one magnitude that are its own. */
    function PerMag(): (k: int)
      requires factor >= 2 && steps >= 1
      ensures k >= 1
    {
      DivShrinks(steps, factor);
      HalfAtMost(steps, factor);
      steps - Overlap()
    }

    function Bins(): int
      requires Accepted()
    {
      (hmag - lmag + 1) * PerMag()
    }

    function Underflow(): int
      requires Accepted()
    {
      1 + Bins()
    }
  }

  lemma {:induction false} HalfAtMost(x: nat, d: nat)
    requires d >= 2 && x >= 1
    ensures x / d < x
  {
    assert x == d * (x / d) + x % d;
    if x / d >= x { MulMono(2, d, x / d); }
  }

  lemma {:induction false} PowerMono(b: nat, i: nat, j: nat)
    requires b >= 2 && i <= j
    ensures 1 <= Power(b, i) <= Power(b, j)
    ensures i < j ==> 2 * Power(b, i) <= Power(b, j)
    decreases j
  {
    if j == 0 {
    } else if i < j {
      PowerMono(b, i, j - 1);
      MulMono(2, b, Power(b, j - 1));
    } else {
      PowerMono(b, i - 1, j - 1);
      MulMono(1, b, Power(b, j - 1));
    }
  }

  lemma {:induction false} MultipleMore(x: nat, y: nat, d: nat)
    requires d >= 1 && x % d == 0
    ensures (y * x) % d == 0
  {
    assert x == d * (x / d);
    assert y * x == (y * (x / d)) * d;
    DivModUnique(y * x, d, y * (x / d), 0);
  }

  lemma {:induction false} PowerMultiple(b: nat, i: nat, j: nat, d: nat)
    requires d >= 1 && i <= j && Power(b, i) % d == 0
    ensures Power(b, j) % d == 0
  {
    if i < j {
      PowerMultiple(b, i, j - 1, d);
      MultipleMore(Power(b, j - 1), b, d);
    }
  }

  /** Magnitude `m` is divided into `steps` steps of equal width, except that there are
      fewer values than steps in magnitude 0 when steps exceeds the factor. */
  predicate Even(p: Params, m: nat) {
    m > 0 || p.steps <= p.factor
  }

  function StepWidth(p: Params, m: nat): nat
    requires p.steps >= 1
  {
    Power(p.factor, m + 1) / p.steps
  }

  lemma {:induction false} WidthDivides(p: Params, m: nat)
    requires p.Accepted() && p.lmag <= m && Even(p, m)
    ensures Power(p.factor, m + 1) % p.steps == 0
  {
    var f, s := p.factor, p.steps;
    PowerSmall(f);
    hide Power;
    if s < f {
      PowerMultiple(f, 1, m + 1, s);
    } else if s == f {
      DivModUnique(f, f, 1, 0);
      PowerMultiple(f, 1, m + 1, s);
    } else if p.lmag == 0 {
      PowerMultiple(f, 2, m + 1, s);
    } else {
      PowerMultiple(f, p.lmag + 1, m + 1, s);
    }
  }

  lemma {:induction false} PowerSmall(f: nat)
    ensures Power(f, 0) == 1 && Power(f, 1) == f && Power(f, 2) == f * f
  {
    assert Power(f, 1) == f * Power(f, 0);
    assert Power(f, 2) == f * Power(f, 1);
  }

  lemma {:induction false} ExactDiv(x: nat, d: nat)
    requires d >= 1 && x % d == 0
    ensures (x / d) * d == x && (x >= 1 ==> x / d >= 1)
  {
    assert x == d * (x / d) + x % d;
  }

  lemma {:induction false} StepWidthExact(p: Params, m: nat)
    requires p.Accepted() && p.lmag <= m && Even(p, m)
    ensures StepWidth(p, m) * p.steps == Power(p.factor, m + 1) && StepWidth(p, m) >= 1
  {
    WidthDivides(p, m);
    PowerMono(p.factor, 0, m + 1);
    hide Power;
    ExactDiv(Power(p.factor, m + 1), p.steps);
  }

  /** With more steps than the factor, the overlap is exact. */
  lemma {:induction false} OverlapExact(p: Params)
    requires p.Accepted() && p.steps > p.factor
    ensures p.Overlap() * p.factor == p.steps && p.Overlap() >= 1
  {
    hide Power;
    ExactDiv(p.steps, p.factor);
  }

  // ----- the boundaries of the bins -----

  function CeilDiv(x: nat, d: nat): nat
    requires d >= 1
  {
    DivShrinks(x + d - 1, d);
    (x + d - 1) / d
  }

  /** The magnitude of bin `i`, and its place among the bins of that magnitude. */
  function MagOf(p: Params, i: nat): nat
    requires p.factor >= 2 && p.steps >= 1 && i >= 1
  {
    DivShrinks(i - 1, p.PerMag());
    p.lmag + (i - 1) / p.PerMag()
  }

  function PlaceOf(p: Params, i: nat): nat
    requires p.factor >= 2 && p.steps >= 1 && i >= 1
  {
    (i - 1) % p.PerMag()
  }

  /** The least magnitude in bin `i`, for i from 1 to the overflow bin. */
  function Lower(p: Params, i: nat): nat
    requires p.Accepted() && i >= 1
  {
    LowerAt(p, MagOf(p, i), PlaceOf(p, i))
  }

  function LowerAt(p: Params, m: nat, r: nat): nat
    requires p.Accepted()
  {
    if r == 0 then Power(p.factor, m)
    else if Even(p, m) then (p.Overlap() + r) * StepWidth(p, m)
    else
      OverlapExact(p);
      CeilDiv(p.Overlap() + r, p.Overlap())
  }

  lemma {:induction false} BinAt(p: Params, m: nat, r: nat)
    requires p.factor >= 2 && p.steps >= 1 && p.lmag <= m && r < p.PerMag()
    ensures var i := (m - p.lmag) * p.PerMag() + r + 1;
      i >= 1 && MagOf(p, i) == m && PlaceOf(p, i) == r
  {
    var k := p.PerMag();
    MulMono(0, m - p.lmag, k);
    DivModUnique((m - p.lmag) * k + r, k, m - p.lmag, r);
  }

  /** The bin after bin `i`. */
  lemma {:induction false} NextBin(p: Params, i: nat)
    requires p.factor >= 2 && p.steps >= 1 && i >= 1
    ensures PlaceOf(p, i) < p.PerMag() && MagOf(p, i) >= p.lmag
    ensures i == (MagOf(p, i) - p.lmag) * p.PerMag() + PlaceOf(p, i) + 1
    ensures if PlaceOf(p, i) + 1 < p.PerMag()
        then MagOf(p, i + 1) == MagOf(p, i) && PlaceOf(p, i + 1) == PlaceOf(p, i) + 1
            else MagOf(p, i + 1) == MagOf(p, i) + 1 && PlaceOf(p, i + 1) == 0
  {
    var k := p.PerMag();
    var q, r := (i - 1) / k, (i - 1) % k;
    assert i - 1 == k * q + r;
    if r + 1 < k {
      DivModUnique(i, k, q, r + 1);
    } else {
      assert i == (q + 1) * k;
      DivModUnique(i, k, q + 1, 0);
    }
  }

  /** Boundaries ascend. */
  lemma {:induction false} LowerNext(p: Params, m: nat, r: nat)
    requires p.Accepted() && p.lmag <= m && r < p.PerMag()
    ensures LowerAt(p, m, r) <= if r + 1 < p.PerMag() then LowerAt(p, m, r + 1) else LowerAt(p, m + 1, 0)
  {
    hide Power, StepWidth, CeilDiv, Params.Accepted;
    AcceptedFactor(p);
    if r == 0 && r + 1 == p.PerMag() {
      PowerMono(p.factor, m, m + 1);
    } else if Even(p, m) {
      LowerNextEven(p, m, r);
    } else {
      LowerNextUneven(p, m, r);
    }
  }

  lemma {:induction false} AcceptedFactor(p: Params)
    requires p.Accepted()
    ensures p.factor >= 2 && p.steps >= 1
  {
  }

  lemma {:induction false} LowerNextEven(p: Params, m: nat, r: nat)
    requires p.Accepted() && p.lmag <= m && r < p.PerMag() && Even(p, m) && p.PerMag() > 1
    ensures LowerAt(p, m, r) <= if r + 1 < p.PerMag() then LowerAt(p, m, r + 1) else LowerAt(p, m + 1, 0)
  {
    var f, s, o := p.factor, p.steps, p.Overlap();
    StepWidthExact(p, m);
    PowerStep(f, m);
    QuotientBounds(s, f);
    var w := StepWidth(p, m);
    hide Power, StepWidth, Params.Accepted;
    if r == 0 {
      Squeeze(f, Power(f, m), w, s, o + 1);
    } else if r + 1 < p.PerMag() {
      MulMono(o + r, o + r + 1, w);
    } else {
      MulMono(o + r, s, w);
    }
  }

  lemma {:induction false} LowerNextUneven(p: Params, m: nat, r: nat)
    requires p.Accepted() && p.lmag <= m && r < p.PerMag() && !Even(p, m) && p.PerMag() > 1
    ensures LowerAt(p, m, r) <= if r + 1 < p.PerMag() then LowerAt(p, m, r + 1) else LowerAt(p, m + 1, 0)
  {
    var f, o := p.factor, p.Overlap();
    OverlapExact(p);
    PowerSmall(f);
    CeilAt(f, o);
    CeilAt(1, o);
    hide Power, CeilDiv, Params.Accepted;
    if r == 0 {
      CeilMono(o, o + 1, o);
    } else if r + 1 < p.PerMag() {
      CeilMono(o + r, o + r + 1, o);
    } else {
      CeilMono(o + r, f * o, o);
    }
  }

  lemma {:induction false} PowerStep(f: nat, m: nat)
    ensures Power(f, m + 1) == f * Power(f, m)
  {
  }

  lemma {:induction false} Squeeze(f: nat, x: nat, w: nat, s: nat, t: nat)
    requires f >= 1 && w * s == f * x && s < t * f
    ensures x <= t * w
  {
    MulMono(s, t * f, w);
    assert f * x <= f * (t * w) by {
      assert (t * f) * w == f * (t * w);
    }
    if x > t * w { MulMono(t * w + 1, x, f); }
  }

  lemma {:induction false} CeilMono(x: nat, y: nat, d: nat)
    requires d >= 1 && x <= y
    ensures CeilDiv(x, d) <= CeilDiv(y, d)
  {
    DivMono(x + d - 1, y + d - 1, d);
  }

  lemma {:induction false} DivMono(x: int, y: int, d: int)
    requires d >= 1 && x <= y
    ensures x / d <= y / d
  {
    var a, b := x / d, y / d;
    assert x == d * a + x % d && y == d * b + y % d;
    if a > b { MulMono(b + 1, a, d); }
  }

  lemma {:induction false} CeilAt(a: nat, d: nat)
    requires d >= 1
    ensures CeilDiv(a * d, d) == a
    ensures d >= 2 ==> CeilDiv(a * d + 1, d) == a + 1
    ensures d == 1 ==> CeilDiv(a * d + 1, d) == a + 1
  {
    DivModUnique(a * d + d - 1, d, a, d - 1);
    DivModUnique(a * d + 1 + d - 1, d, a + 1, 0);
  }

  lemma {:induction false} LowerMono(p: Params, i: nat, j: nat)
    requires p.Accepted() && 1 <= i <= j
    ensures Lower(p, i) <= Lower(p, j)
    decreases j
  {
    hide LowerAt, Params.Accepted, MagOf, PlaceOf;
    if i < j {
      LowerMono(p, i, j - 1);
      AcceptedFactor(p);
      NextBin(p, j - 1);
      LowerNext(p, MagOf(p, j - 1), PlaceOf(p, j - 1));
    }
  }

  // ----- the closed form -----

  /** The magnitude, from `m` on, of a value below the upper limit. */
  function MagFrom(p: Params, a: nat, m: nat): (r: nat)
    requires p.factor >= 2 && m <= p.hmag && Power(p.factor, m) <= a < Power(p.factor, p.hmag + 1)
    ensures m <= r <= p.hmag && Power(p.factor, r) <= a < Power(p.factor, r + 1)
    decreases p.hmag - m
  {
    if a < Power(p.factor, m + 1) then m else MagFrom(p, a, m + 1)
  }

  /** Which of the magnitude's steps a value is in. */
  function Step(p: Params, m: nat, a: nat): int
    requires p.Accepted() && p.lmag <= m
  {
    if m == 0 then a * p.steps / p.factor
    else
      StepWidthExact(p, m);
      a / StepWidth(p, m)
  }

  /** The number of the bin, counted from the underflow bin outwards. */
  function Position(p: Params, a: nat): int
    requires p.Accepted()
  {
    if a < Power(p.factor, p.lmag) then 0
    else if a >= Power(p.factor, p.hmag + 1) then p.Bins() + 1
    else PositionIn(p, MagFrom(p, a, p.lmag), a)
  }

  function PositionIn(p: Params, m: nat, a: nat): int
    requires p.Accepted() && p.lmag <= m
  {
    (m - p.lmag) * p.PerMag() + (Step(p, m, a) - p.Overlap()) + 1
  }

  /** The bin of a signed value: negative ones mirror positive ones. */
  function Bin(p: Params, v: int): int
    requires p.Accepted()
  {
    if v >= 0 then p.Underflow() + Position(p, v) else p.Underflow() - Position(p, -v)
  }

  lemma {:induction false} QuotientAtLeast(a: nat, w: nat, t: nat)
    requires w >= 1 && t * w <= a
    ensures t <= a / w
  {
    QuotientBounds(a, w);
    if t > a / w { MulMono(a / w + 1, t, w); }
  }

  lemma {:induction false} QuotientBelow(a: nat, w: nat, t: nat)
    requires w >= 1 && a < t * w
    ensures a / w < t
  {
    QuotientBounds(a, w);
    if t <= a / w { MulMono(t, a / w, w); }
  }

  /** When the steps are of equal width, the step is the quotient by the width. */
  lemma {:induction false} StepEven(p: Params, m: nat, a: nat)
    requires p.Accepted() && p.lmag <= m && Even(p, m)
    ensures StepWidth(p, m) >= 1 && Step(p, m, a) == a / StepWidth(p, m)
  {
    StepWidthExact(p, m);
    if m == 0 {
      PowerSmall(p.factor);
      hide Power, StepWidth, Params.Accepted;
      ScaledQuotient(a, p.steps, StepWidth(p, m));
    }
  }

  lemma {:induction false} ScaledQuotient(a: nat, s: nat, w: nat)
    requires s >= 1 && w >= 1
    ensures w * s >= 1 && a * s / (w * s) == a / w
  {
    var q := a / w;
    QuotientBounds(a, w);
    MulMono(1, w, s);
    MulMono(q * w, a, s);
    MulMono(a + 1, (q + 1) * w, s);
    assert (q * w) * s == q * (w * s) && ((q + 1) * w) * s == (q + 1) * (w * s);
    DivModUnique(a * s, w * s, q, a * s - q * (w * s));
  }

  /** A value of a magnitude `x` up to f times x, in steps of width `w`. */
  lemma {:induction false} QuotientInMag(f: nat, x: nat, s: nat, o: nat, w: nat, a: nat)
    requires f >= 1 && w >= 1 && w * s == f * x && o * f <= s && x <= a < f * x
    ensures o <= a / w < s && (a / w) * w <= a < (a / w + 1) * w
  {
    QuotientBounds(a, w);
    assert a < s * w;
    QuotientBelow(a, w, s);
    MulMono(o * f, s, w);
    assert (o * f) * w == f * (o * w);
    if o * w > x { MulMono(x + 1, o * w, f); }
    QuotientAtLeast(a, w, o);
  }

  lemma {:induction false} StepInEven(p: Params, m: nat, a: nat)
    requires p.Accepted() && p.lmag <= m && Even(p, m) && Power(p.factor, m) <= a < Power(p.factor, m + 1)
    ensures p.Overlap() <= Step(p, m, a) < p.steps
    ensures var q := Step(p, m, a) - p.Overlap();
      && LowerAt(p, m, q) <= a
      && (q + 1 < p.PerMag() ==> a < LowerAt(p, m, q + 1))
  {
    StepWidthExact(p, m);
    StepEven(p, m, a);
    PowerStep(p.factor, m);
    QuotientBounds(p.steps, p.factor);
    hide Power, StepWidth, Params.Accepted, Step;
    QuotientInMag(p.factor, Power(p.factor, m), p.steps, p.Overlap(), StepWidth(p, m), a);
  }

  lemma {:induction false} StepInUneven(p: Params, m: nat, a: nat)
    requires p.Accepted() && p.lmag <= m && !Even(p, m) && Power(p.factor, m) <= a < Power(p.factor, m + 1)
    ensures p.Overlap() <= Step(p, m, a) < p.steps
    ensures var q := Step(p, m, a) - p.Overlap();
      && LowerAt(p, m, q) <= a
      && (q + 1 < p.PerMag() ==> a < LowerAt(p, m, q + 1))
  {
    OverlapExact(p);
    PowerSmall(p.factor);
    var f, s, o := p.factor, p.steps, p.Overlap();
    assert a * s == (a * o) * f;
    DivModUnique(a * s, f, a * o, 0);
    MulMono(1, a, o);
    MulMono(a + 1, f, o);
    CeilAt(a, o);
    hide CeilDiv, Power, StepWidth;
  }

  /** The value's bin is the one between whose boundaries its magnitude lies. */
  lemma {:induction false} PositionExact(p: Params, a: nat)
    requires p.Accepted()
    ensures var i := Position(p, a);
      && 0 <= i <= p.Bins() + 1
      && (i > 0 ==> Lower(p, i) <= a)
      && (i <= p.Bins() ==> a < Lower(p, i + 1))
  {
    hide Params.Accepted, Params.Bins, Power, Step, Lower, PositionIn;
    AcceptedFactor(p);
    AcceptedMags(p);
    EndBins(p);
    if Power(p.factor, p.lmag) <= a < Power(p.factor, p.hmag + 1) {
      InMagnitude(p, MagFrom(p, a, p.lmag), a);
    }
  }

  lemma {:induction false} InMagnitude(p: Params, m: nat, a: nat)
    requires p.Accepted() && p.lmag <= m <= p.hmag && Power(p.factor, m) <= a < Power(p.factor, m + 1)
    ensures var i := PositionIn(p, m, a);
      1 <= i <= p.Bins() && Lower(p, i) <= a < Lower(p, i + 1)
  {
    hide Params.Accepted, Power, Step, LowerAt, MagOf, PlaceOf;
    AcceptedFactor(p);
    if Even(p, m) { StepInEven(p, m, a); } else { StepInUneven(p, m, a); }
    var q := Step(p, m, a) - p.Overlap();
    var k := p.PerMag();
    BinAt(p, m, q);
    var i := (m - p.lmag) * k + q + 1;
    NextBin(p, i);
    LowerFirst(p, m + 1);
    Counted(m - p.lmag, p.hmag - p.lmag, k, q);
  }

  lemma {:induction false} Counted(x: nat, y: nat, k: int, q: nat)
    requires x <= y && q < k
    ensures 0 <= x * k && x * k + q + 1 <= (y + 1) * k
  {
    MulMono(0, x, k);
    MulMono(x + 1, y + 1, k);
  }

  lemma {:induction false} LowerFirst(p: Params, m: nat)
    requires p.Accepted()
    ensures LowerAt(p, m, 0) == Power(p.factor, m)
  {
  }

  /** The first bin begins and the last one ends where the magnitudes do. */
  lemma {:induction false} EndBins(p: Params)
    requires p.Accepted()
    ensures p.Bins() >= 1 && Lower(p, 1) == Power(p.factor, p.lmag)
    ensures Lower(p, p.Bins() + 1) == Power(p.factor, p.hmag + 1)
  {
    hide Params.Accepted, Power, LowerAt;
    AcceptedFactor(p);
    AcceptedMags(p);
    MulMono(1, p.hmag - p.lmag + 1, p.PerMag());
    BinAt(p, p.lmag, 0);
    BinAt(p, p.hmag + 1, 0);
    LowerFirst(p, p.lmag);
    LowerFirst(p, p.hmag + 1);
  }

  lemma {:induction false} AcceptedMags(p: Params)
    requires p.Accepted()
    ensures p.lmag <= p.hmag
  {
  }

  /** Greater magnitudes are in farther bins. */
  lemma {:induction false} PositionMono(p: Params, a: nat, b: nat)
    requires p.Accepted() && a <= b
    ensures Position(p, a) <= Position(p, b)
  {
    hide Params.Accepted, Position, Lower;
    PositionExact(p, a);
    PositionExact(p, b);
    var i, j := Position(p, a), Position(p, b);
    if i > j { LowerMono(p, j + 1, i); }
  }

  /** Bins are in range, so that none is dropped, and ascend with the value. */
  lemma {:induction false} BinMono(p: Params, v: int, w: int)
    requires p.Accepted() && v <= w
    ensures 0 <= Bin(p, v) <= Bin(p, w) <= 2 * p.Bins() + 2
  {
    hide Params.Accepted, Position, Lower;
    PositionExact(p, Abs(v));
    PositionExact(p, Abs(w));
    if v >= 0 {
      PositionMono(p, v, w);
    } else if w < 0 {
      PositionMono(p, -w, -v);
    }
  }

  // ----- the emitted code -----

  lemma {:induction false} WrapSmall(x: int)
    requires 0 <= x < W
    ensures Wrap(x) == x
  {
  }

  lemma {:induction false} PowerBig(f: nat, n: nat)
    requires f >= 2
    ensures Power(f, n) >= Pow2(n)
  {
    if n > 0 {
      PowerBig(f, n - 1);
      MulMono(2, f, Power(f, n - 1));
    }
  }

  /** Bin numbers are small. */
  lemma {:induction false} BinsSmall(p: Params)
    requires p.Accepted()
    ensures p.hmag < 64 && 1 <= p.Bins() <= 0x40_0000
  {
    Pow2Of64();
    if p.hmag >= 63 {
      PowerMono(p.factor, 64, p.hmag + 1);
      PowerBig(p.factor, 64);
    }
    hide Power, Pow2;
    var n, k := p.hmag - p.lmag + 1, p.PerMag();
    MulMono(n, 64, k);
    MulMono(1, n, k);
  }

  lemma {:induction false} NegateWord(x: U64)
    requires x > 0
    ensures MulWord(x, W - 1) == W - x
  {
    WrapCongruent(x * (W - 1), W - x, x - 1);
  }

  lemma {:induction false} IndexWords(d: nat, k: nat, ind: nat)
    requires k >= 1 && d * k + ind + 1 < W
    ensures d < W && MulWord(d, k) == d * k
    ensures AddWord(AddWord(MulWord(d, k), ind), 1) == d * k + ind + 1
  {
    MulMono(1, k, d);
    MulMono(0, d, k);
    WrapSmall(d * k);
    WrapSmall(d * k + ind);
    WrapSmall(d * k + ind + 1);
  }

  lemma {:induction false} MirrorWord(i: nat, u: nat)
    requires 0 < i <= u < W
    ensures AddWord(MulWord(i, W - 1), u) == u - i
  {
    NegateWord(i);
    WrapCongruent(W - i + u, u - i, 1);
    WrapSmall(u - i);
  }

  /** The end of the code, from Lshift on: center around the underflow bin. */
  method Shift(p: Params, v: U64, mag: nat, ind: nat, ghost i: nat) returns (bin: U64)
    requires p.Accepted() && p.lmag <= mag
    requires i == (mag - p.lmag) * p.PerMag() + ind + 1 <= p.Bins() + 1
    ensures bin == if Signed(v) >= 0 then p.Underflow() + i else p.Underflow() - i
  {
    BinsSmall(p);
    hide Power, Params.Accepted, Params.Bins, MulWord, AddWord;
    var k, u := p.PerMag(), p.Underflow();
    IndexWords(mag - p.lmag, k, ind);
    var r := SubWord(mag, p.lmag);
    WrapSmall(mag - p.lmag);
    r := AddWord(AddWord(MulWord(r, k), ind), 1);
    if Signed(v) < 0 {
      MirrorWord(i, u);
      bin := AddWord(MulWord(r, W - 1), u);
    } else {
      SumWord(i, u);
      bin := AddWord(r, u);
    }
  }

  /** From Lbin on: the step within magnitude `mag`, whose upper limit is `max`. */
  method StepIn(p: Params, mag: nat, max: U64, tmp: U64) returns (ind: U64)
    requires p.Accepted() && p.lmag <= mag <= p.hmag
    requires max == Power(p.factor, mag + 1) && Power(p.factor, mag) <= tmp < max
    ensures ind == Step(p, mag, tmp) - p.Overlap() && ind < p.PerMag()
  {
    PowerSmall(p.factor);
    if Even(p, mag) { StepInEven(p, mag, tmp); } else { StepInUneven(p, mag, tmp); }
    ind := tmp;
    var m := max;
    if mag != 0 {
      StepWidthExact(p, mag);
      DivShrinks(max, p.steps);
      m := max / p.steps;
    } else {
      MulMono(tmp, 0xffff, p.steps);
      MulMono(0, tmp, p.steps);
      MulMono(p.steps, 0xffff, 0xffff);
      ind := MulWord(ind, p.steps);
      WrapSmall(tmp * p.steps);
    }
    DivShrinks(ind, m);
    ind := ind / m;
    ind := SubWord(ind, p.Overlap());
    WrapSmall(Step(p, mag, tmp) - p.Overlap());
  }

  /** The loop over the magnitudes: the one that `tmp` is in, with its upper limit, or
      none up to the highest one. */
  method FindMag(p: Params, tmp: U64) returns (mag: nat, max: U64, found: bool)
    requires p.Accepted() && Power(p.factor, p.lmag) <= tmp
    ensures p.lmag <= mag <= p.hmag + 1 && Power(p.factor, mag) <= tmp
    ensures if found then mag <= p.hmag && max == Power(p.factor, mag + 1) && tmp < max else mag == p.hmag + 1
  {
    hide Params.Accepted, Power;
    var f := p.factor;
    AcceptedMags(p);
    PowerFits(p, p.lmag);
    max := Power(f, p.lmag);
    mag := p.lmag;
    while true
      invariant p.lmag <= mag <= p.hmag && max == Power(f, mag) <= tmp
      decreases p.hmag - mag
    {
      PowerFits(p, mag + 1);
      PowerStep(f, mag);
      max := MulWord(max, f);
      WrapSmall(Power(f, mag + 1));
      if tmp < max { return mag, max, true; }
      mag := mag + 1;
      if mag > p.hmag { return mag, max, false; }
    }
  }

  /** dt_cg_agg_llquantize_bin: for all accepted parameters and all 64-bit values the
      code computes the closed form, without overflow on the way. */
  method BinOf(p: Params, v: U64) returns (bin: U64)
    requires p.Accepted()
    ensures bin == Bin(p, Signed(v))
  {
    BinsSmall(p);
    hide Params.Accepted, Params.Bins, Power, Step, PositionIn;
    AcceptedFactor(p);
    AcceptedMags(p);
    var tmp: U64 := v;
    if Signed(v) < 0 {
      NegateWord(v);
      tmp := MulWord(tmp, W - 1);
    }
    PowerFits(p, p.lmag);
    if tmp < Power(p.factor, p.lmag) { return p.Underflow(); }
    var mag, max, found := FindMag(p, tmp);
    if found {
      MagIs(p, tmp, p.lmag, mag);
      var ind := StepIn(p, mag, max, tmp);
      InMagnitude(p, mag, tmp);
      PositionIs(p, mag, tmp);
      bin := Shift(p, v, mag, ind, PositionIn(p, mag, tmp));
    } else {
      BinsCount(p);
      bin := Shift(p, v, mag, 0, p.Bins() + 1);
    }
  }

  lemma {:induction false} PositionIs(p: Params, m: nat, a: nat)
    requires p.Accepted() && p.lmag <= m
    ensures PositionIn(p, m, a) == (m - p.lmag) * p.PerMag() + (Step(p, m, a) - p.Overlap()) + 1
  {
  }

  lemma {:induction false} BinsCount(p: Params)
    requires p.Accepted()
    ensures p.Bins() == (p.hmag + 1 - p.lmag) * p.PerMag()
  {
  }

  lemma {:induction false} PowerFits(p: Params, m: nat)
    requires p.Accepted() && m <= p.hmag + 1
    ensures 1 <= Power(p.factor, m) < W
  {
    PowerMono(p.factor, m, p.hmag + 1);
  }

  lemma {:induction false} MagIs(p: Params, a: nat, m: nat, n: nat)
    requires p.factor >= 2 && m <= n <= p.hmag
    requires Power(p.factor, n) <= a < Power(p.factor, n + 1)
    ensures Power(p.factor, m) <= a < Power(p.factor, p.hmag + 1) && MagFrom(p, a, m) == n
    decreases n - m
  {
    PowerMono(p.factor, m, n);
    PowerMono(p.factor, n + 1, p.hmag + 1);
    if m < n {
      PowerMono(p.factor, m + 1, n);
      MagIs(p, a, m + 1, n);
    }
  }

  // ----- sorting by weight -----

  /** There are values in bin `i`. */
  predicate Reachable(p: Params, i: nat)
    requires p.Accepted() && i >= 1
  {
    Lower(p, i) < Lower(p, i + 1)
  }

  /** The weight of a bin is its lower boundary; bins without values have none. */
  function Weight(p: Params, i: nat): nat
    requires p.Accepted() && i >= 1
  {
    if Reachable(p, i) then Lower(p, i) else 0
  }

  /** The counts of bin `i` on either side. */
  function Balance(p: Params, q: seq<int>, i: nat): int
    requires p.Accepted() && |q| == 2 * p.Bins() + 3 && i <= p.Bins() + 1
  {
    q[p.Underflow() + i] - q[p.Underflow() - i]
  }

  /** The weighted sum of the bins 1 to `n`. */
  function Total(p: Params, q: seq<int>, n: nat): int
    requires p.Accepted() && |q| == 2 * p.Bins() + 3 && n <= p.Bins() + 1
  {
    if n == 0 then 0 else Total(p, q, n - 1) + Weight(p, n) * Balance(p, q, n)
  }

  /** The boundaries of a bin in terms of its magnitude and place. */
  lemma {:induction false} LowerPair(p: Params, m: nat, r: nat, i: int)
    requires p.Accepted() && p.lmag <= m && r < p.PerMag() && i == (m - p.lmag) * p.PerMag() + r + 1
    ensures i >= 1 && Lower(p, i) == LowerAt(p, m, r)
    ensures Lower(p, i + 1) == if r + 1 < p.PerMag() then LowerAt(p, m, r + 1) else LowerAt(p, m + 1, 0)
  {
    hide LowerAt, Params.Accepted, MagOf, PlaceOf;
    AcceptedFactor(p);
    BinAt(p, m, r);
    NextBin(p, i);
  }

  lemma {:induction false} Strictly(x: nat, w: nat)
    requires w >= 1
    ensures x * w < (x + 1) * w
  {
  }

  /** Evenly divided magnitudes have values in every bin. */
  lemma {:induction false} ReachableEven(p: Params, m: nat, r: nat)
    requires p.Accepted() && p.lmag <= m && Even(p, m) && r < p.PerMag()
    ensures LowerAt(p, m, r) < if r + 1 < p.PerMag() then LowerAt(p, m, r + 1) else LowerAt(p, m + 1, 0)
  {
    hide LowerAt, Params.Accepted, StepWidth;
    AcceptedFactor(p);
    StepWidthExact(p, m);
    LowerFirst(p, m + 1);
    var w := StepWidth(p, m);
    if r == 0 {
      ReachableFirst(p, m);
    } else {
      PlacedAt(p, m, r);
      Strictly(p.Overlap() + r, w);
      if r + 1 < p.PerMag() { PlacedAt(p, m, r + 1); }
    }
  }

  lemma {:induction false} ReachableFirst(p: Params, m: nat)
    requires p.Accepted() && p.lmag <= m && Even(p, m)
    ensures LowerAt(p, m, 0) < if p.PerMag() > 1 then LowerAt(p, m, 1) else LowerAt(p, m + 1, 0)
  {
    hide LowerAt, Params.Accepted, StepWidth, Power;
    AcceptedFactor(p);
    StepWidthExact(p, m);
    LowerFirst(p, m);
    LowerFirst(p, m + 1);
    var f := p.factor;
    PowerStep(f, m);
    PowerMono(f, m, m + 1);
    QuotientBounds(p.steps, f);
    if p.PerMag() > 1 {
      PlacedAt(p, m, 1);
      StrictSqueeze(f, Power(f, m), StepWidth(p, m), p.steps, p.Overlap() + 1);
    }
  }

  lemma {:induction false} StrictSqueeze(f: nat, x: nat, w: nat, s: nat, t: nat)
    requires f >= 1 && w >= 1 && w * s == f * x && s < t * f
    ensures x < t * w
  {
    MulMono(s + 1, t * f, w);
    assert (s + 1) * w == w * s + w && (t * f) * w == f * (t * w);
    if x >= t * w { MulMono(t * w, x, f); }
  }

  /** Bin `step` of magnitude `mag`, counted with the overlap, and what it weighs. */
  lemma {:induction false} WeightEven(p: Params, mag: nat, step: nat, i: int)
    requires p.Accepted() && p.lmag <= mag && Even(p, mag) && p.Overlap() < step <= p.steps
    requires i == (mag - p.lmag) * p.PerMag() + 1 + (step - p.Overlap())
    ensures i >= 1 && Weight(p, i) == step * StepWidth(p, mag)
  {
    hide Power, StepWidth, Params.Accepted, LowerAt, Lower;
    AcceptedFactor(p);
    var k, r := p.PerMag(), step - p.Overlap();
    if r < k {
      LowerPair(p, mag, r, i);
      ReachableEven(p, mag, r);
      PlacedAt(p, mag, r);
    } else {
      StepWidthExact(p, mag);
      assert (mag - p.lmag) * k + k == (mag + 1 - p.lmag) * k;
      LowerPair(p, mag + 1, 0, i);
      ReachableEven(p, mag + 1, 0);
      LowerFirst(p, mag + 1);
    }
  }

  lemma {:induction false} PlacedAt(p: Params, m: nat, r: nat)
    requires p.Accepted() && Even(p, m) && r > 0
    ensures LowerAt(p, m, r) == (p.Overlap() + r) * StepWidth(p, m)
  {
  }

  lemma {:induction false} FirstWeight(p: Params)
    requires p.Accepted()
    ensures Weight(p, 1) == Power(p.factor, p.lmag)
  {
    hide Power, Params.Accepted, LowerAt, Lower;
    AcceptedFactor(p);
    if Even(p, p.lmag) {
      LowerPair(p, p.lmag, 0, 1);
      LowerFirst(p, p.lmag);
      ReachableEven(p, p.lmag, 0);
    } else {
      OverlapTwo(p);
      PowerSmall(p.factor);
      WeightUneven(p, 1, 0, 1);
    }
  }

  /** In magnitude 0 with more steps than the factor, boundaries are rounded up. */
  lemma {:induction false} UnevenAt(p: Params, r: nat)
    requires p.Accepted() && p.steps > p.factor
    ensures p.Overlap() >= 2 && LowerAt(p, 0, r) == CeilDiv(p.Overlap() + r, p.Overlap())
  {
    OverlapTwo(p);
    CeilAt(1, p.Overlap());
    PowerSmall(p.factor);
  }

  /** Magnitude 0 with more steps than the factor: value `step` is in the first of as
      many bins as the overlap, and the others are empty. */
  lemma {:induction false} WeightUneven(p: Params, step: nat, t: nat, i: int)
    requires p.Accepted() && p.lmag == 0 && p.steps > p.factor && 1 <= step < p.factor && t < p.Overlap()
    requires i == (step - 1) * p.Overlap() + t + 1
    ensures i >= 1 && Weight(p, i) == if t == 0 then step else 0
  {
    hide CeilDiv, Power, Params.Accepted, LowerAt, Lower;
    AcceptedFactor(p);
    OverlapExact(p);
    var f, o := p.factor, p.Overlap();
    UnevenPlaces(f, o, step, t);
    var r := i - 1;
    LowerPair(p, 0, r, i);
    UnevenBounds(p, step, t, r);
  }

  lemma {:induction false} UnevenBounds(p: Params, step: nat, t: nat, r: nat)
    requires p.Accepted() && p.lmag == 0 && p.steps > p.factor && 1 <= step < p.factor && t < p.Overlap()
    requires p.Overlap() + r == step * p.Overlap() + t
    requires t + 1 == p.Overlap() ==> p.Overlap() + (r + 1) == (step + 1) * p.Overlap()
    requires r < p.PerMag() && (r + 1 == p.PerMag() ==> t + 1 == p.Overlap() && step + 1 == p.factor)
    ensures LowerAt(p, 0, r) == if t == 0 then step else step + 1
    ensures (if r + 1 < p.PerMag() then LowerAt(p, 0, r + 1) else LowerAt(p, 1, 0)) == step + 1
  {
    hide CeilDiv, Power, Params.Accepted, LowerAt;
    AcceptedFactor(p);
    var o := p.Overlap();
    UnevenAt(p, r);
    CeilBetween(step, o, t);
    if r + 1 < p.PerMag() {
      UnevenAt(p, r + 1);
      if t + 1 < o { CeilBetween(step, o, t + 1); } else { CeilAt(step + 1, o); }
    } else {
      PowerSmall(p.factor);
      LowerFirst(p, 1);
    }
  }

  lemma {:induction false} UnevenPlaces(f: nat, o: nat, step: nat, t: nat)
    requires 1 <= step < f && t < o
    ensures var r := (step - 1) * o + t;
      && 0 <= r < f * o - o && o + r == step * o + t
      && (t + 1 == o ==> o + (r + 1) == (step + 1) * o)
      && (r + 1 == f * o - o ==> t + 1 == o && step + 1 == f)
  {
    MulMono(0, step - 1, o);
    assert (step - 1) * o == step * o - o;
    MulMono(step + 1, f, o);
    assert (step + 1) * o == step * o + o;
    if step + 1 < f {
      MulMono(step + 2, f, o);
      assert (step + 2) * o == step * o + 2 * o;
    }
  }

  lemma {:induction false} OverlapTwo(p: Params)
    requires p.Accepted() && p.steps > p.factor
    ensures p.Overlap() >= 2
  {
    OverlapExact(p);
  }

  lemma {:induction false} CeilBetween(a: nat, d: nat, t: nat)
    requires d >= 1 && t < d
    ensures CeilDiv(a * d + t, d) == if t == 0 then a else a + 1
  {
    if t == 0 {
      CeilAt(a, d);
    } else {
      DivModUnique(a * d + t + d - 1, d, a + 1, t - 1);
    }
  }

  /** The bins after the one for value `step` - 1 of magnitude 0 that have no values. */
  lemma {:induction false} TotalSkip(p: Params, q: seq<int>, step: nat, t: nat, i: int)
    requires p.Accepted() && |q| == 2 * p.Bins() + 3
    requires p.lmag == 0 && p.steps > p.factor && 2 <= step <= p.factor && t < p.Overlap()
    requires i == (step - 2) * p.Overlap() + 1
    ensures 1 <= i && i + t <= p.Bins() + 1 && Total(p, q, i + t) == Total(p, q, i)
    decreases t
  {
    hide Weight, Params.Accepted;
    UnevenRoom(p, step, t, i);
    if t > 0 {
      TotalSkip(p, q, step, t - 1, i);
      WeightUneven(p, step - 1, t, i + t);
      ZeroWeight(p, q, i + t);
    }
  }

  lemma {:induction false} ZeroWeight(p: Params, q: seq<int>, n: nat)
    requires p.Accepted() && |q| == 2 * p.Bins() + 3 && 1 <= n <= p.Bins() + 1 && Weight(p, n) == 0
    ensures Total(p, q, n) == Total(p, q, n - 1)
  {
    hide Weight, Params.Accepted;
  }

  lemma {:induction false} UnevenRoom(p: Params, step: nat, t: nat, i: int)
    requires p.Accepted() && p.lmag == 0 && p.steps > p.factor && 2 <= step <= p.factor && t <= p.Overlap()
    requires i == (step - 2) * p.Overlap() + 1
    ensures 1 <= i && i + t <= p.PerMag() + 1 <= p.Bins() + 1
    ensures step == p.factor && t == p.Overlap() ==> i + t == p.PerMag() + 1
  {
    OverlapExact(p);
    AcceptedMags(p);
    hide Power;
    RoomFor(p.factor, p.Overlap(), p.PerMag(), step, t, p.hmag - p.lmag + 1);
  }

  lemma {:induction false} RoomFor(f: int, o: int, k: int, step: int, t: int, mags: int)
    requires 2 <= step <= f && 0 <= t <= o && k == o * f - o && mags >= 1 && k >= 1
    ensures 0 <= (step - 2) * o && (step - 2) * o + t <= k <= mags * k
    ensures step == f && t == o ==> (step - 2) * o + t == k
  {
    MulMono(0, step - 2, o);
    MulMono(step - 2, f - 2, o);
    assert (f - 2) * o == o * f - 2 * o;
    MulMono(1, mags, k);
  }

  /** The weight of the bin that value `step` of magnitude 0 is in, or begins the next. */
  lemma {:induction false} UnevenWeight(p: Params, step: nat, i: int)
    requires p.Accepted() && p.lmag == 0 && p.steps > p.factor && 2 <= step <= p.factor
    requires i == (step - 2) * p.Overlap() + 1 + p.Overlap()
    ensures i >= 1 && Weight(p, i) == step
  {
    hide Power, Params.Accepted, LowerAt, Lower;
    AcceptedFactor(p);
    OverlapTwo(p);
    var o := p.Overlap();
    assert (step - 2) * o + o == (step - 1) * o;
    if step < p.factor {
      WeightUneven(p, step, 0, i);
    } else {
      UnevenRoom(p, step, o, i - o);
      LowerPair(p, 1, 0, i);
      ReachableEven(p, 1, 0);
      LowerFirst(p, 1);
      PowerSmall(p.factor);
    }
  }

  /** The first loop of the sum: magnitude 0 when it has more steps than values. */
  method UnevenSum(p: Params, q: seq<int>) returns (total: int, i: nat)
    requires p.Accepted() && |q| == 2 * p.Bins() + 3 && p.lmag == 0 && p.steps > p.factor
    ensures i == p.PerMag() + 1 <= p.Bins() + 1 && total == Total(p, q, i)
  {
    hide Weight, Params.Accepted, Power, Params.Bins;
    AcceptedFactor(p);
    FirstWeight(p);
    PowerSmall(p.factor);
    BinsPositive(p);
    var b, o := p.Underflow(), p.Overlap();
    total := q[b + 1] - q[b - 1];
    i := 1;
    assert total == Total(p, q, 1) by { assert Total(p, q, 0) == 0; }
    var step := 2;
    while step <= p.factor
      invariant 2 <= step <= p.factor + 1 && i == (step - 2) * o + 1 <= p.Bins() + 1 && total == Total(p, q, i)
      invariant step == p.factor + 1 ==> i == p.PerMag() + 1
    {
      OverlapTwo(p);
      TotalSkip(p, q, step, o - 1, i);
      UnevenRoom(p, step, o, i);
      UnevenWeight(p, step, i + o);
      i := i + o;
      total := total + step * (q[b + i] - q[b - i]);
      assert (step - 2) * o + o == (step - 1) * o;
      step := step + 1;
    }
  }

  lemma {:induction false} BinsPositive(p: Params)
    requires p.Accepted()
    ensures p.Bins() >= 1
  {
    hide Power;
    MulMono(1, p.hmag - p.lmag + 1, p.PerMag());
  }

  /** The first bin of a magnitude. */
  function FirstBin(p: Params, mag: nat): int
    requires p.Accepted()
  {
    (mag - p.lmag) * p.PerMag() + 1
  }

  lemma {:induction false} FirstBins(p: Params)
    requires p.Accepted()
    ensures FirstBin(p, p.lmag) == 1 && FirstBin(p, p.hmag + 1) == p.Bins() + 1
    ensures p.lmag == 0 ==> FirstBin(p, 1) == p.PerMag() + 1
  {
    hide Power;
  }

  /** The steps of one evenly divided magnitude. */
  method MagSum(p: Params, q: seq<int>, mag: nat, scale: nat, total0: int) returns (total: int)
    requires p.Accepted() && |q| == 2 * p.Bins() + 3 && p.lmag <= mag <= p.hmag && Even(p, mag)
    requires scale == StepWidth(p, mag)
    requires 1 <= FirstBin(p, mag) <= p.Bins() + 1 && total0 == Total(p, q, FirstBin(p, mag))
    ensures 1 <= FirstBin(p, mag + 1) <= p.Bins() + 1 && total == Total(p, q, FirstBin(p, mag + 1))
  {
    hide Weight, Params.Accepted, Power, Params.Bins, StepWidth;
    AcceptedFactor(p);
    var b, o, k := p.Underflow(), p.Overlap(), p.PerMag();
    var first := FirstBin(p, mag);
    MagRoom(p, mag);
    var i := first;
    total := total0;
    var step := o + 1;
    while step <= p.steps
      invariant o + 1 <= step <= p.steps + 1 && i == first + (step - o - 1) <= p.Bins() + 1 && total == Total(p, q, i)
    {
      WeightEven(p, mag, step, i + 1);
      i := i + 1;
      total := total + step * scale * (q[b + i] - q[b - i]);
      step := step + 1;
    }
  }

  lemma {:induction false} MagRoom(p: Params, mag: nat)
    requires p.Accepted() && p.lmag <= mag <= p.hmag
    ensures var k := p.PerMag();
      && 1 <= (mag - p.lmag) * k + 1
      && (mag - p.lmag) * k + 1 + k == (mag + 1 - p.lmag) * k + 1 <= p.Bins() + 1
  {
    hide Power;
    var k := p.PerMag();
    MulMono(0, mag - p.lmag, k);
    MulMono(mag + 1 - p.lmag, p.hmag + 1 - p.lmag, k);
  }

  /** dt_aggregate_llquantizedsum: every bin with values counts with its lower boundary,
      positive on one side and negative on the other. */
  method WeightedSum(p: Params, q: seq<int>) returns (total: int)
    requires p.Accepted() && |q| == 2 * p.Bins() + 3
    ensures total == Total(p, q, p.Bins() + 1)
  {
    hide Weight, Params.Accepted, Power, Params.Bins, StepWidth;
    AcceptedFactor(p);
    AcceptedMags(p);
    BinsPositive(p);
    FirstBins(p);
    hide FirstBin;
    var b := p.Underflow();
    var mag := p.lmag;
    if p.lmag == 0 && p.steps > p.factor {
      var i;
      total, i := UnevenSum(p, q);
      mag := 1;
    } else {
      FirstWeight(p);
      total := Power(p.factor, p.lmag) * (q[b + 1] - q[b - 1]);
      assert total == Total(p, q, 1) by { assert Total(p, q, 0) == 0; }
    }
    var scale := StepWidth(p, mag);
    while mag <= p.hmag
      invariant p.lmag <= mag <= p.hmag + 1 && Even(p, mag) && scale == StepWidth(p, mag)
      invariant 1 <= FirstBin(p, mag) <= p.Bins() + 1 && total == Total(p, q, FirstBin(p, mag))
    {
      total := MagSum(p, q, mag, scale, total);
      NextWidth(p, mag);
      scale := scale * p.factor;
      mag := mag + 1;
    }
  }

  lemma {:induction false} NextWidth(p: Params, m: nat)
    requires p.Accepted() && p.lmag <= m && Even(p, m)
    ensures StepWidth(p, m + 1) == StepWidth(p, m) * p.factor
  {
    hide StepWidth, Params.Accepted;
    StepWidthExact(p, m);
    StepWidthExact(p, m + 1);
    PowerStep(p.factor, m + 1);
    hide Power;
    AcceptedFactor(p);
    var x, y := StepWidth(p, m + 1), StepWidth(p, m) * p.factor;
    assert x * p.steps == y * p.steps;
    if x < y { MulMono(x + 1, y, p.steps); } else if y < x { MulMono(y + 1, x, p.steps); }
  }
}
