/** Exponential backoff with shift-form scalers, jitter and the retry counter. */
module Backoff {
  import opened Wrappers

  const UINT32_MODULUS := 0x1_0000_0000
  const UINT32_MAX := 0xFFFF_FFFF

  // ---- scalers ------------------------------------------------------------

  /** One constructor per specialised scaling factor. */
  datatype Scale =
    | X1_125 | X1_25 | X1_375 | X1_5 | X1_625 | X1_75 | X1_875
    | X2 | X2_5 | X3 | X3_5 | X4

  /** The factor written in the template argument. */
  ghost function Factor(s: Scale): real {
    match s
    case X1_125 => 1.125
    case X1_25 => 1.25
    case X1_375 => 1.375
    case X1_5 => 1.5
    case X1_625 => 1.625
    case X1_75 => 1.75
    case X1_875 => 1.875
    case X2 => 2.0
    case X2_5 => 2.5
    case X3 => 3.0
    case X3_5 => 3.5
    case X4 => 4.0
  }

  /** The multiplier that the specialisation applies before shifting right. */
  function Multiplier(s: Scale): nat {
    match s
    case X1_125 => 9
    case X1_25 => 5
    case X1_375 => 11
    case X1_5 => 3
    case X1_625 => 13
    case X1_75 => 7
    case X1_875 => 15
    case X2 => 2
    case X2_5 => 5
    case X3 => 3
    case X3_5 => 7
    case X4 => 4
  }

  /** The divisor that the right shift of the specialisation amounts to. */
  function Divisor(s: Scale): (d: nat)
    ensures d in {1, 2, 4, 8}
  {
    match s
    case X1_125 | X1_375 | X1_625 | X1_875 => 8
    case X1_25 | X1_75 => 4
    case X1_5 | X2_5 | X3_5 => 2
    case X2 | X3 | X4 => 1
  }

  /** The requires clause of the specialisation. */
  predicate Clampable(s: Scale, max: nat) {
    max <= UINT32_MAX / Multiplier(s)
  }

  /** The shift form on 32-bit words, wrap-around included. */
  function ScaleAndClamp(s: Scale, max: nat, v: nat): nat {
    Min((v * Multiplier(s)) % UINT32_MODULUS / Divisor(s), max)
  }

  lemma ProductFits(s: Scale, max: nat, v: nat)
    requires Clampable(s, max) && v <= max
    ensures 0 <= v * Multiplier(s) <= UINT32_MAX
    ensures ScaleAndClamp(s, max, v) == Min(v * Multiplier(s) / Divisor(s), max)
  {
    var w := v * Multiplier(s);
    assert 0 <= w <= UINT32_MAX;
    SmallMod(w);
  }

  lemma SmallMod(w: nat)
    requires w <= UINT32_MAX
    ensures w % UINT32_MODULUS == w
  {
  }

  /** No wrap-around happens and the result is the clamped floor of the exact product. */
  lemma ScalerIsExact(s: Scale, max: nat, v: nat)
    requires Clampable(s, max) && v <= max
    ensures ScaleAndClamp(s, max, v) == Min((Factor(s) * v as real).Floor, max)
  {
    ProductFits(s, max, v);
    FloorOfProduct(s, v);
  }

  lemma FloorOfProduct(s: Scale, v: nat)
    ensures (Factor(s) * v as real).Floor == v * Multiplier(s) / Divisor(s)
  {
    var q, d := v * Multiplier(s) / Divisor(s), Divisor(s);
    assert q * d <= v * Multiplier(s) < q * d + d;
    assert Factor(s) * v as real * d as real == (v * Multiplier(s)) as real by {
      match s case _ =>
    }
    assert q as real <= Factor(s) * v as real < (q + 1) as real;
  }

  lemma ScalerGrows(s: Scale, max: nat, v: nat)
    requires Clampable(s, max) && v <= max
    ensures v <= ScaleAndClamp(s, max, v) <= max
  {
    ProductFits(s, max, v);
    FactorAboveOne(s, v);
  }

  lemma FactorAboveOne(s: Scale, v: nat)
    ensures v <= v * Multiplier(s) / Divisor(s)
    ensures v < v * Multiplier(s) / Divisor(s) <==> v * (Multiplier(s) - Divisor(s)) >= Divisor(s)
  {
  }

  /** Below the cap, a delay grows exactly when the exact product gains a whole unit. */
  lemma GrowsExactly(s: Scale, max: nat, v: nat)
    requires Clampable(s, max) && v < max
    ensures v <= ScaleAndClamp(s, max, v) <= max
    ensures v < ScaleAndClamp(s, max, v) <==> (Factor(s) * v as real).Floor > v
    ensures v < ScaleAndClamp(s, max, v) <==> v * (Multiplier(s) - Divisor(s)) >= Divisor(s)
    ensures s == X1_125 ==> (v < ScaleAndClamp(s, max, v) <==> v >= 8)
  {
    ProductFits(s, max, v);
    FloorOfProduct(s, v);
    FactorAboveOne(s, v);
  }

  // ---- jitter -------------------------------------------------------------

  datatype Jitter = NoJitter | Quarter | Half | ThreeQuarters | Full

  /** The deterministic part of a jittered delay. */
  function JitterBase(j: Jitter, max: nat): nat {
    match j
    case NoJitter => max
    case Quarter => max - max / 4
    case Half => max - max / 2
    case ThreeQuarters => max / 4
    case Full => 0
  }

  /** A uniform draw from [0, max - base] reads the raw word modulo the range size. */
  function Jittered(j: Jitter, max: nat, raw: nat): (d: nat)
    ensures JitterBase(j, max) <= d <= max
  {
    JitterBase(j, max) + raw % (max - JitterBase(j, max) + 1)
  }

  /** Equal jitter covers exactly the upper half, both ends included. */
  lemma EqualJitterRange(max: nat, d: nat)
    ensures (exists raw: nat :: Jittered(Half, max, raw) == d) <==> (max + 1) / 2 <= d <= max
  {
    if (max + 1) / 2 <= d <= max {
      var raw: nat := d - JitterBase(Half, max);
      assert Jittered(Half, max, raw) == d;
    }
  }

  // ---- exponential backoff ------------------------------------------------

  datatype Policy =
    | Fixed(delay: nat)
    | Exponential(min: nat, max: nat, scale: Scale, jitter: Jitter)
  {
    /** The requires clause of the backoff template. */
    predicate Valid() {
      match this
      case Fixed(d) => d <= UINT32_MAX
      case Exponential(lo, hi, s, _) => lo <= hi && Clampable(s, hi)
    }

    function Initial(): nat {
      if Fixed? then delay else min
    }

    /** The undithered delay that follows `current`. */
    function Following(current: nat): nat {
      if Fixed? then delay else Min(ScaleAndClamp(scale, max, current), max)
    }

    function Dithered(current: nat, raw: nat): nat {
      if Fixed? then delay else Min(Jittered(jitter, current, raw), max)
    }

    function Cap(): nat {
      if Fixed? then delay else max
    }
  }

  /** The undithered delay after n advances. */
  function Nth(p: Policy, n: nat): nat {
    if n == 0 then p.Initial() else p.Following(Nth(p, n - 1))
  }

  /** Delays stay below the cap and never shrink. */
  lemma {:induction false} DelaysAreMonotone(p: Policy, n: nat)
    requires p.Valid()
    ensures Nth(p, n) <= Nth(p, n + 1) <= p.Cap()
  {
    if n > 0 {
      DelaysAreMonotone(p, n - 1);
    }
    if p.Exponential? {
      ScalerGrows(p.scale, p.max, Nth(p, n));
    }
  }

  lemma DoublingStep(max: nat, v: nat)
    requires Clampable(X2, max) && v <= max
    ensures ScaleAndClamp(X2, max, v) == Min(2 * v, max)
  {
    ProductFits(X2, max, v);
  }

  lemma MulAssociates(a: int, b: int)
    ensures a * (2 * b) == 2 * (a * b)
  {
  }

  /** Doubling has the closed form min(Min * 2^n, Max). */
  lemma {:induction false} DoublingClosedForm(p: Policy, n: nat)
    requires p.Valid() && p.Exponential? && p.scale == X2
    ensures Nth(p, n) == Min(p.min * Pow2(n), p.max)
  {
    if n > 0 {
      DoublingClosedForm(p, n - 1);
      DelaysAreMonotone(p, n - 1);
      var v, target := Nth(p, n - 1), p.min * Pow2(n - 1);
      DoublingStep(p.max, v);
      MulAssociates(p.min, Pow2(n - 1));
      assert p.min * Pow2(n) == 2 * target;
    }
  }

  lemma JitterCovers(j: Jitter, max: nat, d: nat)
    ensures (exists raw: nat :: Jittered(j, max, raw) == d) <==> JitterBase(j, max) <= d <= max
  {
    if JitterBase(j, max) <= d <= max {
      var raw: nat := d - JitterBase(j, max);
      SmallRaw(raw, max - JitterBase(j, max) + 1);
      assert Jittered(j, max, raw) == d;
    }
  }

  lemma SmallRaw(raw: nat, n: nat)
    requires raw < n
    ensures raw % n == raw
  {
  }

  /** Over all random words the n-th delay takes exactly the values between a share of the
      undithered delay and that delay: with equal jitter its upper half, without jitter itself. */
  lemma DelayRange(p: Policy, n: nat, d: nat)
    requires p.Valid()
    ensures var m := Nth(p, n);
      (exists raw: nat :: p.Dithered(m, raw) == d) <==>
        if p.Fixed? then d == p.delay
        else match p.jitter
          case NoJitter => d == m
          case Quarter => 3 * m <= 4 * d && d <= m
          case Half => m <= 2 * d && d <= m
          case ThreeQuarters => m < 4 * d + 4 && d <= m
          case Full => d <= m
  {
    var m := Nth(p, n);
    DelaysAreMonotone(p, n);
    hide Nth, Jittered, Policy.Valid;
    if p.Fixed? {
      assert p.Dithered(m, 0) == p.delay;
    } else {
      JitterCovers(p.jitter, m, d);
      forall raw: nat
        ensures p.Dithered(m, raw) == Jittered(p.jitter, m, raw)
      {
      }
    }
  }

  /** The backoff object: the current delay advances in place. */
  class BackoffState {
    const policy: Policy
    var current: nat
    ghost var advances: nat

    ghost predicate Valid()
      reads this
    {
      policy.Valid() && current == Nth(policy, advances)
    }

    constructor (policy: Policy)
      requires policy.Valid()
      ensures Valid() && this.policy == policy && advances == 0
    {
      this.policy := policy;
      this.current := policy.Initial();
      this.advances := 0;
    }

    method Reset()
      requires Valid()
      modifies this
      ensures Valid() && advances == 0
    {
      current := policy.Initial();
      advances := 0;
    }

    method Next(raw: nat) returns (d: nat)
      requires Valid()
      modifies this
      ensures Valid() && advances == old(advances) + 1
      ensures d == policy.Dithered(Nth(policy, advances), raw)
      ensures d <= Nth(policy, advances) <= policy.Cap()
    {
      DelaysAreMonotone(policy, advances);
      current := policy.Following(current);
      advances := advances + 1;
      d := policy.Dithered(current, raw);
    }
  }

  // ---- retry counter ------------------------------------------------------

  /** Attempts against a compile-time limit, with the backoff of one stop sequence. */
  class RetryState {
    const maxAttempts: nat
    const backoff: BackoffState
    var attempts: nat

    ghost predicate Valid()
      reads this, backoff
    {
      backoff.Valid()
    }

    constructor (maxAttempts: nat, policy: Policy)
      requires policy.Valid()
      ensures Valid() && fresh(backoff)
      ensures this.maxAttempts == maxAttempts && backoff.policy == policy
      ensures attempts == 0 && backoff.advances == 0
    {
      this.maxAttempts := maxAttempts;
      this.attempts := 0;
      this.backoff := new BackoffState(policy);
    }

    predicate Available()
      reads this
    {
      attempts < maxAttempts
    }

    predicate Expired()
      reads this
    {
      attempts >= maxAttempts
    }

    method AdvanceAttempt()
      modifies this`attempts
      ensures attempts == old(attempts) + 1
    {
      attempts := attempts + 1;
    }

    method ForceExpire()
      modifies this`attempts
      ensures attempts == maxAttempts
    {
      attempts := maxAttempts;
    }
  }
}
