/** The xorshift generators and the seed mixers, on words of any width. */
module Random {
  import opened Wrappers

  // ---- words: bits, lowest first ---------------------------------------------------------------

  function Xor(a: nat, b: nat): nat {
    if a == 0 && b == 0 then 0 else (if a % 2 == b % 2 then 0 else 1) + 2 * Xor(a / 2, b / 2)
  }

  function Shr(x: nat, k: nat): (r: nat)
    ensures r <= x && (0 < k && 0 < x ==> r < x)
    decreases k
  {
    if k == 0 then x else Shr(x / 2, k - 1)
  }

  function Shl(x: nat, k: nat): nat {
    if k == 0 then x else 2 * Shl(x, k - 1)
  }

  /** The low `n` bits. */
  function Low(x: nat, n: nat): (r: nat)
    ensures r < Pow2(n)
    decreases n
  {
    if n == 0 then 0 else x % 2 + 2 * Low(x / 2, n - 1)
  }

  lemma {:induction false} XorFits(a: nat, b: nat, n: nat)
    requires a < Pow2(n) && b < Pow2(n)
    ensures Xor(a, b) < Pow2(n)
  {
    if n > 0 {
      XorFits(a / 2, b / 2, n - 1);
    }
  }

  lemma {:induction false} XorUndoes(a: nat, b: nat)
    ensures Xor(Xor(a, b), b) == a && Xor(b, a) == Xor(a, b)
    decreases a + b
  {
    if a != 0 || b != 0 {
      XorUndoes(a / 2, b / 2);
    }
  }

  lemma {:induction false} ShrOfXor(a: nat, b: nat, k: nat)
    ensures Shr(Xor(a, b), k) == Xor(Shr(a, k), Shr(b, k))
    decreases k
  {
    if k > 0 {
      ShrOfXor(a / 2, b / 2, k - 1);
    }
  }

  lemma LowParts(x: nat, n: nat)
    requires 0 < n
    ensures Low(x, n) / 2 == Low(x / 2, n - 1) && Low(x, n) % 2 == x % 2
  {
  }

  lemma XorParts(a: nat, b: nat)
    ensures Xor(a, b) / 2 == Xor(a / 2, b / 2)
    ensures Xor(a, b) % 2 == if a % 2 == b % 2 then 0 else 1
  {
  }

  lemma {:induction false} LowOfXor(a: nat, b: nat, n: nat)
    ensures Low(Xor(a, b), n) == Xor(Low(a, n), Low(b, n))
    decreases n
  {
    if n > 0 {
      LowOfXor(a / 2, b / 2, n - 1);
      XorParts(a, b);
      XorParts(Low(a, n), Low(b, n));
      LowParts(a, n);
      LowParts(b, n);
      LowParts(Xor(a, b), n);
      hide Xor, Low;
    }
  }

  lemma {:induction false} LowOfShl(x: nat, k: nat, n: nat)
    ensures Low(Shl(x, k), n) == if k <= n then Shl(Low(x, n - k), k) else 0
    decreases k
  {
    if k > 0 {
      if n == 0 {
      } else {
        assert Shl(x, k) / 2 == Shl(x, k - 1);
        LowOfShl(x, k - 1, n - 1);
      }
    } 
  }

  lemma {:induction false} LowOfLow(x: nat, n: nat, m: nat)
    requires m <= n
    ensures Low(Low(x, n), m) == Low(x, m)
    decreases n
  {
    if m > 0 {
      LowOfLow(x / 2, n - 1, m - 1);
    }
  }

  lemma {:induction false} LowKeeps(x: nat, n: nat)
    requires x < Pow2(n)
    ensures Low(x, n) == x
  {
    if n > 0 {
      LowKeeps(x / 2, n - 1);
    }
  }

  // ---- the two kinds of xor-shift --------------------------------------------------------------

  function XorRight(x: nat, k: nat): nat {
    Xor(x, Shr(x, k))
  }

  function XorLeft(x: nat, k: nat, n: nat): nat {
    Xor(x, Low(Shl(x, k), n))
  }

  /** The high bits of the result are the high bits of the word: it can be recovered from there. */
  lemma {:induction false} XorRightIsInjective(x: nat, y: nat, k: nat)
    requires 0 < k
    ensures XorRight(x, k) == XorRight(y, k) <==> x == y
    decreases x + y
  {
    if XorRight(x, k) == XorRight(y, k) && (x != 0 || y != 0) {
      ShrOfXor(x, Shr(x, k), k);
      ShrOfXor(y, Shr(y, k), k);
      XorRightIsInjective(Shr(x, k), Shr(y, k), k);
      XorUndoes(x, Shr(x, k));
      XorUndoes(y, Shr(y, k));
    }
  }

  /** The low bits of the result are the low bits of the word. */
  lemma {:induction false} LowBitsRecovered(x: nat, y: nat, k: nat, n: nat, j: nat)
    requires 0 < k && j <= n && XorLeft(x, k, n) == XorLeft(y, k, n)
    ensures Low(x, j) == Low(y, j)
    decreases j
  {
    if j > 0 {
      LowOfXor(x, Low(Shl(x, k), n), j);
      LowOfXor(y, Low(Shl(y, k), n), j);
      LowOfLow(Shl(x, k), n, j);
      LowOfLow(Shl(y, k), n, j);
      LowOfShl(x, k, j);
      LowOfShl(y, k, j);
      if k <= j {
        LowBitsRecovered(x, y, k, n, j - k);
      }
      XorUndoes(Low(x, j), Low(Shl(x, k), j));
      XorUndoes(Low(y, j), Low(Shl(y, k), j));
    }
  }

  lemma XorLeftIsInjective(x: nat, y: nat, k: nat, n: nat)
    requires 0 < k && x < Pow2(n) && y < Pow2(n)
    ensures XorLeft(x, k, n) == XorLeft(y, k, n) <==> x == y
  {
    if XorLeft(x, k, n) == XorLeft(y, k, n) {
      LowBitsRecovered(x, y, k, n, n);
      LowKeeps(x, n);
      LowKeeps(y, n);
    }
  }

  // ---- generators ----------------------------------------------------------------------------------

  /** A generator: its width, its three shifts, and the state used instead of a zero seed. */
  datatype Generator = Generator(bits: nat, first: nat, second: nat, third: nat, default: nat) {
    ghost predicate Valid() {
      0 < first && 0 < second && 0 < third && 0 < default < Pow2(bits)
    }
  }

  const XORSHIFT32 := Generator(32, 13, 17, 5, 2463534242)
  const XORSHIFT64 := Generator(64, 13, 7, 17, 88172645463325252)

  lemma GeneratorsAreValid()
    ensures XORSHIFT32.Valid() && XORSHIFT64.Valid()
  {
    Pow2Of32And64();
  }

  lemma Pow2Of32And64()
    ensures Pow2(32) == 0x1_0000_0000 && Pow2(64) == 0x1_0000_0000_0000_0000
  {
    assert Pow2(4) == 16;
    hide Pow2;
    Pow2Doubles(4, 16);
    Pow2Doubles(8, 0x100);
    Pow2Doubles(16, 0x1_0000);
    Pow2Doubles(32, 0x1_0000_0000);
  }

  lemma Pow2Doubles(a: nat, v: nat)
    requires Pow2(a) == v
    ensures Pow2(2 * a) == v * v
  {
    Pow2Adds(a, a);
  }

  lemma {:induction false} Pow2Adds(a: nat, b: nat)
    ensures Pow2(a + b) == Pow2(a) * Pow2(b)
  {
    if a > 0 {
      Pow2Adds(a - 1, b);
      assert Pow2(a) * Pow2(b) == 2 * (Pow2(a - 1) * Pow2(b));
    }
  }

  function Step(g: Generator, x: nat): nat {
    XorLeft(XorRight(XorLeft(x, g.first, g.bits), g.second), g.third, g.bits)
  }

  function Start(g: Generator, seed: nat): nat {
    if seed == 0 then g.default else seed
  }

  function After(g: Generator, state: nat, n: nat): nat {
    if n == 0 then state else Step(g, After(g, state, n - 1))
  }

  lemma DoubleProduct(q: int, p: int)
    ensures q * (2 * p) == 2 * (q * p)
  {
  }

  lemma {:induction false} ShlIsProduct(x: nat, k: nat)
    ensures Shl(x, k) == x * Pow2(k)
  {
    if k > 0 {
      ShlIsProduct(x, k - 1);
      DoubleProduct(x, Pow2(k - 1));
    }
  }

  lemma {:induction false} ShrIsQuotient(x: nat, k: nat) returns (rest: nat)
    ensures x == Shr(x, k) * Pow2(k) + rest && rest < Pow2(k)
  {
    if k == 0 {
      rest := 0;
    } else {
      var p, q := Pow2(k - 1), Shr(x, k);
      assert Pow2(k) == 2 * p && q == Shr(x / 2, k - 1);
      var r := ShrIsQuotient(x / 2, k - 1);
      rest := 2 * r + x % 2;
      DoubleProduct(q, p);
    }
  }

  lemma {:induction false} LowIsRemainder(x: nat, n: nat) returns (q: nat)
    ensures x == q * Pow2(n) + Low(x, n)
  {
    if n == 0 {
      q := x;
    } else {
      var p, low := Pow2(n - 1), Low(x / 2, n - 1);
      assert Pow2(n) == 2 * p && Low(x, n) == x % 2 + 2 * low;
      q := LowIsRemainder(x / 2, n - 1);
      DoubleProduct(q, p);
    }
  }

  /** A bit of an exclusive or is set exactly when the two bits differ. */
  lemma BitOfXor(a: nat, b: nat, i: nat)
    ensures Shr(Xor(a, b), i) % 2 == 1 <==> Shr(a, i) % 2 != Shr(b, i) % 2
  {
    ShrOfXor(a, b, i);
    XorParts(Shr(a, i), Shr(b, i));
  }

  lemma ShiftsInNumbers(x: nat)
    ensures Shl(x, 13) == x * 0x2000 && Shl(x, 5) == x * 0x20 && Shl(x, 17) == x * 0x2_0000
    ensures Shr(x, 17) == x / 0x2_0000 && Shr(x, 7) == x / 0x80
  {
    assert Pow2(13) == 0x2000 && Pow2(17) == 0x2_0000 && Pow2(5) == 0x20 && Pow2(7) == 0x80;
    hide Shl, Shr, Pow2;
    ShlIsProduct(x, 13);
    ShlIsProduct(x, 5);
    ShlIsProduct(x, 17);
    var r := ShrIsQuotient(x, 17);
    assert x == Shr(x, 17) * 0x2_0000 + r && 0 <= r < 0x2_0000;
    var s := ShrIsQuotient(x, 7);
    assert x == Shr(x, 7) * 0x80 + s && 0 <= s < 0x80;
  }

  lemma WordsInNumbers(x: nat)
    ensures Low(x, 32) == x % 0x1_0000_0000 && Low(x, 64) == x % 0x1_0000_0000_0000_0000
  {
    Pow2Of32And64();
    hide Low, Pow2;
    var q := LowIsRemainder(x, 32);
    assert x == q * 0x1_0000_0000 + Low(x, 32);
    var p := LowIsRemainder(x, 64);
    assert x == p * 0x1_0000_0000_0000_0000 + Low(x, 64);
  }

  /** The two generators in plain numbers: shifts to the left are products modulo the word size, and
      shifts to the right are quotients. */
  lemma StepsInNumbers(x: nat)
    ensures var y := Xor(x, x * 0x2000 % 0x1_0000_0000);
      var z := Xor(y, y / 0x2_0000);
      Step(XORSHIFT32, x) == Xor(z, z * 0x20 % 0x1_0000_0000)
    ensures var y := Xor(x, x * 0x2000 % 0x1_0000_0000_0000_0000);
      var z := Xor(y, y / 0x80);
      Step(XORSHIFT64, x) == Xor(z, z * 0x2_0000 % 0x1_0000_0000_0000_0000)
    ensures Start(XORSHIFT32, 0) == 2463534242 && Start(XORSHIFT64, 0) == 88172645463325252
  {
    hide Xor, Shl, Shr, Low;
    ShiftsInNumbers(x);
    WordsInNumbers(x * 0x2000);
    var y, v := XorLeft(x, 13, 32), XorLeft(x, 13, 64);
    ShiftsInNumbers(y);
    ShiftsInNumbers(v);
    ShiftsInNumbers(XorRight(y, 17));
    ShiftsInNumbers(XorRight(v, 7));
    WordsInNumbers(XorRight(y, 17) * 0x20);
    WordsInNumbers(XorRight(v, 7) * 0x2_0000);
  }

  lemma XorShiftsFit(x: nat, k: nat, n: nat)
    requires x < Pow2(n)
    ensures XorLeft(x, k, n) < Pow2(n) && XorRight(x, k) < Pow2(n)
  {
    XorFits(x, Low(Shl(x, k), n), n);
    XorFits(x, Shr(x, k), n);
  }

  /** A step permutes the words of the generator's width and leaves zero, and only zero, zero. */
  lemma StepIsInjective(g: Generator, x: nat, y: nat)
    requires g.Valid() && x < Pow2(g.bits) && y < Pow2(g.bits)
    ensures Step(g, x) < Pow2(g.bits)
    ensures Step(g, x) == Step(g, y) <==> x == y
    ensures Step(g, 0) == 0
  {
    hide XorLeft, XorRight;
    var a, b := XorLeft(x, g.first, g.bits), XorLeft(y, g.first, g.bits);
    XorShiftsFit(x, g.first, g.bits);
    XorShiftsFit(y, g.first, g.bits);
    XorShiftsFit(a, g.second, g.bits);
    XorShiftsFit(b, g.second, g.bits);
    XorShiftsFit(XorRight(a, g.second), g.third, g.bits);
    XorLeftIsInjective(x, y, g.first, g.bits);
    XorRightIsInjective(a, b, g.second);
    XorLeftIsInjective(XorRight(a, g.second), XorRight(b, g.second), g.third, g.bits);
    XorShiftsOfZero(g.first, g.bits);
    XorShiftsOfZero(g.second, g.bits);
    XorShiftsOfZero(g.third, g.bits);
  }

  lemma {:induction false} XorShiftsOfZero(k: nat, n: nat)
    ensures XorLeft(0, k, n) == 0 && XorRight(0, k) == 0
  {
    ShlOfZero(k);
    LowKeeps(0, n);
  }

  lemma {:induction false} ShlOfZero(k: nat)
    ensures Shl(0, k) == 0
  {
    if k > 0 {
      ShlOfZero(k - 1);
    }
  }

  /** From any seed no state is ever zero. */
  lemma {:induction false} NeverZero(g: Generator, s: nat, n: nat)
    requires g.Valid() && 0 < s < Pow2(g.bits)
    ensures 0 < After(g, s, n) < Pow2(g.bits)
  {
    hide Step, Pow2, Generator.Valid;
    if n > 0 {
      NeverZero(g, s, n - 1);
      StepIsInjective(g, After(g, s, n - 1), 0);
    }
  }

  lemma AfterStep(g: Generator, s: nat, n: nat)
    requires 0 < n
    ensures After(g, s, n) == Step(g, After(g, s, n - 1))
  {
  }

  lemma {:induction false} StreamsStayApart(g: Generator, s: nat, t: nat, n: nat)
    requires g.Valid() && 0 < s < Pow2(g.bits) && 0 < t < Pow2(g.bits)
    ensures After(g, s, n) == After(g, t, n) <==> s == t
  {
    hide Step, Pow2, Generator.Valid;
    if n > 0 {
      StreamsStayApart(g, s, t, n - 1);
      AfterStep(g, s, n);
      AfterStep(g, t, n);
      NeverZero(g, s, n - 1);
      NeverZero(g, t, n - 1);
      StepIsInjective(g, After(g, s, n - 1), After(g, t, n - 1));
    }
  }

  lemma {:induction false} FirstReturn(g: Generator, s: nat, n: nat, k: nat)
    requires g.Valid() && 0 < s < Pow2(g.bits)
    ensures After(g, s, n) == After(g, s, n + k) <==> After(g, s, k) == s
    decreases n
  {
    hide Step, Pow2, Generator.Valid;
    if n > 0 {
      FirstReturn(g, s, n - 1, k);
      AfterStep(g, s, n);
      AfterStep(g, s, n + k);
      NeverZero(g, s, n - 1);
      NeverZero(g, s, n - 1 + k);
      StepIsInjective(g, After(g, s, n - 1), After(g, s, n - 1 + k));
    }
  }

  /** From any two seeds: no state is zero, the streams meet at a step exactly when they start
      alike, and the first state to come back is the start. */
  lemma StreamMeaning(g: Generator, seed: nat, other: nat, n: nat, k: nat)
    requires g.Valid() && seed < Pow2(g.bits) && other < Pow2(g.bits)
    ensures var s, t := Start(g, seed), Start(g, other);
      && 0 < After(g, s, n) < Pow2(g.bits)
      && (After(g, s, n) == After(g, t, n) <==> s == t)
      && (After(g, s, n) == After(g, s, n + k) <==> After(g, s, k) == s)
  {
    NeverZero(g, Start(g, seed), n);
    StreamsStayApart(g, Start(g, seed), Start(g, other), n);
    FirstReturn(g, Start(g, seed), n, k);
  }

  class Xorshift {
    const g: Generator
    var state: nat

    constructor (g: Generator, seed: nat)
      ensures this.g == g && state == Start(g, seed)
    {
      this.g := g;
      state := if seed == 0 then g.default else seed;
    }

    method Next() returns (x: nat)
      modifies this
      ensures x == state == Step(g, old(state))
    {
      x := state;
      x := Xor(x, Low(Shl(x, g.first), g.bits));
      x := Xor(x, Shr(x, g.second));
      x := Xor(x, Low(Shl(x, g.third), g.bits));
      state := x;
    }
  }

  // ---- mixers ------------------------------------------------------------------------------------------

  type Word32 = x: int | 0 <= x < 0x1_0000_0000
  type Word64 = x: int | 0 <= x < 0x1_0000_0000_0000_0000

  function Times32(x: Word32, m: int): Word32 { x * m % 0x1_0000_0000 }

  function Times64(x: Word64, m: int): Word64 { x * m % 0x1_0000_0000_0000_0000 }

  function Fold32(x: Word32, k: nat): Word32 {
    Pow2Of32And64();
    XorShiftsFit(x, k, 32);
    XorRight(x, k)
  }

  function Fold64(x: Word64, k: nat): Word64 {
    Pow2Of32And64();
    XorShiftsFit(x, k, 64);
    XorRight(x, k)
  }

  function Xor32(x: Word32, y: Word32): Word32 {
    Pow2Of32And64();
    XorFits(x, y, 32);
    Xor(x, y)
  }

  function Xor64(x: Word64, y: Word64): Word64 {
    Pow2Of32And64();
    XorFits(x, y, 64);
    Xor(x, y)
  }

  function Mix32(seed: Word32): Word32 {
    var a := Times32(Fold32(seed, 16), 0x85ebca6b);
    var b := Times32(Fold32(a, 13), 0xc2b2ae35);
    Fold32(b, 16)
  }

  function Mix64(seed: Word64): Word64 {
    var a := Times64(Fold64(seed, 30), 0xbf58476d1ce4e5b9);
    var b := Times64(Fold64(a, 27), 0x94d049bb133111eb);
    Fold64(b, 31)
  }

  /** The timestamp is cut to its low word. */
  function Seed32(tsc: Word64, thread: Word32): Word32 {
    Mix32(Xor32(tsc % 0x1_0000_0000, Times32(thread, 0x9e3779b9)))
  }

  function Seed64(tsc: Word64, thread: Word32): Word64 {
    Mix64(Xor64(tsc, Times64(thread, 0x9e3779b97f4a7c15)))
  }

  /** Multiplying by a word that has an inverse loses nothing: the inverse of `m` is `i`, and
      `c` counts how often their product goes round. */
  lemma Times32IsInjective(x: Word32, y: Word32, m: int, i: int, c: int)
    requires m * i == 1 + c * 0x1_0000_0000
    ensures Times32(x, m) == Times32(y, m) <==> x == y
  {
    if Times32(x, m) == Times32(y, m) {
      var d, q := x - y, x * m / 0x1_0000_0000 - y * m / 0x1_0000_0000;
      assert d * m == q * 0x1_0000_0000;
      Cancel(d, m, i, c, q, 0x1_0000_0000);
    }
  }

  lemma Times64IsInjective(x: Word64, y: Word64, m: int, i: int, c: int)
    requires m * i == 1 + c * 0x1_0000_0000_0000_0000
    ensures Times64(x, m) == Times64(y, m) <==> x == y
  {
    if Times64(x, m) == Times64(y, m) {
      var d, q := x - y, x * m / 0x1_0000_0000_0000_0000 - y * m / 0x1_0000_0000_0000_0000;
      assert d * m == q * 0x1_0000_0000_0000_0000;
      Cancel(d, m, i, c, q, 0x1_0000_0000_0000_0000);
    }
  }

  lemma Cancel(d: int, m: int, i: int, c: int, q: int, w: int)
    requires 0 < w && -w < d < w && m * i == 1 + c * w && d * m == q * w
    ensures d == 0
  {
    MulAssociates(d, m, i);
    MulAssociates(d, c, w);
    MulSwaps(q, w, i);
    OneMore(d, c * w);
    MulSubtracts(q * i, d * c, w);
    OnlyMultiple(d, q * i - d * c, w);
  }

  lemma MulAssociates(a: int, b: int, c: int)
    ensures (a * b) * c == a * (b * c)
  {
  }

  lemma MulSwaps(a: int, b: int, c: int)
    ensures (a * b) * c == (a * c) * b
  {
  }

  lemma OneMore(a: int, b: int)
    ensures a * (1 + b) == a + a * b
  {
  }

  lemma MulSubtracts(a: int, b: int, w: int)
    ensures (a - b) * w == a * w - b * w
  {
  }

  lemma OnlyMultiple(d: int, t: int, w: int)
    requires d == t * w && -w < d < w
    ensures d == 0
  {
    if t > 0 {
      AtLeastOnce(t, w);
    } else if t < 0 {
      MulSubtracts(0, t, w);
      AtLeastOnce(0 - t, w);
    }
  }

  lemma AtLeastOnce(t: int, w: int)
    requires 0 < t && 0 < w
    ensures t * w >= w
  {
    MulSubtracts(t, 1, w);
    if 1 < t {
      assert (t - 1) * w > 0;
    }
  }

  lemma MultipliersAreInvertible(x: Word32, y: Word32, u: Word64, v: Word64)
    ensures Times32(x, 0x9e3779b9) == Times32(y, 0x9e3779b9) <==> x == y
    ensures Times32(x, 0x85ebca6b) == Times32(y, 0x85ebca6b) <==> x == y
    ensures Times32(x, 0xc2b2ae35) == Times32(y, 0xc2b2ae35) <==> x == y
    ensures Times64(u, 0x9e3779b97f4a7c15) == Times64(v, 0x9e3779b97f4a7c15) <==> u == v
    ensures Times64(u, 0xbf58476d1ce4e5b9) == Times64(v, 0xbf58476d1ce4e5b9) <==> u == v
    ensures Times64(u, 0x94d049bb133111eb) == Times64(v, 0x94d049bb133111eb) <==> u == v
  {
    hide Times32, Times64;
    Times32IsInjective(x, y, 0x9e3779b9, 0x144cbc89, 0xc8bc280);
    Times32IsInjective(x, y, 0x85ebca6b, 0xa5cb9243, 0x56bb77f4);
    Times32IsInjective(x, y, 0xc2b2ae35, 0x7ed1b41d, 0x60736e9a);
    Times64IsInjective(u, v, 0x9e3779b97f4a7c15, 0xf1de83e19937733d, 0x957bbf35006ed677);
    Times64IsInjective(u, v, 0xbf58476d1ce4e5b9, 0x96de1b173f119089, 0x70c3bca78f27f46c);
    Times64IsInjective(u, v, 0x94d049bb133111eb, 0x319642b2d24d8ec3, 0x1cd336eda85f1453);
  }

  lemma WordFunctionsAreInjective(x: Word32, y: Word32, s: Word32, u: Word64, v: Word64, t: Word64, k: nat)
    requires 0 < k
    ensures Fold32(x, k) == Fold32(y, k) <==> x == y
    ensures Fold64(u, k) == Fold64(v, k) <==> u == v
    ensures Xor32(x, s) == Xor32(y, s) <==> x == y
    ensures Xor64(u, t) == Xor64(v, t) <==> u == v
    ensures Xor32(s, x) == Xor32(s, y) <==> x == y
    ensures Xor64(t, u) == Xor64(t, v) <==> u == v
  {
    XorRightIsInjective(x, y, k);
    XorRightIsInjective(u, v, k);
    XorUndoes(x, s);
    XorUndoes(y, s);
    XorUndoes(u, t);
    XorUndoes(v, t);
    hide Xor, XorRight, Pow2;
  }

  lemma Mix32IsInjective(x: Word32, y: Word32)
    ensures Mix32(x) == Mix32(y) <==> x == y
  {
    hide Fold32, Times32;
    var a, b := Times32(Fold32(x, 16), 0x85ebca6b), Times32(Fold32(y, 16), 0x85ebca6b);
    var c, d := Times32(Fold32(a, 13), 0xc2b2ae35), Times32(Fold32(b, 13), 0xc2b2ae35);
    WordFunctionsAreInjective(x, y, 0, 0, 0, 0, 16);
    MultipliersAreInvertible(Fold32(x, 16), Fold32(y, 16), 0, 0);
    WordFunctionsAreInjective(a, b, 0, 0, 0, 0, 13);
    MultipliersAreInvertible(Fold32(a, 13), Fold32(b, 13), 0, 0);
    WordFunctionsAreInjective(c, d, 0, 0, 0, 0, 16);
  }

  lemma Mix64IsInjective(x: Word64, y: Word64)
    ensures Mix64(x) == Mix64(y) <==> x == y
  {
    hide Fold64, Times64;
    var a, b := Times64(Fold64(x, 30), 0xbf58476d1ce4e5b9), Times64(Fold64(y, 30), 0xbf58476d1ce4e5b9);
    var c, d := Times64(Fold64(a, 27), 0x94d049bb133111eb), Times64(Fold64(b, 27), 0x94d049bb133111eb);
    WordFunctionsAreInjective(0, 0, 0, x, y, 0, 30);
    MultipliersAreInvertible(0, 0, Fold64(x, 30), Fold64(y, 30));
    WordFunctionsAreInjective(0, 0, 0, a, b, 0, 27);
    MultipliersAreInvertible(0, 0, Fold64(a, 27), Fold64(b, 27));
    WordFunctionsAreInjective(0, 0, 0, c, d, 0, 31);
  }

  /** With one thread, two 32-bit seeds are equal exactly when the low words of the timestamps
      are; with one timestamp, exactly when the threads are. */
  lemma Seed32IsInjective(t: Word64, u: Word64, a: Word32, b: Word32)
    ensures Seed32(t, a) == Seed32(u, a) <==> t % 0x1_0000_0000 == u % 0x1_0000_0000
    ensures Seed32(t, a) == Seed32(t, b) <==> a == b
  {
    hide Mix32, Times32, Xor32;
    var low, other := t % 0x1_0000_0000, u % 0x1_0000_0000;
    var g, h := Times32(a, 0x9e3779b9), Times32(b, 0x9e3779b9);
    MultipliersAreInvertible(a, b, 0, 0);
    WordFunctionsAreInjective(low, other, g, 0, 0, 0, 1);
    WordFunctionsAreInjective(g, h, low, 0, 0, 0, 1);
    Mix32IsInjective(Xor32(low, g), Xor32(other, g));
    Mix32IsInjective(Xor32(low, g), Xor32(low, h));
  }

  /** The same for 64-bit seeds and whole timestamps. */
  lemma Seed64IsInjective(t: Word64, u: Word64, a: Word32, b: Word32)
    ensures Seed64(t, a) == Seed64(u, a) <==> t == u
    ensures Seed64(t, a) == Seed64(t, b) <==> a == b
  {
    hide Mix64, Times64, Xor64;
    var g, h := Times64(a, 0x9e3779b97f4a7c15), Times64(b, 0x9e3779b97f4a7c15);
    MultipliersAreInvertible(0, 0, a, b);
    WordFunctionsAreInjective(0, 0, 0, t, u, g, 1);
    WordFunctionsAreInjective(0, 0, 0, g, h, t, 1);
    Mix64IsInjective(Xor64(t, g), Xor64(u, g));
    Mix64IsInjective(Xor64(t, g), Xor64(t, h));
  }
}
