/** The growing buffer into which a process image name is read. */
module ProcessBuffer {
  import opened Win32
  import opened Wrappers

  const MIN_SIZE := 128
  const MAX_SIZE := 32768

  /** The number of bits needed to write a number. */
  function BitWidth(x: nat): nat {
    if x == 0 then 0 else 1 + BitWidth(x / 2)
  }

  function Shift(x: nat): nat
    requires 128 <= x
  {
    WideEnough(x);
    if BitWidth(x) % 2 == 0 then BitWidth(x) - 1 else BitWidth(x) - 2
  }

  function AlignDown4x128(x: nat): nat {
    if x < 128 then 128 else Pow2(Shift(x))
  }

  function Pow4(k: nat): (p: nat)
    ensures 1 <= p
  {
    if k == 0 then 1 else 4 * Pow4(k - 1)
  }

  lemma {:induction false} BitWidthMeaning(x: nat)
    requires 0 < x
    ensures 0 < BitWidth(x) && Pow2(BitWidth(x) - 1) <= x < Pow2(BitWidth(x))
  {
    if 1 < x {
      BitWidthMeaning(x / 2);
    }
  }

  lemma {:induction false} OddPowers(n: nat)
    requires 7 <= n && n % 2 == 1
    ensures Pow2(n) == 128 * Pow4((n - 7) / 2)
  {
    if n == 7 {
      assert Pow2(3) == 8 && Pow2(5) == 32 && Pow2(7) == 4 * Pow2(5);
    } else {
      OddPowers(n - 2);
      assert Pow2(n) == 4 * Pow2(n - 2);
      assert (n - 7) / 2 == (n - 9) / 2 + 1;
    }
  }

  lemma {:induction false} Pow2Grows(a: nat, b: nat)
    requires a <= b
    ensures Pow2(a) <= Pow2(b)
  {
    if a < b {
      Pow2Grows(a, b - 1);
    }
  }

  lemma {:induction false} Pow4Grows(a: nat, b: nat)
    requires a < b
    ensures 4 * Pow4(a) <= Pow4(b)
  {
    if a + 1 < b {
      Pow4Grows(a, b - 1);
    }
  }

  lemma WideEnough(x: nat)
    requires 128 <= x
    ensures 8 <= BitWidth(x)
  {
    BitWidthMeaning(x);
    if BitWidth(x) < 8 {
      Pow2Grows(BitWidth(x), 7);
      OddPowers(7);
    }
  }

  lemma TwoDoublings(n: nat)
    ensures Pow2(n + 1) == 2 * Pow2(n) && Pow2(n + 2) == 4 * Pow2(n)
  {
  }

  lemma ShiftMeaning(x: nat)
    requires 128 <= x
    ensures 7 <= Shift(x) && Shift(x) % 2 == 1 && Pow2(Shift(x)) <= x < 4 * Pow2(Shift(x))
  {
    hide BitWidth, Pow2;
    BitWidthMeaning(x);
    WideEnough(x);
    TwoDoublings(Shift(x));
  }

  /** The result is the largest 128 times a power of four that is not above the argument. */
  lemma AlignDownIsLargest(x: nat, j: nat) returns (k: nat)
    requires 128 <= x
    ensures AlignDown4x128(x) == 128 * Pow4(k) && 128 * Pow4(k) <= x < 512 * Pow4(k)
    ensures 128 * Pow4(j) <= x ==> 128 * Pow4(j) <= AlignDown4x128(x)
  {
    hide Shift, Pow2;
    ShiftMeaning(x);
    OddPowers(Shift(x));
    k := (Shift(x) - 7) / 2;
    if k < j {
      Pow4Grows(k, j);
    } else if j < k {
      Pow4Grows(j, k);
    }
  }

  // ---- the sizes that are tried ------------------------------------------------------------------

  function Clamp(x: int, lo: int, hi: int): int {
    if x < lo then lo else if x > hi then hi else x
  }

  function Next(size: nat): nat {
    AlignDown4x128(4 * size)
  }

  lemma NextGrows(size: nat)
    requires MIN_SIZE <= size
    ensures size < Next(size) <= 4 * size
    ensures size < MAX_SIZE ==> Next(size) <= MAX_SIZE
  {
    var k := AlignDownIsLargest(4 * size, 0);
    Thresholds();
    if size < MAX_SIZE && 4 < k {
      Pow4Grows(4, k);
    }
  }

  lemma Thresholds()
    ensures 128 * Pow4(4) == MAX_SIZE
  {
    assert Pow4(2) == 16 && Pow4(4) == 16 * Pow4(2);
  }

  function Sizes(size: nat): seq<nat>
    requires MIN_SIZE <= size
    decreases MAX_SIZE - size
  {
    NextGrows(size);
    if size <= MAX_SIZE then [size] + Sizes(Next(size)) else []
  }

  /** The sizes grow, start where they should, and always end with the largest. */
  lemma {:induction false} SizesMeaning(size: nat)
    requires MIN_SIZE <= size <= MAX_SIZE
    ensures var s := Sizes(size);
      && 0 < |s| && s[0] == size && s[|s| - 1] == MAX_SIZE
      && (forall i, j :: 0 <= i < j < |s| ==> s[i] < s[j])
    decreases MAX_SIZE - size
  {
    hide Next;
    NextGrows(size);
    if size < MAX_SIZE {
      SizesMeaning(Next(size));
      assert Sizes(size) == [size] + Sizes(Next(size));
    } else {
      assert Sizes(size) == [size];
    }
  }

  /** Starting small, five sizes are tried. */
  lemma FirstSizes(capacity: nat)
    requires capacity <= 128
    ensures Sizes(Clamp(capacity, MIN_SIZE, MAX_SIZE)) == [128, 512, 2048, 8192, 32768]
    ensures forall x :: 0 <= x < 512 ==> AlignDown4x128(x) == 128
  {
    forall x: nat | x < 512
      ensures AlignDown4x128(x) == 128
    {
      if 128 <= x {
        Step(x, 0);
      }
    }
    Step(512, 1);
    Step(2048, 2);
    Step(8192, 3);
    Step(32768, 4);
    assert Pow4(1) == 4 && Pow4(2) == 16 && Pow4(3) == 64 && Pow4(4) == 256;
    FiveSizes();
  }

  lemma FiveSizes()
    requires Next(128) == 512 && Next(512) == 2048 && Next(2048) == 8192 && Next(8192) == 32768
    ensures Sizes(128) == [128, 512, 2048, 8192, 32768]
  {
    hide Next;
    NextGrows(32768);
    assert Sizes(32768) == [32768] + Sizes(Next(32768)) == [32768];
    assert Sizes(8192) == [8192] + Sizes(32768);
    assert Sizes(2048) == [2048] + Sizes(8192);
    assert Sizes(512) == [512] + Sizes(2048);
    assert Sizes(128) == [128] + Sizes(512);
  }

  lemma Step(x: nat, j: nat)
    requires 128 * Pow4(j) <= x < 512 * Pow4(j)
    ensures AlignDown4x128(x) == 128 * Pow4(j)
  {
    hide AlignDown4x128, Pow4;
    var least: nat := 128 * Pow4(j);
    assert 128 <= least;
    var k := AlignDownIsLargest(x, j);
    if k < j {
      Pow4Grows(k, j);
    } else if j < k {
      Pow4Grows(j, k);
    }
  }

  // ---- the loop -------------------------------------------------------------------------------------

  /** What the system answers for one buffer: a name or an error word. */
  datatype Answer = Name(path: string) | Error(code: Dword)

  predicate TooSmall(a: Answer) {
    a == Error(ERROR_INSUFFICIENT_BUFFER)
  }

  /** The first size that is not refused as too small; the last one if all are. */
  function SettledAt(sizes: seq<nat>, ask: nat -> Answer): (size: nat)
    requires sizes != []
  {
    if |sizes| == 1 || !TooSmall(ask(sizes[0])) then sizes[0] else SettledAt(sizes[1..], ask)
  }

  function Settle(sizes: seq<nat>, ask: nat -> Answer): (a: Answer)
    requires sizes != []
  {
    ask(SettledAt(sizes, ask))
  }

  /** `ask` is what the system answers for a buffer of that size; the first size comes from the
      capacity that the string already has. After a failed call the string is empty where the
      library can overwrite it in place; elsewhere it keeps the `buffer` it was resized to. */
  method GetProcessImageNameFromHandle(capacity: nat, ask: nat -> Answer, overwrites: bool, buffer: nat -> string)
    returns (hr: HResult, path: string)
    ensures var sizes := Sizes(Clamp(capacity, MIN_SIZE, MAX_SIZE));
      match Settle(sizes, ask)
      case Name(name) => hr == S_OK && path == name
      case Error(code) =>
        hr == HResultFromWin32(code) && path == if overwrites then "" else buffer(SettledAt(sizes, ask))
  {
    var size := Clamp(capacity, MIN_SIZE, MAX_SIZE);
    ghost var all := Sizes(size);
    var lastError: Dword := 0;
    path := "";
    SizesMeaning(size);
    while size <= MAX_SIZE
      invariant MIN_SIZE <= size
      invariant size <= MAX_SIZE ==> SettledAt(Sizes(size), ask) == SettledAt(all, ask)
      invariant size > MAX_SIZE ==> Settle(all, ask) == Error(lastError)
      invariant size > MAX_SIZE ==> path == if overwrites then "" else buffer(SettledAt(all, ask))
      decreases MAX_SIZE - size
    {
      NextGrows(size);
      SizesMeaning(size);
      match ask(size) {
        case Name(p) =>
          return S_OK, p;
        case Error(code) =>
          lastError := code;
          path := if overwrites then "" else buffer(size);
      }
      if lastError != ERROR_INSUFFICIENT_BUFFER {
        break;
      }
      size := Next(size);
    }
    hr := HResultFromWin32(lastError);
  }

  // ---- names ------------------------------------------------------------------------------------------

  /** The system's contract for a name: one character of the buffer is kept back by the caller,
      one is taken by the terminator. */
  ghost predicate Tells(ask: nat -> Answer, name: string) {
    forall size: nat :: ask(size) == if |name| + 1 <= size - 1 then Name(name) else Error(ERROR_INSUFFICIENT_BUFFER)
  }

  /** The answer for size number `i` is taken: the smaller sizes were all refused as such. */
  ghost predicate Settles(sizes: seq<nat>, ask: nat -> Answer, i: int)
    requires sizes != []
  {
    && 0 <= i < |sizes|
    && Settle(sizes, ask) == ask(sizes[i])
    && forall j :: 0 <= j < i ==> TooSmall(ask(sizes[j]))
  }

  lemma {:induction false} SettleMeaning(sizes: seq<nat>, ask: nat -> Answer)
    requires sizes != []
    ensures TooSmall(Settle(sizes, ask)) <==> forall i :: 0 <= i < |sizes| ==> TooSmall(ask(sizes[i]))
    ensures exists i :: Settles(sizes, ask, i)
  {
    if |sizes| == 1 || !TooSmall(ask(sizes[0])) {
      assert Settles(sizes, ask, 0);
    } else {
      SettleMeaning(sizes[1..], ask);
      var i :| Settles(sizes[1..], ask, i);
      forall j | 0 <= j < i + 1
        ensures TooSmall(ask(sizes[j]))
      {
        assert j > 0 ==> sizes[j] == sizes[1..][j - 1];
      }
      assert Settles(sizes, ask, i + 1);
      if forall m :: 0 <= m < |sizes[1..]| ==> TooSmall(ask(sizes[1..][m])) {
        forall m | 0 <= m < |sizes|
          ensures TooSmall(ask(sizes[m]))
        {
          assert m > 0 ==> sizes[m] == sizes[1..][m - 1];
        }
      }
      if forall m :: 0 <= m < |sizes| ==> TooSmall(ask(sizes[m])) {
        assert forall m :: 0 <= m < |sizes[1..]| ==> sizes[1..][m] == sizes[m + 1];
      }
    }
  }

  /** From any starting capacity the name is found exactly when it fits the largest buffer. */
  lemma NameFoundExactly(capacity: nat, ask: nat -> Answer, name: string)
    requires Tells(ask, name)
    ensures var a := Settle(Sizes(Clamp(capacity, MIN_SIZE, MAX_SIZE)), ask);
      if |name| <= MAX_SIZE - 2 then a == Name(name) else TooSmall(a)
  {
    var sizes := Sizes(Clamp(capacity, MIN_SIZE, MAX_SIZE));
    SizesMeaning(Clamp(capacity, MIN_SIZE, MAX_SIZE));
    SettleMeaning(sizes, ask);
    hide Sizes, Settle;
    assert sizes[|sizes| - 1] == MAX_SIZE;
  }
}
