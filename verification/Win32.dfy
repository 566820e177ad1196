/** Win32 status words and the HRESULTs made from them. */
module Win32 {
  type Dword = x: int | 0 <= x < 0x1_0000_0000
  type HResult = x: int | -0x8000_0000 <= x < 0x8000_0000

  const S_OK: HResult := 0
  const ERROR_ACCESS_DENIED: Dword := 5
  const ERROR_INVALID_PARAMETER: Dword := 87
  const ERROR_INSUFFICIENT_BUFFER: Dword := 122
  const ERROR_TOO_MANY_THREADS: Dword := 565
  const ERROR_POSSIBLE_DEADLOCK: Dword := 1131
  const ERROR_TIMEOUT: Dword := 1460
  const ERROR_FUNCTION_FAILED: Dword := 1627
  const ERROR_NOT_ENOUGH_QUOTA: Dword := 1816
  const ERROR_INVALID_OPERATION: Dword := 4317
  const E_PENDING: HResult := -0x7FFF_FFF6
  const E_INVALIDARG: HResult := -0x7FF8_FFA9
  const E_FAIL: HResult := -0x7FFF_BFFB

  predicate Failed(hr: HResult) {
    hr < 0
  }

  /** The two's complement reading of a 32-bit word. */
  function Signed(w: Dword): HResult {
    if w < 0x8000_0000 then w else w - 0x1_0000_0000
  }

  /** The customary macro: words that already read as failures, and zero, pass through. */
  function HResultFromWin32(code: Dword): HResult {
    if Signed(code) <= 0 then Signed(code) else code % 0x1_0000 - 0x7FF9_0000
  }

  /** Every error word but zero becomes a failure; only zero becomes S_OK. */
  lemma OnlyZeroSucceeds(code: Dword)
    ensures HResultFromWin32(code) == S_OK <==> code == 0
    ensures Failed(HResultFromWin32(code)) <==> code != 0
  {
  }

  /** The unsigned reading of a status word. */
  function Bits(hr: HResult): Dword {
    if hr < 0 then hr + 0x1_0000_0000 else hr
  }

  /** An error code becomes a failure of facility 7 whose low word is that of the code; words that
      are zero or read as failures already keep all their bits. */
  lemma ErrorWord(code: Dword)
    ensures var bits := Bits(HResultFromWin32(code));
      if 0 < code < 0x8000_0000
      then bits / 0x8000_0000 == 1 && bits / 0x1_0000 == 0x8007 && bits % 0x1_0000 == code % 0x1_0000
      else bits == code
  {
  }

  /** The status words that the program names, as they are documented. */
  lemma KnownWords()
    ensures Bits(E_INVALIDARG) == Bits(HResultFromWin32(ERROR_INVALID_PARAMETER)) == 0x8007_0057
    ensures Bits(E_PENDING) == 0x8000_000A && Bits(E_FAIL) == 0x8000_4005
    ensures Bits(HResultFromWin32(ERROR_ACCESS_DENIED)) == 0x8007_0005
    ensures Bits(HResultFromWin32(ERROR_INSUFFICIENT_BUFFER)) == 0x8007_007A
    ensures Bits(HResultFromWin32(ERROR_TOO_MANY_THREADS)) == 0x8007_0235
    ensures Bits(HResultFromWin32(ERROR_POSSIBLE_DEADLOCK)) == 0x8007_046B
    ensures Bits(HResultFromWin32(ERROR_TIMEOUT)) == 0x8007_05B4
    ensures Bits(HResultFromWin32(ERROR_FUNCTION_FAILED)) == 0x8007_065B
    ensures Bits(HResultFromWin32(ERROR_NOT_ENOUGH_QUOTA)) == 0x8007_0718
    ensures Bits(HResultFromWin32(ERROR_INVALID_OPERATION)) == 0x8007_10DD
  {
  }
}
