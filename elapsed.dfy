/**
 * `mselapsed`: the milliseconds between two `struct timeval` readings, each
 * truncated to whole milliseconds before they are subtracted.
 */
module Elapsed {

  /** A `struct timeval`: whole seconds and microseconds. */
  datatype Timeval = Timeval(sec: int, usec: int)

  /** What `getrusage` and `gettimeofday` hand out: 0 <= usec < 1,000,000. */
  predicate Normalised(t: Timeval) {
    0 <= t.usec < 1000000
  }

  /** `end` is the same instant as `start` or a later one. */
  predicate NotEarlier(start: Timeval, end: Timeval) {
    start.sec < end.sec || (start.sec == end.sec && start.usec <= end.usec)
  }

  /** C's integer division by a positive divisor: it truncates toward zero. */
  function CDiv(a: int, b: int): (q: int)
    requires b > 0
    ensures a >= 0 ==> 0 <= a - q * b < b
    ensures a < 0 ==> -b < a - q * b <= 0
  {
    if a >= 0 then a / b else -((-a) / b)
  }

  /** The stamp `tv_sec * 1000 + tv_usec / 1000`, in whole milliseconds. */
  function Millis(t: Timeval): (ms: int)
    ensures Normalised(t) ==> t.sec * 1000 <= ms < t.sec * 1000 + 1000
    ensures Normalised(t) ==> t.sec * 1000000 + t.usec - 1000 < 1000 * ms <= t.sec * 1000000 + t.usec
  {
    t.sec * 1000 + CDiv(t.usec, 1000)
  }

  /** The value `mselapsed(start, end)` computes, before it is narrowed to `int`. */
  function MsElapsed(start: Timeval, end: Timeval): (ms: int)
    ensures Normalised(start) && Normalised(end) ==>
              (end.sec - start.sec) * 1000 - 1000 < ms < (end.sec - start.sec) * 1000 + 1000
  {
    Millis(end) - Millis(start)
  }

  lemma ElapsedSelf(t: Timeval)
    ensures MsElapsed(t, t) == 0
  {
  }

  lemma ElapsedAntisymmetric(a: Timeval, b: Timeval)
    ensures MsElapsed(a, b) == -MsElapsed(b, a)
  {
  }

  lemma ElapsedAdditive(a: Timeval, b: Timeval, c: Timeval)
    ensures MsElapsed(a, b) + MsElapsed(b, c) == MsElapsed(a, c)
  {
  }

  /** Truncation keeps whole milliseconds in order: on normalised readings it is monotone. */
  lemma ElapsedNonNegative(start: Timeval, end: Timeval)
    requires Normalised(start) && Normalised(end)
    requires NotEarlier(start, end)
    ensures MsElapsed(start, end) >= 0
  {
  }

  /**
   * The reported milliseconds differ from the true elapsed time in
   * microseconds by less than one millisecond (in either direction, since
   * both readings are truncated).
   */
  lemma ElapsedWithinOneMs(start: Timeval, end: Timeval)
    requires Normalised(start) && Normalised(end)
    ensures var micros := (end.sec - start.sec) * 1000000 + (end.usec - start.usec);
            micros - 1000 < 1000 * MsElapsed(start, end) < micros + 1000
  {
  }

  const TwoTo31 := 0x8000_0000
  const TwoTo32 := 0x1_0000_0000

  /** Narrowing of a wide integer to a 32-bit two's-complement `int`. */
  function Int32(x: int): (r: int)
    ensures -TwoTo31 <= r < TwoTo31
    ensures (r - x) % TwoTo32 == 0
  {
    (x + TwoTo31) % TwoTo32 - TwoTo31
  }

  /** What `mselapsed` returns: its `long` difference narrowed to `int`. */
  function MsElapsedReturned(start: Timeval, end: Timeval): (ms: int)
    ensures -TwoTo31 <= ms < TwoTo31
    ensures (ms - MsElapsed(start, end)) % TwoTo32 == 0
  {
    Int32(MsElapsed(start, end))
  }

  /** The narrowing is invisible for spans under about 24.8 days. */
  lemma ReturnedIsExactInRange(start: Timeval, end: Timeval)
    requires -TwoTo31 <= MsElapsed(start, end) < TwoTo31
    ensures MsElapsedReturned(start, end) == MsElapsed(start, end)
  {
  }

  /** A span from 2^31 up to 2^32 milliseconds is reported 2^32 too low, i.e. negative. */
  lemma ReturnedWrapsAboveRange(start: Timeval, end: Timeval)
    requires TwoTo31 <= MsElapsed(start, end) < TwoTo32
    ensures MsElapsedReturned(start, end) == MsElapsed(start, end) - TwoTo32
    ensures MsElapsedReturned(start, end) < 0
  {
  }
}
