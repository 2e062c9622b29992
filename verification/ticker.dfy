/**
 * The counter arithmetic of `time_tracker` (run.py lines 73-80): a counter
 * starting at 0 ms rises by 1000 ms per tick while it is below the
 * duration, and each tick shows `minutes:seconds` from
 * `divmod(elapsed // 1000, 60)`, each field formatted with `:02`.
 */
module Ticker {

  /** One displayed value: the counter and the clock shown for it. */
  datatype Tick = Tick(elapsedMs: nat, minutes: nat, seconds: nat)

  /**
   * Python's `divmod(a, b)` for a positive divisor. Python floors; Dafny's
   * `/` and `%` are Euclidean, and the two agree whenever `b > 0`.
   */
  function DivMod(a: int, b: int): (r: (int, int))
    requires b > 0
    ensures r.0 * b + r.1 == a && 0 <= r.1 < b
  {
    (a / b, a % b)
  }

  /** The clock displayed for a counter value (line 76). */
  function ClockAt(elapsedMs: nat): (t: Tick)
    ensures t.elapsedMs == elapsedMs
    ensures t.minutes * 60 + t.seconds == elapsedMs / 1000 && t.seconds < 60
  {
    var (m, s) := DivMod(elapsedMs / 1000, 60);
    Tick(elapsedMs, m, s)
  }

  /** Number of ticks for a duration: ceil(duration / 1000), and 0 for no duration. */
  function TickCount(durationMs: int): nat {
    if durationMs <= 0 then 0 else (durationMs + 999) / 1000
  }

  /** Reference schedule: tick i shows the counter value 1000 * i. */
  function Schedule(durationMs: int): seq<Tick> {
    seq(TickCount(durationMs), i requires 0 <= i => ClockAt(1000 * i))
  }

  /** TickCount is the only tick number that brackets the duration. */
  lemma TickCountUnique(durationMs: int, n: nat)
    requires 1000 * n >= durationMs
    requires n > 0 ==> 1000 * (n - 1) < durationMs
    ensures n == TickCount(durationMs)
  {
  }

  /**
   * The loop of `time_tracker`, without the print and the sleep: returns
   * the ticks it displays and the counter value it stops at.
   */
  method TimeTracker(durationMs: int) returns (shown: seq<Tick>, elapsed: int)
    ensures shown == Schedule(durationMs)
    ensures elapsed == 1000 * |shown|
    ensures elapsed >= durationMs
    ensures durationMs > 0 ==> elapsed < durationMs + 1000
    ensures durationMs <= 0 ==> elapsed == 0 && shown == []
    ensures forall i :: 0 <= i < |shown| ==> shown[i].elapsedMs < durationMs
  {
    elapsed := 0;
    shown := [];
    while elapsed < durationMs
      invariant elapsed == 1000 * |shown|
      invariant durationMs > 0 ==> elapsed < durationMs + 1000
      invariant durationMs <= 0 ==> elapsed == 0
      invariant forall i :: 0 <= i < |shown| ==> shown[i] == ClockAt(1000 * i)
      invariant forall i :: 0 <= i < |shown| ==> shown[i].elapsedMs < durationMs
      decreases durationMs - elapsed
    {
      var (minutes, seconds) := DivMod(elapsed / 1000, 60);
      shown := shown + [Tick(elapsed, minutes, seconds)];
      elapsed := elapsed + 1000;
    }
    TickCountUnique(durationMs, |shown|);
  }

  /** Consecutive ticks are exactly one second apart. */
  lemma ScheduleSteps(durationMs: int, i: nat)
    requires i + 1 < |Schedule(durationMs)|
    ensures Schedule(durationMs)[i + 1].elapsedMs == Schedule(durationMs)[i].elapsedMs + 1000
  {
  }

  // Formatting of a field with `:02`.

  predicate IsDigit(c: char) { '0' <= c <= '9' }

  predicate AllDigits(s: string) { forall i :: 0 <= i < |s| ==> IsDigit(s[i]) }

  function DigitChar(d: nat): (c: char)
    requires d < 10
    ensures IsDigit(c)
  {
    (('0' as int) + d) as char
  }

  function DigitValue(c: char): nat
    requires IsDigit(c)
  {
    (c as int) - ('0' as int)
  }

  /** Decimal representation of a natural number, without leading zeros. */
  function Decimal(n: nat): (s: string)
    ensures 1 <= |s| && AllDigits(s)
    ensures n < 10 <==> |s| == 1
    ensures 10 <= n < 100 ==> |s| == 2
    ensures n > 0 ==> s[0] != '0'
    decreases n
  {
    if n < 10 then [DigitChar(n)] else Decimal(n / 10) + [DigitChar(n % 10)]
  }

  /** The number a string of decimal digits denotes. */
  function DecimalValue(s: string): nat
    requires AllDigits(s)
    decreases |s|
  {
    if s == [] then 0 else 10 * DecimalValue(s[..|s| - 1]) + DigitValue(s[|s| - 1])
  }

  /** Reading back what Decimal writes gives the number. */
  lemma {:induction false} DecimalRoundTrip(n: nat)
    ensures DecimalValue(Decimal(n)) == n
    decreases n
  {
    if n >= 10 {
      var s := Decimal(n);
      assert s[..|s| - 1] == Decimal(n / 10);
      DecimalRoundTrip(n / 10);
    }
  }

  /** `f"{n:02}"`: at least two digits, zero-filled on the left. */
  function Pad02(n: nat): (s: string)
    ensures AllDigits(s) && DecimalValue(s) == n
    ensures |s| >= 2 && (n < 100 ==> |s| == 2)
    ensures n < 10 ==> s[0] == '0'
    ensures n >= 10 ==> s == Decimal(n)
  {
    DecimalRoundTrip(n);
    if n < 10 then
      var s := "0" + Decimal(n);
      assert s[..1] == "0";
      s
    else Decimal(n)
  }

  const Label := "\rElapsed Time: "

  /** The line printed for one tick (line 77). */
  function ElapsedLine(t: Tick): (line: string)
    requires t.seconds < 60
    ensures |line| == |Label| + |Pad02(t.minutes)| + 3
    ensures line[..|Label|] == Label && line[|line| - 3] == ':'
    ensures AllDigits(line[|Label|..|line| - 3]) && DecimalValue(line[|Label|..|line| - 3]) == t.minutes
    ensures AllDigits(line[|line| - 2..]) && DecimalValue(line[|line| - 2..]) == t.seconds
  {
    var line := Label + Pad02(t.minutes) + ":" + Pad02(t.seconds);
    assert line[|Label|..|line| - 3] == Pad02(t.minutes);
    assert line[|line| - 2..] == Pad02(t.seconds);
    line
  }
}
