/**
 * The countdown shown on the featured upcoming auction
 * (frontend/src/app/Auctions/items.tsx): a number of milliseconds is split
 * into days, hours, minutes and seconds and written as "Dd Hh Mm Ss"; on
 * every timer tick the page recomputes the time left from the clock and
 * either shows that countdown or, once the start has passed, shows
 * "Auction has started!" and stops its timer.
 *
 * Times are whole epoch milliseconds. For a positive divisor, flooring
 * division is Dafny's `/`; JavaScript's `%` truncates toward zero and is
 * written out as JsRem.
 */
module Countdown {
  import opened Decimal
  import opened Wrappers

  const MsPerSecond := 1000
  const MsPerMinute := 60 * MsPerSecond
  const MsPerHour := 60 * MsPerMinute
  const MsPerDay := 24 * MsPerHour

  /** JavaScript's `a % b`: the remainder of division truncated toward zero. */
  function JsRem(a: int, b: int): (r: int)
    requires b > 0
    ensures a >= 0 ==> 0 <= r < b
    ensures a < 0 ==> -b < r <= 0
    ensures (a - r) % b == 0
  {
    if a >= 0 then
      DivModUnique(a - a % b, b, a / b, 0);
      a % b
    else
      DivModUnique(a + (-a) % b, b, -((-a) / b), 0);
      -((-a) % b)
  }

  datatype CountdownFields = CountdownFields(days: int, hours: int, minutes: int, seconds: int)

  /** The milliseconds a countdown stands for. */
  function Millis(c: CountdownFields): int {
    c.days * MsPerDay + c.hours * MsPerHour + c.minutes * MsPerMinute + c.seconds * MsPerSecond
  }

  /** A countdown whose fields are in their clock ranges. */
  predicate Normal(c: CountdownFields) {
    c.days >= 0 && 0 <= c.hours < 24 && 0 <= c.minutes < 60 && 0 <= c.seconds < 60
  }

  /**
   * The four numbers formatCountdown computes. For a non-negative time
   * left they are in their clock ranges and add up to the time left less
   * its sub-second remainder.
   */
  function Decompose(timeLeft: int): (c: CountdownFields)
    ensures timeLeft >= 0 ==> Normal(c)
    ensures timeLeft >= 0 ==> Millis(c) <= timeLeft < Millis(c) + MsPerSecond
  {
    var c := CountdownFields(
      timeLeft / MsPerDay,
      JsRem(timeLeft, MsPerDay) / MsPerHour,
      JsRem(timeLeft, MsPerHour) / MsPerMinute,
      JsRem(timeLeft, MsPerMinute) / MsPerSecond);
    if timeLeft >= 0 then
      RecombineNonNegative(timeLeft);
      c
    else
      c
  }

  /** The arithmetic behind Decompose's contract. */
  lemma RecombineNonNegative(t: int)
    requires t >= 0
    ensures t % MsPerDay == (t % MsPerDay) / MsPerHour * MsPerHour + t % MsPerHour
    ensures t % MsPerHour == (t % MsPerHour) / MsPerMinute * MsPerMinute + t % MsPerMinute
    ensures t % MsPerMinute == (t % MsPerMinute) / MsPerSecond * MsPerSecond + t % MsPerMinute % MsPerSecond
  {
    var d := t / MsPerDay;
    var rd := t % MsPerDay;
    var h := rd / MsPerHour;
    var rh := rd % MsPerHour;
    assert t == d * MsPerDay + h * MsPerHour + rh;
    assert t == (d * 24 + h) * MsPerHour + rh;
    DivModUnique(t, MsPerHour, d * 24 + h, rh);
    var m := t % MsPerHour / MsPerMinute;
    var rm := t % MsPerHour % MsPerMinute;
    assert t == (d * 24 + h) * MsPerHour + m * MsPerMinute + rm;
    assert t == ((d * 24 + h) * 60 + m) * MsPerMinute + rm;
    DivModUnique(t, MsPerMinute, (d * 24 + h) * 60 + m, rm);
  }

  /** Division with remainder has exactly one answer. */
  lemma DivModUnique(t: int, b: int, q: int, r: int)
    requires b > 0 && 0 <= r < b && t == q * b + r
    ensures t / b == q && t % b == r
  {
    var q', r' := t / b, t % b;
    assert (q - q') * b == r' - r;
    if q > q' {
      MulAtLeast(q - q', b);
    } else if q < q' {
      MulAtLeast(q' - q, b);
    }
  }

  lemma {:induction false} MulAtLeast(k: int, b: int)
    requires k >= 1 && b > 0
    ensures k * b >= b
    decreases k
  {
    if k > 1 {
      MulAtLeast(k - 1, b);
      assert k * b == (k - 1) * b + b;
    }
  }

  /**
   * Decompose is the only normal countdown that covers the time left to
   * within one second: any other description of the same instant that
   * keeps its fields in range has the same four numbers.
   */
  lemma DecomposeUnique(timeLeft: int, c: CountdownFields)
    requires Normal(c) && Millis(c) <= timeLeft < Millis(c) + MsPerSecond
    ensures Decompose(timeLeft) == c
  {
    var r := timeLeft - Millis(c);
    var inDay := c.hours * MsPerHour + c.minutes * MsPerMinute + c.seconds * MsPerSecond + r;
    DivModUnique(timeLeft, MsPerDay, c.days, inDay);
    var inHour := c.minutes * MsPerMinute + c.seconds * MsPerSecond + r;
    DivModUnique(inDay, MsPerHour, c.hours, inHour);
    var inMinute := c.seconds * MsPerSecond + r;
    DivModUnique(inHour, MsPerMinute, c.minutes, inMinute);
    DivModUnique(inMinute, MsPerSecond, c.seconds, r);
    assert timeLeft == (c.days * 24 + c.hours) * MsPerHour + inHour;
    DivModUnique(timeLeft, MsPerHour, c.days * 24 + c.hours, inHour);
    assert timeLeft == ((c.days * 24 + c.hours) * 60 + c.minutes) * MsPerMinute + inMinute;
    DivModUnique(timeLeft, MsPerMinute, (c.days * 24 + c.hours) * 60 + c.minutes, inMinute);
  }

  /** formatCountdown: the text shown for a number of milliseconds left. */
  function FormatCountdown(timeLeft: int): (s: string)
    ensures timeLeft >= 0 ==> ParseCountdown(s) == Some(Decompose(timeLeft))
    ensures timeLeft >= 0 ==> forall u :: ParseCountdown(u) == Some(Decompose(timeLeft)) ==> u == s
    ensures timeLeft >= 0 ==> IsDigit(s[0])
  {
    var c := Decompose(timeLeft);
    var s := Render(c);
    if timeLeft >= 0 then
      assert forall u :: ParseCountdown(u) == Some(c) ==> u == s by {
        forall u | ParseCountdown(u) == Some(c)
          ensures u == s
        {
          RenderOfParse(u);
        }
      }
      s
    else
      s
  }

  /**
   * Reads a run of decimal digits without leading zeros followed by
   * `suffix`, giving the value of the digits and what follows the suffix.
   */
  function ParseField(t: string, suffix: string): Option<(nat, string)> {
    var k := DigitRun(t);
    if k == 0 || (k > 1 && t[0] == '0') || |t| < k + |suffix| || t[k..k + |suffix|] != suffix then None
    else Some((DigitsValue(t[..k]), t[k + |suffix|..]))
  }

  /** Reads "Dd Hh Mm Ss" back into its four numbers. */
  function ParseCountdown(t: string): Option<CountdownFields> {
    match ParseField(t, "d ")
    case None => None
    case Some((d, t1)) =>
      match ParseField(t1, "h ")
      case None => None
      case Some((h, t2)) =>
        match ParseField(t2, "m ")
        case None => None
        case Some((m, t3)) =>
          match ParseField(t3, "s")
          case None => None
          case Some((s, t4)) => if t4 == [] then Some(CountdownFields(d, h, m, s)) else None
  }

  /** A field written by Render is read back by ParseField. */
  lemma ParseFieldOfRendered(n: nat, suffix: string, rest: string)
    requires |suffix| > 0 && !IsDigit(suffix[0])
    ensures ParseField(NatToString(n) + suffix + rest, suffix) == Some((n, rest))
  {
    var ds := NatToString(n);
    assert |ds| > 1 ==> ds[0] != '0';
    var t := ds + suffix + rest;
    assert t == ds + (suffix + rest);
    DigitRunOfDigits(ds, suffix + rest);
    assert t[..|ds|] == ds;
    assert t[|ds|..|ds| + |suffix|] == suffix;
    assert t[|ds| + |suffix|..] == rest;
    DigitsValueOfNatToString(n);
  }

  /** A field read by ParseField is exactly the rendering of its value. */
  lemma ParseFieldRendered(t: string, suffix: string, n: nat, rest: string)
    requires ParseField(t, suffix) == Some((n, rest))
    ensures t == NatToString(n) + suffix + rest
  {
    var k := DigitRun(t);
    var ds := t[..k];
    assert Canonical(ds);
    NatToStringOfDigits(ds);
    assert t == ds + t[k..k + |suffix|] + t[k + |suffix|..];
  }

  /** The text "Dd Hh Mm Ss" with the four fields written as `d`, `h`, `m` and `s`. */
  function Fields(d: string, h: string, m: string, s: string): string {
    d + "d " + (h + "h " + (m + "m " + (s + "s")))
  }

  /** The rendered fields of four natural numbers read back as those numbers. */
  lemma ParseFields(dn: nat, hn: nat, mn: nat, sn: nat)
    ensures ParseCountdown(Fields(NatToString(dn), NatToString(hn), NatToString(mn), NatToString(sn)))
      == Some(CountdownFields(dn, hn, mn, sn))
  {
    var d, h, m, s := NatToString(dn), NatToString(hn), NatToString(mn), NatToString(sn);
    var t3 := s + "s";
    var t2 := m + "m " + t3;
    var t1 := h + "h " + t2;
    var t0 := d + "d " + t1;
    ParseFieldOfRendered(dn, "d ", t1);
    assert ParseField(t0, "d ") == Some((dn, t1));
    ParseFieldOfRendered(hn, "h ", t2);
    assert ParseField(t1, "h ") == Some((hn, t2));
    ParseFieldOfRendered(mn, "m ", t3);
    ParseFieldOfRendered(sn, "s", "");
    assert t3 + "" == t3;
    assert ParseCountdown(t0) == Some(CountdownFields(dn, hn, mn, sn));
  }

  /** Whatever the reader accepts is the rendering of the four numbers it reads. */
  lemma FieldsOfParse(t: string)
    requires ParseCountdown(t).Some?
    ensures var c := ParseCountdown(t).value;
      t == Fields(NatToString(c.days), NatToString(c.hours), NatToString(c.minutes), NatToString(c.seconds))
  {
    var f1 := ParseField(t, "d ").value;
    var f2 := ParseField(f1.1, "h ").value;
    var f3 := ParseField(f2.1, "m ").value;
    var f4 := ParseField(f3.1, "s").value;
    assert f4.1 == [] && ParseCountdown(t).value == CountdownFields(f1.0, f2.0, f3.0, f4.0);
    var ds, hs, ms, ss := NatToString(f1.0), NatToString(f2.0), NatToString(f3.0), NatToString(f4.0);
    ParseFieldRendered(t, "d ", f1.0, f1.1);
    ParseFieldRendered(f1.1, "h ", f2.0, f2.1);
    ParseFieldRendered(f2.1, "m ", f3.0, f3.1);
    ParseFieldRendered(f3.1, "s", f4.0, f4.1);
    assert f3.1 == ss + "s";
    assert t == Fields(ds, hs, ms, ss);
  }

  /**
   * The template literal "${days}d ${hours}h ${minutes}m ${seconds}s".
   * With non-negative fields the text reads back as the same countdown.
   */
  function Render(c: CountdownFields): (r: string)
    ensures c.days >= 0 && c.hours >= 0 && c.minutes >= 0 && c.seconds >= 0 ==>
      ParseCountdown(r) == Some(c)
    ensures |r| > 0 && (r[0] == '-' <==> c.days < 0) && (c.days >= 0 ==> IsDigit(r[0]))
  {
    var r := Fields(IntToString(c.days), IntToString(c.hours), IntToString(c.minutes), IntToString(c.seconds));
    assert r[0] == IntToString(c.days)[0];
    if c.days >= 0 && c.hours >= 0 && c.minutes >= 0 && c.seconds >= 0 then
      ParseFields(c.days, c.hours, c.minutes, c.seconds);
      r
    else
      r
  }

  /** The reader accepts only rendered text: whatever it reads is the rendering of the result. */
  lemma RenderOfParse(t: string)
    requires ParseCountdown(t).Some?
    ensures Render(ParseCountdown(t).value) == t
  {
    FieldsOfParse(t);
  }

  /** Distinct non-negative countdowns are shown as distinct texts. */
  lemma RenderInjective(c1: CountdownFields, c2: CountdownFields)
    requires c1.days >= 0 && c1.hours >= 0 && c1.minutes >= 0 && c1.seconds >= 0
    requires c2.days >= 0 && c2.hours >= 0 && c2.minutes >= 0 && c2.seconds >= 0
    requires Render(c1) == Render(c2)
    ensures c1 == c2
  {
  }

  const StartedMessage := "Auction has started!"

  /**
   * What one timer tick decides: either there is time left, which is
   * shown and the timer keeps running, or the auction has started and the
   * timer is cleared.
   */
  datatype Tick = Counting(timeLeft: int) | Started

  /** One tick of the countdown effect, from the auction start and the clock reading. */
  function TickDecision(start: int, now: int): (t: Tick)
    ensures t.Counting? <==> now < start
    ensures t.Counting? ==> t.timeLeft > 0 && now + t.timeLeft == start
  {
    var timeLeft := start - now;
    if timeLeft > 0 then Counting(timeLeft) else Started
  }

  /**
   * The text a tick puts on screen. The started message is never the
   * text of a countdown, and a countdown's text reads back as the
   * decomposition of the time left.
   */
  function Display(t: Tick): (s: string)
    ensures s == StartedMessage <==> t.Started?
    ensures t.Counting? && t.timeLeft >= 0 ==> ParseCountdown(s) == Some(Decompose(t.timeLeft))
    ensures t.Counting? && t.timeLeft >= 0 ==>
      forall u :: ParseCountdown(u) == Some(Decompose(t.timeLeft)) ==> u == s
  {
    match t
    case Started => StartedMessage
    case Counting(ms) => FormatCountdown(ms)
  }

  /**
   * While the auction has not started, the tick shows a normal countdown
   * that is within one second of the time left.
   */
  lemma TickShowsTimeLeft(start: int, now: int)
    requires now < start
    ensures ParseCountdown(Display(TickDecision(start, now))).Some?
    ensures var c := ParseCountdown(Display(TickDecision(start, now))).value;
      Normal(c) && Millis(c) <= start - now < Millis(c) + MsPerSecond
  {
  }

  /** A clock that never runs backward: once started, every later tick says so. */
  lemma StartedIsFinal(start: int, now: int, later: int)
    requires TickDecision(start, now).Started? && now <= later
    ensures TickDecision(start, later) == Started
  {
  }

  /**
   * The ticks of the timer when it fires at the clock readings `nows`:
   * every tick but the last keeps the timer running, and the timer stops
   * at the first tick that finds the auction started.
   */
  function Run(start: int, nows: seq<int>): (ticks: seq<Tick>)
    ensures |ticks| <= |nows|
    ensures forall i :: 0 <= i < |ticks| ==> ticks[i] == TickDecision(start, nows[i])
    ensures forall i :: 0 <= i < |ticks| - 1 ==> ticks[i].Counting?
    ensures |ticks| < |nows| ==> |ticks| > 0 && ticks[|ticks| - 1] == Started
    decreases |nows|
  {
    if nows == [] then []
    else
      var t := TickDecision(start, nows[0]);
      if t.Counting? then [t] + Run(start, nows[1..]) else [t]
  }

  predicate NonDecreasing(nows: seq<int>) {
    forall i, j :: 0 <= i < j < |nows| ==> nows[i] <= nows[j]
  }

  /**
   * With a clock that never runs backward, clearing the timer hides
   * nothing: had it kept firing, every further tick would have found the
   * auction started again, so the started message never gives way to a
   * countdown.
   */
  lemma {:induction false} ClearingTimerHidesNothing(start: int, nows: seq<int>)
    requires NonDecreasing(nows)
    ensures forall i :: |Run(start, nows)| <= i < |nows| ==> TickDecision(start, nows[i]) == Started
  {
    var ticks := Run(start, nows);
    if |ticks| < |nows| {
      var k := |ticks| - 1;
      forall i | |ticks| <= i < |nows|
        ensures TickDecision(start, nows[i]) == Started
      {
        StartedIsFinal(start, nows[k], nows[i]);
      }
    }
  }
}
