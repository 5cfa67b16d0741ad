/** The countdown widget: a counter that steps down once per second and fires
    a completion callback at zero, its `m:ss` rendering and its text colour. */
module Countdown {

  datatype Option<T> = None | Some(value: T)

  // ---------------------------------------------------------------------
  // The counter

  /** `timeLeft` after `n` runs of the timer effect, starting from `seconds`:
      a run at 0 only fires completion, any other run takes one off. */
  function Remaining(seconds: int, n: nat): (r: int)
    ensures seconds >= 0 ==> 0 <= r <= seconds
    ensures seconds < 0 ==> r < 0
  {
    if n == 0 then seconds
    else
      var t := Remaining(seconds, n - 1);
      if t == 0 then 0 else t - 1
  }

  /** From a non-negative start the counter goes down by one per run and
      stays at 0, so it never goes negative and reaches 0 after exactly
      `seconds` runs; from a negative start it never reaches 0. */
  lemma {:induction false} RemainingValue(seconds: int, n: nat)
    ensures seconds >= 0 ==> Remaining(seconds, n) == if n <= seconds then seconds - n else 0
    ensures seconds < 0 ==> Remaining(seconds, n) == seconds - n
    ensures Remaining(seconds, n) == 0 <==> 0 <= seconds <= n
  {
    if n > 0 {
      RemainingValue(seconds, n - 1);
    }
  }

  /** The widget's timer state. `ticks` counts the effect runs so far and
      `completions` the calls made to `onComplete`. */
  class Counter {
    const seconds: int
    const hasOnComplete: bool
    var timeLeft: int
    var completions: nat
    ghost var ticks: nat

    ghost predicate Valid()
      reads this
    {
      timeLeft == Remaining(seconds, ticks)
    }

    /** `useState(seconds)`: the counter starts at the `seconds` prop. */
    constructor (seconds: int, hasOnComplete: bool)
      ensures Valid()
      ensures this.seconds == seconds && this.hasOnComplete == hasOnComplete
      ensures timeLeft == seconds && completions == 0 && ticks == 0
    {
      this.seconds := seconds;
      this.hasOnComplete := hasOnComplete;
      timeLeft := seconds;
      completions := 0;
      ticks := 0;
    }

    /** One run of the effect: at 0 it calls `onComplete` (when given) and
        schedules nothing; otherwise its timer sets `timeLeft - 1`. */
    method Tick() returns (fired: bool)
      requires Valid()
      modifies this
      ensures Valid()
      ensures ticks == old(ticks) + 1
      ensures fired <==> old(timeLeft) == 0
      ensures timeLeft == if fired then 0 else old(timeLeft) - 1
      ensures old(timeLeft) >= 0 ==> timeLeft >= 0
      ensures completions == old(completions) + if fired && hasOnComplete then 1 else 0
    {
      fired := timeLeft == 0;
      if fired {
        if hasOnComplete {
          completions := completions + 1;
        }
      } else {
        timeLeft := timeLeft - 1;
      }
      ticks := ticks + 1;
    }
  }

  // ---------------------------------------------------------------------
  // Decimal digits

  predicate IsDigit(c: char)
  {
    '0' <= c <= '9'
  }

  predicate AllDigits(s: string)
  {
    forall i :: 0 <= i < |s| ==> IsDigit(s[i])
  }

  function DigitChar(d: nat): (c: char)
    requires d < 10
    ensures IsDigit(c) && c as int - '0' as int == d
  {
    (d + '0' as int) as char
  }

  /** `n.toString()` for a non-negative integer. */
  function NatToString(n: nat): (s: string)
    ensures |s| >= 1 && AllDigits(s)
    ensures n < 10 <==> |s| == 1
    ensures n >= 10 ==> s[0] != '0'
  {
    if n < 10 then [DigitChar(n)] else NatToString(n / 10) + [DigitChar(n % 10)]
  }

  /** `n.toString()` for any integer: a minus sign before the digits of `-n`. */
  function IntToString(n: int): (s: string)
    ensures n >= 0 ==> AllDigits(s) && Value(s) == n
    ensures n < 0 ==> |s| >= 2 && s[0] == '-' && AllDigits(s[1..]) && Value(s[1..]) == -n
  {
    if n < 0 then
      ValueOfNatToString(-n);
      assert ("-" + NatToString(-n))[1..] == NatToString(-n);
      "-" + NatToString(-n)
    else
      ValueOfNatToString(n);
      NatToString(n)
  }

  /** `toString` prints the canonical text: a single digit (after the sign)
      for a number of one digit, and no leading zero on a number of two or
      more digits. */
  lemma IntToStringCanonical(n: int)
    ensures |IntToString(n)| >= 1
    ensures -10 < n < 10 ==> |IntToString(n)| == if n < 0 then 2 else 1
    ensures n >= 10 ==> IntToString(n)[0] != '0'
    ensures n <= -10 ==> IntToString(n)[1] != '0'
  {
    if n < 0 {
      assert IntToString(n)[1..] == NatToString(-n);
    }
  }

  /** The number a string of decimal digits denotes. */
  function Value(s: string): nat
    requires AllDigits(s)
  {
    if s == [] then 0 else Value(s[..|s| - 1]) * 10 + (s[|s| - 1] as int - '0' as int)
  }

  /** Reading back the digits of `n` gives `n`. */
  lemma {:induction false} ValueOfNatToString(n: nat)
    ensures Value(NatToString(n)) == n
  {
    if n >= 10 {
      var s := NatToString(n);
      assert s[..|s| - 1] == NatToString(n / 10);
      ValueOfNatToString(n / 10);
    }
  }

  // ---------------------------------------------------------------------
  // The `m:ss` rendering

  /** `timeLeft % 60` with JavaScript's remainder, which takes the sign of
      the dividend. */
  function SecondsField(t: int): (s: int)
    ensures -60 < s < 60
    ensures (t - s) % 60 == 0
    ensures t >= 0 ==> s >= 0 && (t / 60) * 60 + s == t
    ensures t < 0 ==> s <= 0
  {
    if t >= 0 then t % 60 else -((-t) % 60)
  }

  /** `s.padStart(2, '0')`: zeros in front up to length 2. */
  function PadStart2(s: string): (r: string)
    ensures |r| == if |s| >= 2 then |s| else 2
    ensures r[|r| - |s|..] == s
    ensures forall i :: 0 <= i < |r| - |s| ==> r[i] == '0'
  {
    if |s| >= 2 then s else if |s| == 1 then "0" + s else "00"
  }

  /** The rendered countdown: `Math.floor(t / 60)`, a colon, and the seconds
      field padded to two characters. For a positive divisor Dafny's `/`
      is the floor. */
  function Format(t: int): (r: string)
    ensures t >= 0 ==> |r| >= 4 && r[|r| - 3] == ':' && AllDigits(r[..|r| - 3]) && AllDigits(r[|r| - 2..])
    ensures t < 0 ==> |r| >= 1 && r[0] == '-'
  {
    var m := IntToString(t / 60);
    var ss := PadStart2(IntToString(SecondsField(t)));
    if t >= 0 then
      SecondsDigits(t % 60);
      assert IntToString(SecondsField(t)) == NatToString(t % 60);
      ColonSplit(m, ss);
      m + ":" + ss
    else
      m + ":" + ss
  }

  /** The pieces on either side of the colon of `m + ":" + ss`. */
  lemma ColonSplit(m: string, ss: string)
    requires |ss| == 2
    ensures var f := m + ":" + ss;
            |f| == |m| + 3 && f[|f| - 3] == ':' && f[..|f| - 3] == m && f[|f| - 2..] == ss
  {
  }

  /** Reads `<minutes>:<two digits>` back into a number of seconds. */
  function ParseTime(s: string): Option<nat>
  {
    if |s| >= 4 && s[|s| - 3] == ':' && AllDigits(s[..|s| - 3]) && AllDigits(s[|s| - 2..])
    then Some(Value(s[..|s| - 3]) * 60 + Value(s[|s| - 2..]))
    else None
  }

  /** A seconds field below 60 renders as exactly two digits denoting it. */
  lemma SecondsDigits(x: nat)
    requires x < 60
    ensures |PadStart2(NatToString(x))| == 2
    ensures AllDigits(PadStart2(NatToString(x)))
    ensures Value(PadStart2(NatToString(x))) == x
  {
    var d := NatToString(x);
    var p := PadStart2(d);
    ValueOfNatToString(x);
    if x < 10 {
      assert p == ['0'] + d;
      assert p[..1] == ['0'];
    } else {
      assert p == d;
      assert NatToString(x / 10) == [DigitChar(x / 10)];
    }
  }

  /** For a non-negative counter, reading the rendering back gives the
      counter. */
  lemma FormatRoundTrip(t: nat)
    ensures ParseTime(Format(t)) == Some(t)
  {
    var q, r := t / 60, t % 60;
    assert q * 60 + r == t;
    FormatNonNegative(t);
    ParseFields(q, r);
  }

  /** Minutes `q` and seconds `r` printed as `q:rr` read back as `q * 60 + r`. */
  lemma ParseFields(q: nat, r: nat)
    requires r < 60
    ensures ParseTime(NatToString(q) + ":" + PadStart2(NatToString(r))) == Some(q * 60 + r)
  {
    SecondsDigits(r);
    ValueOfNatToString(q);
    ParseParts(NatToString(q), PadStart2(NatToString(r)), q, r);
  }

  /** For a non-negative counter the rendering is the minutes, a colon and
      the seconds field padded to two digits (see SecondsDigits). */
  lemma FormatNonNegative(t: nat)
    ensures Format(t) == NatToString(t / 60) + ":" + PadStart2(NatToString(t % 60))
  {
    assert SecondsField(t) == t % 60;
  }

  /** `ParseTime` splits `m + ":" + ss` back into the numbers `a` and `b`
      its two digit strings denote. */
  lemma ParseParts(m: string, ss: string, a: nat, b: nat)
    requires |m| >= 1 && AllDigits(m) && |ss| == 2 && AllDigits(ss)
    requires Value(m) == a && Value(ss) == b
    ensures ParseTime(m + ":" + ss) == Some(a * 60 + b)
  {
    ColonSplit(m, ss);
  }

  /** A negative counter renders with a negative minute and, because the
      remainder keeps the dividend's sign, a negative seconds field. */
  lemma FormatMinusOne()
    ensures Format(-1) == "-1:-1"
  {
    assert SecondsField(-1) == -1;
    assert NatToString(1) == "1";
  }

  // ---------------------------------------------------------------------
  // Text colour

  datatype TextColour = White | Yellow | Red

  /** White above 30 seconds, yellow above 10, red otherwise. */
  function ColourFor(t: int): (c: TextColour)
    ensures c == White <==> t > 30
    ensures c == Yellow <==> 10 < t <= 30
    ensures c == Red <==> t <= 10
  {
    if t > 30 then White else if t > 10 then Yellow else Red
  }

  /** How alarming a colour is: white < yellow < red. */
  function Urgency(c: TextColour): nat
  {
    match c
    case White => 0
    case Yellow => 1
    case Red => 2
  }

  /** As the counter runs down the colour only moves towards red. */
  lemma ColourOnlyDarkens(seconds: int, n: nat, m: nat)
    requires n <= m
    ensures Urgency(ColourFor(Remaining(seconds, n))) <= Urgency(ColourFor(Remaining(seconds, m)))
  {
    RemainingValue(seconds, n);
    RemainingValue(seconds, m);
  }
}
