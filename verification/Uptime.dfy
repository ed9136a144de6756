// The Linux uptime parser and the boot-time subtraction (include/boot-time-aux.h). The contents
// of /proc/uptime and the current time are inputs; a time_t is an unbounded integer.
module Uptime {
  import opened Common
  import opened Powers
  import opened Decimal

  const BILLION: nat := 1_000_000_000
  const NANO_DIGITS: nat := 9

  datatype Timespec = Timespec(sec: int, nsec: int) {
    predicate Normalised() {
      0 <= nsec < BILLION
    }

    function Nanos(): int {
      sec * BILLION + nsec
    }
  }

  predicate IsDigit(c: char) {
    '0' <= c <= '9'
  }

  function DigitValue(c: char): nat
    requires IsDigit(c)
  {
    (c - '0') as nat
  }

  // The digits at the start of the text.
  function DigitRun(text: string): (ds: seq<nat>)
    ensures IsDigits(ds) && |ds| <= |text|
  {
    if text != "" && IsDigit(text[0]) then [DigitValue(text[0])] + DigitRun(text[1..]) else []
  }

  // The digits before and after the decimal point of the number at the start of the text.
  function WholeDigits(buf: string): seq<nat> {
    DigitRun(buf)
  }

  function FractionDigits(buf: string): seq<nat> {
    var n := |WholeDigits(buf)|;
    if At(buf, n, '\0') == '.' then DigitRun(buf[n + 1..]) else []
  }

  function Zeros(k: nat): seq<nat> {
    seq(k, i => 0)
  }

  // The digits followed by zeros, k in all.
  function Padded(ds: seq<nat>, k: nat): seq<nat>
    requires |ds| <= k
  {
    ds + Zeros(k - |ds|)
  }

  // The first k of some digits, filled up with zeros.
  function Fitted(ds: seq<nat>, k: nat): (r: seq<nat>)
    ensures |r| == k
  {
    if |ds| >= k then ds[..k] else Padded(ds, k)
  }

  // Exactly nine fractional digits.
  function NineDigits(f: seq<nat>): seq<nat> {
    Fitted(f, NANO_DIGITS)
  }

  // What the text says: nothing, unless it starts with a digit.
  function ParsedUptime(buf: string): Option<Timespec> {
    if WholeDigits(buf) == [] then None
    else Some(Timespec(Num(WholeDigits(buf)), Num(NineDigits(FractionDigits(buf)))))
  }

  lemma RunStep(buf: string, p: nat)
    requires p <= |buf|
    ensures DigitRun(buf[p..]) ==
      if IsDigit(At(buf, p, '\0')) then [DigitValue(buf[p])] + DigitRun(buf[p + 1..]) else []
  {
    if p < |buf| {
      assert buf[p..][1..] == buf[p + 1..];
    }
  }

  method GetLinuxUptime(buf: string) returns (uptime: Option<Timespec>)
    ensures uptime == ParsedUptime(buf)
  {
    var s, p := Seconds(buf);
    if p == 0 {
      return None;
    }
    if At(buf, p, '\0') != '.' {
      NumZeros(NANO_DIGITS);
      assert NineDigits(FractionDigits(buf)) == Zeros(NANO_DIGITS);
      return Some(Timespec(s, 0));
    }
    var ns := ReadFraction(buf, p + 1, NANO_DIGITS);
    TakeDigitsPads(buf[p + 1..], NANO_DIGITS);
    return Some(Timespec(s, ns));
  }

  lemma NextSecondsDigit(buf: string, read: seq<nat>)
    requires |read| < |buf| && IsDigit(buf[|read|]) && IsDigits(read)
    requires WholeDigits(buf) == read + DigitRun(buf[|read|..])
    ensures var more := read + [DigitValue(buf[|read|])];
      && IsDigits(more)
      && WholeDigits(buf) == more + DigitRun(buf[|more|..])
      && Num(more) == 10 * Num(read) + DigitValue(buf[|read|])
  {
    var d, rest := DigitValue(buf[|read|]), DigitRun(buf[|read| + 1..]);
    RunStep(buf, |read|);
    NumSnoc(read, d);
    AppendDigit(read, d, rest);
  }

  lemma AppendDigit(read: seq<nat>, d: nat, rest: seq<nat>)
    ensures read + ([d] + rest) == (read + [d]) + rest
  {
  }

  method Seconds(buf: string) returns (s: nat, p: nat)
    ensures p == |WholeDigits(buf)| && s == Num(WholeDigits(buf))
  {
    s, p := 0, 0;
    ghost var read := [];
    assert buf[0..] == buf;
    while IsDigit(At(buf, p, '\0'))
      invariant p == |read| <= |buf| && IsDigits(read)
      invariant WholeDigits(buf) == read + DigitRun(buf[p..])
      invariant s == Num(read)
      decreases |buf| - p
    {
      NextSecondsDigit(buf, read);
      s, read := 10 * s + DigitValue(At(buf, p, '\0')), read + [DigitValue(buf[p])];
      p := p + 1;
    }
    RunStep(buf, p);
    assert WholeDigits(buf) == read;
  }

  // What the loop that reads k fractional digits takes: 0 once the digits run out.
  function TakeDigits(text: string, k: nat): (ds: seq<nat>)
    ensures |ds| == k
    decreases k
  {
    if k == 0 then []
    else if text != "" && IsDigit(text[0]) then [DigitValue(text[0])] + TakeDigits(text[1..], k - 1)
    else [0] + TakeDigits(text, k - 1)
  }

  lemma FittedCons(d: nat, ds: seq<nat>, k: nat)
    requires k > 0
    ensures Fitted([d] + ds, k) == [d] + Fitted(ds, k - 1)
  {
  }

  lemma FittedEmpty(k: nat)
    requires k > 0
    ensures Fitted([], k) == [0] + Fitted([], k - 1)
  {
    assert Zeros(k) == [0] + Zeros(k - 1);
  }

  lemma {:induction false} TakeDigitsPads(text: string, k: nat)
    ensures TakeDigits(text, k) == Fitted(DigitRun(text), k)
    decreases k
  {
    if k > 0 {
      if text != "" && IsDigit(text[0]) {
        TakeDigitsPads(text[1..], k - 1);
        FittedCons(DigitValue(text[0]), DigitRun(text[1..]), k);
      } else {
        TakeDigitsPads(text, k - 1);
        FittedEmpty(k);
      }
    }
  }

  lemma TakeStep(buf: string, p: nat, k: nat)
    requires p <= |buf| && k > 0
    ensures TakeDigits(buf[p..], k) ==
      if IsDigit(At(buf, p, '\0')) then [DigitValue(buf[p])] + TakeDigits(buf[p + 1..], k - 1)
      else [0] + TakeDigits(buf[p..], k - 1)
  {
    if p < |buf| {
      assert buf[p..][1..] == buf[p + 1..];
    }
  }

  // The loop that reads exactly k fractional digits.
  method ReadFraction(buf: string, start: nat, k: nat) returns (ns: nat)
    requires start <= |buf|
    ensures ns == Num(TakeDigits(buf[start..], k))
  {
    ns := 0;
    var p := start;
    ghost var all := TakeDigits(buf[start..], k);
    for i := 0 to k
      invariant start <= p <= |buf|
      invariant TakeDigits(buf[p..], k - i) == all[i..]
      invariant ns == Num(all[..i])
    {
      TakeStep(buf, p, k - i);
      if IsDigit(At(buf, p, '\0')) {
        NextDigit(all, i, DigitValue(buf[p]), TakeDigits(buf[p + 1..], k - i - 1));
        ns := 10 * ns + DigitValue(At(buf, p, '\0'));
        p := p + 1;
      } else {
        NextDigit(all, i, 0, TakeDigits(buf[p..], k - i - 1));
        ns := 10 * ns;
      }
    }
    assert all[..k] == all;
  }

  lemma NextDigit(ds: seq<nat>, i: nat, d: nat, rest: seq<nat>)
    requires i < |ds| && ds[i..] == [d] + rest
    ensures rest == ds[i + 1..]
    ensures Num(ds[..i + 1]) == 10 * Num(ds[..i]) + d
  {
    assert ds[i] == ds[i..][0];
    assert rest == ds[i..][1..];
    assert ds[..i + 1] == ds[..i] + [d];
    NumSnoc(ds[..i], d);
  }

  lemma {:induction false} NumZeros(k: nat)
    ensures Num(Zeros(k)) == 0
  {
    if k > 0 {
      assert Zeros(k)[..k - 1] == Zeros(k - 1);
      NumZeros(k - 1);
    }
  }

  lemma BillionIsPower()
    ensures Pow(10, NANO_DIGITS) == BILLION
  {
    assert Pow(10, 4) == 10000;
    PowAdd(10, 4, 4);
  }

  // The result is the decimal number written in the text, truncated to nanoseconds.
  lemma UptimeIsTruncatedDecimal(buf: string)
    requires WholeDigits(buf) != []
    ensures var t := ParsedUptime(buf).value;
      var i, f := WholeDigits(buf), FractionDigits(buf);
      t.Normalised() && t.Nanos() == Num(i + f) * BILLION / Pow(10, |f|)
  {
    var i, f := WholeDigits(buf), FractionDigits(buf);
    var nine := NineDigits(f);
    BillionIsPower();
    NumBound(nine);
    NumConcat(i, nine);
    var total := Num(i + nine);
    if |f| >= NANO_DIGITS {
      var rest := f[NANO_DIGITS..];
      assert i + f == (i + nine) + rest;
      NumConcat(i + nine, rest);
      NumBound(rest);
      PowAdd(10, |rest|, NANO_DIGITS);
      Truncates(total, Pow(10, |rest|), BILLION, Num(rest));
    } else {
      var zeros := Zeros(NANO_DIGITS - |f|);
      assert i + nine == (i + f) + zeros;
      NumConcat(i + f, zeros);
      NumZeros(|zeros|);
      PowAdd(10, |zeros|, |f|);
      Exact(Num(i + f), Pow(10, |zeros|), Pow(10, |f|));
    }
  }

  lemma Truncates(q: nat, d: nat, b: nat, r: nat)
    requires r < d && b > 0
    ensures d * b > 0 && (q * d + r) * b / (d * b) == q
  {
    MulLtMul(r, d, b);
    assert (q * d + r) * b == q * (d * b) + r * b;
    DivModUnique(q, d * b, r * b);
  }

  lemma Exact(n: nat, z: nat, p: nat)
    requires p > 0
    ensures n * (z * p) / p == n * z
  {
    MulAssoc(n, z, p);
    DivModUnique(n * z, p, 0);
  }

  // get_linux_boot_time_final_fallback: the time now minus the uptime, borrowing a second.
  method BootTime(now: Timespec, uptime: Timespec) returns (result: Timespec)
    requires now.Normalised() && uptime.Normalised()
    ensures result.Normalised()
    ensures result.Nanos() == now.Nanos() - uptime.Nanos()
  {
    result := now;
    if result.nsec < uptime.nsec {
      result := result.(nsec := result.nsec + BILLION);
      result := result.(sec := result.sec - 1);
    }
    result := result.(sec := result.sec - uptime.sec);
    result := result.(nsec := result.nsec - uptime.nsec);
  }

  function DigitText(ds: seq<nat>): (t: string)
    requires IsDigits(ds)
    ensures |t| == |ds|
    ensures forall i :: 0 <= i < |t| ==> IsDigit(t[i]) && DigitValue(t[i]) == ds[i]
  {
    seq(|ds|, i requires 0 <= i < |ds| => ds[i] as char + '0')
  }

  // A time in fixed point, with all nine fractional digits.
  function FixedPoint(t: Timespec): string
    requires t.sec >= 0 && t.Normalised()
  {
    DigitText(Digits(t.sec)) + "." + DigitText(FixedDigits(t.nsec, NANO_DIGITS))
  }

  // The digits at the start of a numeral followed by something else are the numeral's.
  lemma {:induction false} RunOfText(ds: seq<nat>, tail: string)
    requires IsDigits(ds) && (tail == "" || !IsDigit(tail[0]))
    ensures DigitRun(DigitText(ds) + tail) == ds
  {
    if ds == [] {
      assert DigitText(ds) + tail == tail;
    } else {
      assert (DigitText(ds) + tail)[1..] == DigitText(ds[1..]) + tail;
      RunOfText(ds[1..], tail);
    }
  }

  // Printing a time and parsing the text, whatever follows it, gives the time back.
  lemma FixedPointRoundTrip(t: Timespec, rest: string)
    requires t.sec >= 0 && t.Normalised()
    requires rest == "" || !IsDigit(rest[0])
    ensures ParsedUptime(FixedPoint(t) + rest) == Some(t)
  {
    var i, f := Digits(t.sec), FixedDigits(t.nsec, NANO_DIGITS);
    var buf := FixedPoint(t) + rest;
    var tail := "." + DigitText(f) + rest;
    assert buf == DigitText(i) + tail;
    RunOfText(i, tail);
    assert buf[|i| + 1..] == DigitText(f) + rest;
    RunOfText(f, rest);
    BillionIsPower();
    NumDigits(t.sec);
    NumFixedDigits(t.nsec, NANO_DIGITS);
    assert NineDigits(f) == f;
  }

  // Digits, a point, digits and anything else: the time is the decimal number, truncated.
  lemma ParsedPointText(i: seq<nat>, f: seq<nat>, rest: string)
    requires i != [] && IsDigits(i) && IsDigits(f) && (rest == "" || !IsDigit(rest[0]))
    ensures match ParsedUptime(DigitText(i) + "." + DigitText(f) + rest)
      case None => false
      case Some(t) =>
        0 <= t.nsec < 1_000_000_000 && t.sec * 1_000_000_000 + t.nsec == Num(i + f) * 1_000_000_000 / Pow(10, |f|)
  {
    PointDigits(i, f, rest);
    UptimeIsTruncatedDecimal(DigitText(i) + "." + DigitText(f) + rest);
  }

  lemma PointDigits(i: seq<nat>, f: seq<nat>, rest: string)
    requires IsDigits(i) && IsDigits(f) && (rest == "" || !IsDigit(rest[0]))
    ensures WholeDigits(DigitText(i) + "." + DigitText(f) + rest) == i
    ensures FractionDigits(DigitText(i) + "." + DigitText(f) + rest) == f
  {
    var buf := DigitText(i) + "." + DigitText(f) + rest;
    var tail := "." + DigitText(f) + rest;
    assert buf == DigitText(i) + tail;
    RunOfText(i, tail);
    assert buf[|i| + 1..] == DigitText(f) + rest;
    RunOfText(f, rest);
  }

  // Without a point behind the digits the time is in whole seconds, and without digits there is none.
  lemma ParsedWholeText(i: seq<nat>, rest: string)
    requires IsDigits(i) && (rest == "" || (!IsDigit(rest[0]) && rest[0] != '.'))
    ensures ParsedUptime(DigitText(i) + rest) == if i == [] then None else Some(Timespec(Num(i), 0))
  {
    RunOfText(i, rest);
    NumZeros(9);
    assert FractionDigits(DigitText(i) + rest) == [];
    assert NineDigits([]) == Zeros(9);
  }

  lemma NoDigitsNoTime(rest: string)
    requires rest == "" || !IsDigit(rest[0])
    ensures ParsedUptime(rest) == None
  {
  }
}
