/** The TypeScript amino converter for durations: seconds and nanos to a decimal count and back. */
module Durations {
  import opened Basics

  const BILLION: int := 1_000_000_000

  /** BigInt division truncates toward zero; the remainder takes the dividend's sign. */
  function TruncDiv(a: int, b: int): int
    requires b > 0
  {
    if a >= 0 then a / b else -((-a) / b)
  }

  function TruncMod(a: int, b: int): int
    requires b > 0
  {
    if a >= 0 then a % b else -((-a) % b)
  }

  datatype Duration = Duration(seconds: int, nanos: int)

  /** The converter's argument: the object, and each of its fields, may be missing. */
  datatype Partial = Partial(seconds: Option<int>, nanos: Option<int>)

  function ToNanos(d: Option<Partial>): int {
    if d.None? then 0
    else
      var secs := if d.value.seconds.None? then 0 else d.value.seconds.value;
      var nanos := if d.value.nanos.None? then 0 else d.value.nanos.value;
      secs * BILLION + nanos
  }

  function FromNanos(n: int): Duration {
    Duration(TruncDiv(n, BILLION), TruncMod(n, BILLION))
  }

  // ---------- decimal strings ----------

  predicate AllDigits(s: string) {
    forall i :: 0 <= i < |s| ==> '0' <= s[i] <= '9'
  }

  function Digits(n: nat): (s: string)
    ensures s != [] && AllDigits(s)
  {
    if n < 10 then [('0' as int + n) as char] else Digits(n / 10) + [('0' as int + n % 10) as char]
  }

  /** `String(bigint)` */
  function Show(n: int): string {
    if n < 0 then "-" + Digits(-n) else Digits(n)
  }

  function Number(s: string): (n: nat)
    requires AllDigits(s)
    decreases |s|
  {
    if s == [] then 0 else 10 * Number(s[..|s| - 1]) + (s[|s| - 1] as int - '0' as int)
  }

  /** `BigInt(string)` on nothing, or an optional minus sign and decimal digits; a missing string counts as "0". */
  function Read(s: Option<string>): Option<int> {
    if s.None? || s.value == [] then Some(0)
    else
      var t := s.value;
      var negative := t[0] == '-';
      var digits := if negative then t[1..] else t;
      if digits != [] && AllDigits(digits) then
        var n: int := Number(digits);
        Some(if negative then -n else n)
      else None
  }

  function DurationToNanosStr(d: Option<Partial>): string {
    Show(ToNanos(d))
  }

  function NanosStrToDuration(ns: Option<string>): Option<Duration> {
    match Read(ns) case None => None case Some(n) => Some(FromNanos(n))
  }

  lemma {:induction false} NumberOfDigits(n: nat)
    ensures Number(Digits(n)) == n
    decreases n
  {
    var s := Digits(n);
    if n < 10 {
      assert s[..0] == [];
      assert Number(s[..0]) == 0;
    } else {
      NumberOfDigits(n / 10);
      assert s[..|s| - 1] == Digits(n / 10);
    }
  }

  lemma ReadDigits(s: string)
    requires s != [] && AllDigits(s)
    ensures var n: int := Number(s); Read(Some(s)) == Some(n) && Read(Some("-" + s)) == Some(-n)
  {
    hide Number;
    assert '0' <= s[0];
    assert ("-" + s)[0] == '-' && ("-" + s)[1..] == s;
  }

  lemma ReadShow(n: int)
    ensures Read(Some(Show(n))) == Some(n)
  {
    hide Read; hide Digits; hide Number;
    var m := if n < 0 then -n else n;
    NumberOfDigits(m);
    ReadDigits(Digits(m));
  }

  function Whole(d: Duration): Option<Partial> {
    Some(Partial(Some(d.seconds), Some(d.nanos)))
  }

  /** Every count of nanoseconds, of either sign, survives the trip through a duration. */
  lemma CountSurvives(n: int)
    ensures NanosStrToDuration(Some(Show(n))).Some?
    ensures DurationToNanosStr(Whole(NanosStrToDuration(Some(Show(n))).value)) == Show(n)
  {
    ReadShow(n);
  }

  lemma TruncParts(n: int)
    ensures TruncDiv(n, BILLION) * BILLION + TruncMod(n, BILLION) == n
    ensures -BILLION < TruncMod(n, BILLION) < BILLION
    ensures n >= 0 ==> TruncDiv(n, BILLION) >= 0 && TruncMod(n, BILLION) >= 0
    ensures n <= 0 ==> TruncDiv(n, BILLION) <= 0 && TruncMod(n, BILLION) <= 0
  {
  }

  lemma PartsUnique(s: int, n: int)
    ensures FromNanos(s * BILLION + n) == Duration(s, n) <==>
            -BILLION < n < BILLION && !(s > 0 && n < 0) && !(s < 0 && n > 0)
  {
    var total := s * BILLION + n;
    TruncParts(total);
    hide TruncDiv; hide TruncMod;
    var q, r := TruncDiv(total, BILLION), TruncMod(total, BILLION);
    assert (q - s) * BILLION == n - r;
  }

  /** A missing object or part counts as zero. */
  function Filled(d: Option<Partial>): Duration {
    if d.None? then Duration(0, 0)
    else Duration(if d.value.seconds.None? then 0 else d.value.seconds.value, if d.value.nanos.None? then 0 else d.value.nanos.value)
  }

  /**
   * A duration, missing parts filled in, survives exactly when its parts do not
   * disagree in sign and the nanos are below a second.
   */
  lemma DurationSurvives(p: Option<Partial>)
    ensures NanosStrToDuration(Some(DurationToNanosStr(p))) == Some(Filled(p)) <==>
            var d := Filled(p);
            -BILLION < d.nanos < BILLION && !(d.seconds > 0 && d.nanos < 0) && !(d.seconds < 0 && d.nanos > 0)
  {
    hide Read; hide Show; hide FromNanos;
    ReadShow(ToNanos(p));
    PartsUnique(Filled(p).seconds, Filled(p).nanos);
  }

  /** The count is the seconds in nanoseconds plus the nanos, missing parts counted as zero. */
  lemma CountMeans(p: Option<Partial>)
    ensures Read(Some(DurationToNanosStr(p))) ==
            Some((if p.None? || p.value.seconds.None? then 0 else p.value.seconds.value) * 1_000_000_000
                 + (if p.None? || p.value.nanos.None? then 0 else p.value.nanos.value))
  {
    hide Read; hide Show;
    ReadShow(ToNanos(p));
  }

  /** One second is "1000000000"; "-1500000000" is minus one and a half seconds; a missing or empty string is none. */
  lemma Examples()
    ensures DurationToNanosStr(Some(Partial(Some(1), None))) == "1000000000"
    ensures NanosStrToDuration(Some("-1500000000")) == Some(Duration(-1, -500_000_000))
    ensures NanosStrToDuration(None) == NanosStrToDuration(Some("")) == Some(Duration(0, 0))
    ensures NanosStrToDuration(Some("12a")) == None
  {
    OneBillion();
    ReadShow(-1_500_000_000);
    FifteenHundredMillion();
    assert "12a"[2] == 'a';
  }

  lemma NextDigit(n: nat, d: nat)
    requires n > 0 && d < 10
    ensures Digits(10 * n + d) == Digits(n) + [('0' as int + d) as char]
  {
  }

  lemma Thousandfold(n: nat)
    requires n > 0
    ensures Digits(1000 * n) == Digits(n) + "000"
  {
    hide Digits;
    NextDigit(100 * n, 0);
    NextDigit(10 * n, 0);
    NextDigit(n, 0);
    assert Digits(n) + "0" + "0" + "0" == Digits(n) + "000";
  }

  lemma SmallNumbers()
    ensures Digits(1) == "1" && Digits(15) == "15"
  {
    NextDigit(1, 5);
  }

  lemma OneBillion()
    ensures Show(1_000_000_000) == "1000000000"
  {
    hide Digits;
    SmallNumbers();
    Thousandfold(1);
    Thousandfold(1_000);
    Thousandfold(1_000_000);
  }

  lemma FifteenHundredMillion()
    ensures Show(-1_500_000_000) == "-1500000000"
  {
    hide Digits;
    SmallNumbers();
    NextDigit(15, 0);
    NextDigit(150, 0);
    Thousandfold(1_500);
    Thousandfold(1_500_000);
  }
}
