/** `get_days_until_expiry`: the number of whole days from "now" until the
    stored expiry date, or -1 for a stored error text. */
module Countdown {
  import opened Outcomes
  import opened Text
  import opened Calendar

  const MicrosPerDay: int := 86_400_000_000

  /** A reading of `datetime.now()`: the calendar day and the microseconds
      already past midnight on it. */
  datatype Instant = Instant(today: Date, micros: int)

  type Clock = c: Instant | ValidDate(c.today) && 0 <= c.micros < MicrosPerDay
    witness Instant(Date(1, 1, 1), 0)

  /** Every failure value of the inspector begins with this text. */
  const ErrorPrefix: string := "Error"

  /** The two kinds of value the inspector stores in `SSL Expiry Date`: an error
      text or a date as `strftime("%Y-%m-%d")` writes it. */
  predicate WellFormedExpiry(s: string) {
    StartsWith(s, ErrorPrefix) || IsIsoDate(s)
  }

  /** `get_days_until_expiry(expiry)` with `datetime.now()` reading `now`.
      `expiry_date - current_date` is a timedelta whose `days` is the floor of
      the difference in microseconds over a day; Dafny's `/` by a positive
      divisor is that floor. A text that is neither an error nor a date makes
      `strptime` raise. The result is the difference of the two dates' day
      numbers, one less when the clock is past midnight. */
  function DaysUntil(expiry: string, now: Clock): (r: Result<int>)
    ensures r.Raised? <==> !StartsWith(expiry, ErrorPrefix) && ParseIso(expiry).None?
    ensures StartsWith(expiry, ErrorPrefix) ==> r == Ok(-1)
    ensures r.Ok? && !StartsWith(expiry, ErrorPrefix) ==>
      r.value == Ordinal(ParseIso(expiry).value) - Ordinal(now.today) - (if now.micros > 0 then 1 else 0)
  {
    if StartsWith(expiry, ErrorPrefix) then Ok(-1)
    else
      match ParseIso(expiry)
      case None => Raised
      case Some(d) =>
        var expiryMicros := Ordinal(d) * MicrosPerDay;
        var nowMicros := Ordinal(now.today) * MicrosPerDay + now.micros;
        FloorDays(Ordinal(d) - Ordinal(now.today), now.micros);
        Ok((expiryMicros - nowMicros) / MicrosPerDay)
  }

  /** Floor division of a whole number of days less part of a day. */
  lemma FloorDays(k: int, m: int)
    requires 0 <= m < MicrosPerDay
    ensures (k * MicrosPerDay - m) / MicrosPerDay == k - (if m > 0 then 1 else 0)
  {
    if m == 0 {
      DivExact(k * MicrosPerDay, k, 0);
    } else {
      assert k * MicrosPerDay - m == (k - 1) * MicrosPerDay + (MicrosPerDay - m);
      DivExact(k * MicrosPerDay - m, k - 1, MicrosPerDay - m);
    }
  }

  lemma DivExact(x: int, q: int, rem: int)
    requires 0 <= rem < MicrosPerDay && x == q * MicrosPerDay + rem
    ensures x / MicrosPerDay == q
  {
    var q' := x / MicrosPerDay;
    var rem' := x % MicrosPerDay;
    assert x == q' * MicrosPerDay + rem';
    assert (q - q') * MicrosPerDay == rem' - rem;
  }

  /** A date string in the canonical form never starts with "Error". */
  lemma IsoDateIsNotError(s: string)
    requires IsIsoDate(s)
    ensures !StartsWith(s, ErrorPrefix)
  {
    var d := ParseIso(s).value;
    assert AllDigits(s[..4]);
    assert s[0] == s[..4][0];
  }

  /** Both kinds of stored value are read by the countdown without raising, and
      an error text reads as -1. */
  lemma WellFormedNeverRaises(s: string, now: Clock)
    requires WellFormedExpiry(s)
    ensures DaysUntil(s, now).Ok?
    ensures StartsWith(s, ErrorPrefix) ==> DaysUntil(s, now) == Ok(-1)
  {
    if !StartsWith(s, ErrorPrefix) {
      assert IsIsoDate(s);
    }
  }

  /** The countdown of a formatted date, in calendar terms. */
  lemma DaysUntilDate(d: Date, now: Clock)
    requires ValidDate(d)
    ensures DaysUntil(FormatIso(d), now)
      == Ok(Ordinal(d) - Ordinal(now.today) - (if now.micros > 0 then 1 else 0))
  {
    FormatIsIsoDate(d);
    IsoDateIsNotError(FormatIso(d));
    ParseFormatIso(d);
  }

  /** A certificate that expired before today counts down to a negative number. */
  lemma PastDateNegative(d: Date, now: Clock)
    requires ValidDate(d) && Before(d, now.today)
    ensures DaysUntil(FormatIso(d), now).Ok? && DaysUntil(FormatIso(d), now).value < 0
  {
    DaysUntilDate(d, now);
    OrdinalIncreasing(d, now.today);
  }

  /** An expiry after today never counts down below zero. */
  lemma FutureDateNotNegative(d: Date, now: Clock)
    requires ValidDate(d) && Before(now.today, d)
    ensures DaysUntil(FormatIso(d), now).Ok? && DaysUntil(FormatIso(d), now).value >= 0
  {
    DaysUntilDate(d, now);
    OrdinalIncreasing(now.today, d);
  }

  /** A certificate expiring today counts down to -1, the same value an error
      text gets, unless the clock reads exactly midnight. */
  lemma ExpiringTodayLooksLikeError(now: Clock)
    ensures DaysUntil(FormatIso(now.today), now) == Ok(if now.micros > 0 then -1 else 0)
    ensures now.micros > 0 ==> DaysUntil(FormatIso(now.today), now) == DaysUntil(ErrorPrefix, now)
  {
    DaysUntilDate(now.today, now);
    assert StartsWith(ErrorPrefix, ErrorPrefix);
  }

  /** A later expiry date never counts down to fewer days. */
  lemma DaysUntilMonotonic(a: Date, b: Date, now: Clock)
    requires ValidDate(a) && ValidDate(b) && Before(a, b)
    ensures DaysUntil(FormatIso(a), now).Ok? && DaysUntil(FormatIso(b), now).Ok?
    ensures DaysUntil(FormatIso(a), now).value < DaysUntil(FormatIso(b), now).value
  {
    DaysUntilDate(a, now);
    DaysUntilDate(b, now);
    OrdinalIncreasing(a, b);
  }
}
