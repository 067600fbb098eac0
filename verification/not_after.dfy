/** The certificate's expiry text as `getpeercert()` returns it under `notAfter`
    (the validity field of RFC 5280 section 4.1.2.5, printed the way OpenSSL
    prints an ASN.1 time, e.g. `Jun  1 12:00:00 2025 GMT`), and
    `datetime.strptime(text, "%b %d %H:%M:%S %Y %Z")` reduced to the date it yields. */
module NotAfter {
  import opened Outcomes
  import opened Text
  import opened Calendar

  /** `%b` in the C locale. */
  function MonthAbbreviation(m: int): (s: string)
    requires 1 <= m <= 12
    ensures |s| == 3 && NoSpace(s)
  {
    match m
    case 1 => "Jan" case 2 => "Feb" case 3 => "Mar" case 4 => "Apr"
    case 5 => "May" case 6 => "Jun" case 7 => "Jul" case 8 => "Aug"
    case 9 => "Sep" case 10 => "Oct" case 11 => "Nov" case _ => "Dec"
  }

  /** `%b` matched against a whole field, ignoring ASCII case as `strptime` does. */
  function MonthOfAbbreviation(t: string): (r: Option<int>)
    ensures r.Some? ==> 1 <= r.value <= 12
  {
    var l := Lower(t);
    if l == "jan" then Some(1) else if l == "feb" then Some(2) else if l == "mar" then Some(3)
    else if l == "apr" then Some(4) else if l == "may" then Some(5) else if l == "jun" then Some(6)
    else if l == "jul" then Some(7) else if l == "aug" then Some(8) else if l == "sep" then Some(9)
    else if l == "oct" then Some(10) else if l == "nov" then Some(11) else if l == "dec" then Some(12)
    else None
  }

  /** `%Z` matched against a whole field: the zone names `strptime` knows on a
      host whose local zone is UTC. */
  function IsZoneName(t: string): (b: bool)
    ensures b ==> |t| == 3 && NoSpace(t)
  {
    var b := Lower(t) == "utc" || Lower(t) == "gmt";
    assert b ==> forall i :: 0 <= i < |t| ==> LowerChar(t[i]) in "utcgm";
    b
  }

  /** `%H:%M:%S` matched against a whole field; seconds 60 and 61 match the
      pattern, but the datetime constructor then raises ValueError. */
  function IsTimeOfDay(t: string): (b: bool)
    ensures b ==> Count(t, ':') == 2 && 5 <= |t| <= 8
    ensures b ==> forall i :: 0 <= i < |t| ==> IsDigit(t[i]) || t[i] == ':'
  {
    var parts := Split(t, ':');
    var b :=
      && |parts| == 3
      && NumberField(parts[0], 0, 23).Some?
      && NumberField(parts[1], 0, 59).Some?
      && NumberField(parts[2], 0, 61).Some? && NumberField(parts[2], 0, 61).value <= 59;
    if b then TimeFieldsShape(t); b else b
  }

  /** Three fields of one or two digits joined by colons make up the whole text. */
  lemma TimeFieldsShape(t: string)
    requires |Split(t, ':')| == 3
    requires forall k :: 0 <= k < 3 ==> 1 <= |Split(t, ':')[k]| <= 2 && AllDigits(Split(t, ':')[k])
    ensures 5 <= |t| <= 8
    ensures forall i :: 0 <= i < |t| ==> IsDigit(t[i]) || t[i] == ':'
  {
    var p := Split(t, ':');
    JoinSplit(t, ':');
    assert Join(p[2..], ':') == p[2];
    assert Join(p[1..], ':') == p[1] + [':'] + p[2];
    assert t == p[0] + [':'] + (p[1] + [':'] + p[2]);
  }

  /** `datetime.strptime(text, "%b %d %H:%M:%S %Y %Z")`, `None` where it raises
      ValueError. Each space of the format matches a run of whitespace, the
      pattern must cover the whole text, and the fields must name a date that
      exists; only the date is kept. */
  function ParseNotAfter(text: string): (r: Option<Date>)
    ensures r.Some? ==> ValidDate(r.value)
  {
    if text == [] || IsSpace(text[0]) || IsSpace(text[|text| - 1]) then None
    else
      var month := NextField(text);
      var day := NextField(month.1);
      var time := NextField(day.1);
      var year := NextField(time.1);
      var zone := NextField(year.1);
      if zone.1 != [] then None
      else
        match (MonthOfAbbreviation(month.0), DayField(day.0))
        case (Some(m), Some(d)) =>
          if IsTimeOfDay(time.0) && |year.0| == 4 && AllDigits(year.0) && IsZoneName(zone.0) then
            var date := Date(DecimalValue(year.0), m, d);
            if ValidDate(date) then Some(date) else None
          else None
        case _ => None
  }

  /** The day of the month as OpenSSL prints it: padded with a space. */
  function SpacePadded(day: nat): string
    requires 1 <= day <= 31
  {
    if day < 10 then [' ', DigitChar(day)] else Pad2(day)
  }

  /** An ASN.1 validity time as `getpeercert()` hands it over, for years from
      1000 on and times without fractional seconds. OpenSSL prints the year
      with `%d`, so earlier years would have fewer than four digits, and it
      prints fractional seconds after the seconds; neither case is rendered
      here. */
  function RenderNotAfter(d: Date, hour: nat, minute: nat, second: nat): string
    requires ValidDate(d) && hour < 24 && minute < 60 && second < 60
  {
    MonthAbbreviation(d.month) + (" " + (SpacePadded(d.day) + (" "
    + (TimeText(hour, minute, second) + (" " + (Pad4(d.year) + " GMT"))))))
  }

  lemma MonthRoundTrip(m: int)
    requires 1 <= m <= 12
    ensures MonthOfAbbreviation(MonthAbbreviation(m)) == Some(m)
  {
    var l := Lower(MonthAbbreviation(m));
    match m
    case 1 => assert l == "jan"; case 2 => assert l == "feb"; case 3 => assert l == "mar";
    case 4 => assert l == "apr"; case 5 => assert l == "may"; case 6 => assert l == "jun";
    case 7 => assert l == "jul"; case 8 => assert l == "aug"; case 9 => assert l == "sep";
    case 10 => assert l == "oct"; case 11 => assert l == "nov"; case _ => assert l == "dec";
  }

  lemma TimeRoundTrip(hour: nat, minute: nat, second: nat)
    requires hour < 24 && minute < 60 && second < 60
    ensures IsTimeOfDay(Pad2(hour) + ":" + Pad2(minute) + ":" + Pad2(second))
  {
    var parts := [Pad2(hour), Pad2(minute), Pad2(second)];
    assert Join(parts, ':') == Pad2(hour) + ":" + Pad2(minute) + ":" + Pad2(second) by {
      assert Join(parts[2..], ':') == Pad2(second);
      assert Join(parts[1..], ':') == Pad2(minute) + [':'] + Pad2(second);
    }
    SplitJoin(parts, ':');
  }

  /** The day-of-month field once the padding space has joined the whitespace run. */
  function DayDigits(day: nat): (t: string)
    requires 1 <= day <= 31
    ensures t != [] && NoSpace(t)
  {
    if day < 10 then [DigitChar(day)] else Pad2(day)
  }

  function TimeText(hour: nat, minute: nat, second: nat): (t: string)
    requires hour < 24 && minute < 60 && second < 60
    ensures t != [] && NoSpace(t)
  {
    var t := Pad2(hour) + ":" + Pad2(minute) + ":" + Pad2(second);
    assert forall i :: 0 <= i < |t| ==> IsDigit(t[i]) || t[i] == ':';
    t
  }

  /** Five tokens with whitespace runs between them are read back as five fields,
      with nothing left over. */
  lemma FiveFields(a: string, g1: string, b: string, g2: string, c: string, g3: string,
                   d: string, g4: string, e: string)
    requires a != [] && NoSpace(a) && b != [] && NoSpace(b) && c != [] && NoSpace(c)
    requires d != [] && NoSpace(d) && e != [] && NoSpace(e)
    requires g1 != [] && AllSpace(g1) && g2 != [] && AllSpace(g2)
    requires g3 != [] && AllSpace(g3) && g4 != [] && AllSpace(g4)
    ensures var p0 := NextField(a + (g1 + (b + (g2 + (c + (g3 + (d + (g4 + e))))))));
      && var p1 := NextField(p0.1);
      && var p2 := NextField(p1.1);
      && var p3 := NextField(p2.1);
      && var p4 := NextField(p3.1);
      && p0.0 == a && p1.0 == b && p2.0 == c && p3.0 == d && p4 == (e, [])
  {
    var r3 := d + (g4 + e);
    var r2 := c + (g3 + r3);
    var r1 := b + (g2 + r2);
    LeadsWithToken(a, g1 + r1);
    LeadsWithToken(b, g2 + r2);
    LeadsWithToken(c, g3 + r3);
    LeadsWithToken(d, g4 + e);
    NextFieldCons(a, g1, r1);
    NextFieldCons(b, g2, r2);
    NextFieldCons(c, g3, r3);
    NextFieldCons(d, g4, e);
    NextFieldLast(e);
  }

  lemma LeadsWithToken(t: string, rest: string)
    requires t != [] && NoSpace(t)
    ensures !IsSpace((t + rest)[0])
  {
    assert (t + rest)[0] == t[0];
  }

  /** The fields of a rendered expiry time, one after the other. */
  lemma RenderFields(d: Date, hour: nat, minute: nat, second: nat)
    requires ValidDate(d) && hour < 24 && minute < 60 && second < 60
    ensures var text := RenderNotAfter(d, hour, minute, second);
      && var month := NextField(text);
      && var day := NextField(month.1);
      && var time := NextField(day.1);
      && var year := NextField(time.1);
      && var zone := NextField(year.1);
      && month.0 == MonthAbbreviation(d.month) && day.0 == DayDigits(d.day)
      && time.0 == TimeText(hour, minute, second) && year.0 == Pad4(d.year)
      && zone == ("GMT", [])
  {
    var gap: string := if d.day < 10 then "  " else " ";
    var day := DayDigits(d.day);
    var time := TimeText(hour, minute, second);
    var year := Pad4(d.year);
    var rest := time + (" " + (year + (" " + "GMT")));
    assert " " + (SpacePadded(d.day) + (" " + rest)) == gap + (day + (" " + rest));
    assert year + " GMT" == year + (" " + "GMT");
    assert AllSpace(" ");
    FiveFields(MonthAbbreviation(d.month), gap, day, " ", time, " ", year, " ", "GMT");
  }

  /** A rendered expiry time has no whitespace at either end. */
  lemma RenderEnds(d: Date, hour: nat, minute: nat, second: nat)
    requires ValidDate(d) && hour < 24 && minute < 60 && second < 60
    ensures var text := RenderNotAfter(d, hour, minute, second);
      text != [] && !IsSpace(text[0]) && !IsSpace(text[|text| - 1])
  {
    var text := RenderNotAfter(d, hour, minute, second);
    assert text[|text| - 1] == 'T';
  }

  /** The conditions under which `strptime` reads a date out of the five fields. */
  lemma ParseOfFields(text: string, d: Date)
    requires ValidDate(d)
    requires text != [] && !IsSpace(text[0]) && !IsSpace(text[|text| - 1])
    requires var month := NextField(text);
      && var day := NextField(month.1);
      && var time := NextField(day.1);
      && var year := NextField(time.1);
      && var zone := NextField(year.1);
      && MonthOfAbbreviation(month.0) == Some(d.month) && DayField(day.0) == Some(d.day)
      && IsTimeOfDay(time.0) && |year.0| == 4 && AllDigits(year.0) && DecimalValue(year.0) == d.year
      && IsZoneName(zone.0) && zone.1 == []
    ensures ParseNotAfter(text) == Some(d)
  {
  }

  /** The rendered text of any valid expiry time parses back to its date; from
      year 1000 on, with whole seconds, that text is the one OpenSSL prints. */
  lemma ParseRenderNotAfter(d: Date, hour: nat, minute: nat, second: nat)
    requires ValidDate(d) && hour < 24 && minute < 60 && second < 60
    ensures ParseNotAfter(RenderNotAfter(d, hour, minute, second)) == Some(d)
  {
    RenderEnds(d, hour, minute, second);
    RenderFields(d, hour, minute, second);
    MonthRoundTrip(d.month);
    TimeRoundTrip(hour, minute, second);
    GmtIsZoneName();
    DayRoundTrip(d.day);
    ParseOfFields(RenderNotAfter(d, hour, minute, second), d);
  }

  lemma GmtIsZoneName()
    ensures IsZoneName("GMT")
  {
    var l := Lower("GMT");
    assert l[0] == 'g' && l[1] == 'm' && l[2] == 't';
    assert l == "gmt";
  }

  lemma DayRoundTrip(day: nat)
    requires 1 <= day <= 31
    ensures DayField(DayDigits(day)) == Some(day)
  {
    if day < 10 {
      assert DayDigits(day)[..0] == [];
    }
  }
}
