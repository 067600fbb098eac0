/** The standalone script `ssl_1.py`: it reads the key from the first column
    of every row, inspects the certificate, and overwrites the whole
    `SSL Expiry Date` column before saving the file. Unlike the web app, it
    converts the port before its `try` and reports each failure with the
    exception's own text. */
module ExpiryScript {
  import opened Outcomes
  import opened Text
  import opened Calendar
  import opened NotAfter
  import opened Countdown
  import opened Inspector
  import opened Watchlist

  /** Lines 14-19: the key is stripped and split exactly as in the web app,
      but `int(port)` now runs outside the `try`, so a port it rejects raises
      too. */
  function ScriptEndpoint(key: string): (r: Result<(string, int)>)
    ensures r.Raised? <==>
      Count(Strip(key), ':') >= 2 || (ParseKey(key).Ok? && PortNumber(ParseKey(key).value.port).None?)
    ensures r.Ok? && ':' !in Strip(key) ==> r.value == (Strip(key), HttpsPort)
    ensures r.Ok? && ':' in Strip(key) ==>
      exists port :: Strip(key) == r.value.0 + ":" + port && ':' !in r.value.0 && PyInt(port) == Some(r.value.1)
  {
    match ParseKey(key)
    case Raised => Raised
    case Ok(e) =>
      match PortNumber(e.port)
      case None => Raised
      case Some(port) => Ok((e.host, port))
  }

  /** The message `strptime` raises with when the `notAfter` text does not match:
      it quotes the rejected text and names the format. */
  function StrptimeMessage(text: string): (m: string)
    ensures |m| == |text| + 57
    ensures m[11..11 + |text|] == text
  {
    "time data '" + text + "' does not match format '%b %d %H:%M:%S %Y %Z'"
  }

  /** `ErrorPrefix` followed by ": " and the exception text (`f"Error: {str(e)}"`). */
  function ErrorText(message: string): (s: string)
    ensures StartsWith(s, ErrorPrefix)
  {
    var s := ErrorPrefix + ": " + message;
    assert s[..|ErrorPrefix|] == ErrorPrefix;
    s
  }

  /** `get_ssl_expiry(key)` of the script: raises for a key with more than one
      colon or a port `int()` rejects; otherwise "Error: " and the exception's
      text when connecting, the handshake or `strptime` fails, and the date
      `strptime` read, as `YYYY-MM-DD`, when it succeeds. */
  function ScriptExpiry(connect: Connector, key: string): (r: Result<string>)
    ensures r.Raised? <==> ScriptEndpoint(key).Raised?
    ensures r.Ok? ==> WellFormedExpiry(r.value)
    ensures ScriptEndpoint(key).Ok? ==>
      var h := connect(ScriptEndpoint(key).value.0, ScriptEndpoint(key).value.1);
      && (h.Failed? ==> r == Ok(ErrorText(h.reason)))
      && (h.Cert? && ParseNotAfter(h.notAfter).None? ==> r == Ok(ErrorText(StrptimeMessage(h.notAfter))))
      && (h.Cert? && ParseNotAfter(h.notAfter).Some? ==> r == Ok(FormatIso(ParseNotAfter(h.notAfter).value)))
  {
    match ScriptEndpoint(key)
    case Raised => Raised
    case Ok(endpoint) =>
      match connect(endpoint.0, endpoint.1)
      case Failed(reason) => Ok(ErrorText(reason))
      case Cert(text) =>
        match ParseNotAfter(text)
        case None => Ok(ErrorText(StrptimeMessage(text)))
        case Some(d) =>
          FormatIsIsoDate(d);
          Ok(FormatIso(d))
  }

  /** A key the web app raises on, the script raises on too. */
  lemma ScriptRaisesWhereAppRaises(connect: Connector, key: string)
    requires GetSslExpiry(connect, key).Raised?
    ensures ScriptExpiry(connect, key).Raised?
  {
  }

  /** Where the script does not raise, it and the web app store the same date,
      or both store an error text, and the countdown reads both alike. */
  lemma ScriptAgreesWithApp(connect: Connector, key: string, now: Clock)
    requires ScriptExpiry(connect, key).Ok?
    ensures GetSslExpiry(connect, key).Ok?
    ensures var script, app := ScriptExpiry(connect, key).value, GetSslExpiry(connect, key).value;
      && (IsIsoDate(script) || IsIsoDate(app) ==> script == app)
      && DaysUntil(script, now) == DaysUntil(app, now)
  {
    var e := ParseKey(key).value;
    var port := PortNumber(e.port).value;
    assert ScriptEndpoint(key).value == (e.host, port);
    var h := connect(e.host, port);
    var script, app := ScriptExpiry(connect, key).value, GetSslExpiry(connect, key).value;
    if h.Cert? && ParseNotAfter(h.notAfter).Some? {
      assert script == app;
    } else {
      assert StartsWith(script, ErrorPrefix) && app == ErrorSentinel;
      SentinelIsError();
      IsoDateErrorExclusive(script);
      IsoDateErrorExclusive(app);
      WellFormedNeverRaises(script, now);
      WellFormedNeverRaises(app, now);
    }
  }

  lemma IsoDateErrorExclusive(s: string)
    requires StartsWith(s, ErrorPrefix)
    ensures !IsIsoDate(s)
  {
    if IsIsoDate(s) {
      IsoDateIsNotError(s);
    }
  }

  // ---------------------------------------------------------------------------
  // Line 32: df["SSL Expiry Date"] = df[column_name].apply(get_ssl_expiry)

  /** The new value of one row: its `SSL Expiry Date` recomputed from its key. */
  function ColumnRow(connect: Connector, row: Row): (r: Result<Row>)
    ensures r.Raised? <==> ScriptExpiry(connect, row.subDomain).Raised?
    ensures r.Ok? ==> r.value == row.(sslExpiryDate := ScriptExpiry(connect, row.subDomain).value)
  {
    match ScriptExpiry(connect, row.subDomain)
    case Raised => Raised
    case Ok(expiry) => Ok(row.(sslExpiryDate := expiry))
  }

  function ColumnStep(connect: Connector): (nat, Row) -> Result<Row> {
    (i: nat, row: Row) => ColumnRow(connect, row)
  }

  /** The table after line 32, or `Raised` when `apply` raises on any row. */
  function UpdatedColumn(connect: Connector, rows: seq<Row>): (r: Result<seq<Row>>)
    ensures r.Raised? <==> exists i :: 0 <= i < |rows| && ScriptExpiry(connect, rows[i].subDomain).Raised?
    ensures r.Ok? ==> |r.value| == |rows|
    ensures r.Ok? ==> forall i :: 0 <= i < |rows| ==>
      r.value[i] == rows[i].(sslExpiryDate := ScriptExpiry(connect, rows[i].subDomain).value)
  {
    var step := ColumnStep(connect);
    assert forall i :: 0 <= i < |rows| ==> step(i, rows[i]) == ColumnRow(connect, rows[i]);
    MapRows(step, rows)
  }

  /** The column update keeps every row's key and countdown and the order of the
      rows, and stores only values the countdown can read. */
  lemma UpdatedColumnKeepsRows(connect: Connector, rows: seq<Row>)
    requires UpdatedColumn(connect, rows).Ok?
    ensures var table := UpdatedColumn(connect, rows).value;
      && |table| == |rows|
      && (forall i :: 0 <= i < |rows| ==>
            table[i].subDomain == rows[i].subDomain && table[i].daysUntilExpiry == rows[i].daysUntilExpiry)
      && AllWellFormed(table)
  {
    var table := UpdatedColumn(connect, rows).value;
    forall i | 0 <= i < |rows|
      ensures table[i].subDomain == rows[i].subDomain && table[i].daysUntilExpiry == rows[i].daysUntilExpiry
      ensures WellFormedExpiry(table[i].sslExpiryDate)
    {
      assert ColumnStep(connect)(i, rows[i]) == Ok(table[i]);
      assert ColumnRow(connect, rows[i]) == Ok(table[i]);
    }
  }

  /** The script raises exactly when some key has more than one colon or a port
      `int()` rejects. */
  lemma UpdatedColumnRaises(connect: Connector, rows: seq<Row>)
    ensures UpdatedColumn(connect, rows).Raised? <==>
      exists i :: 0 <= i < |rows| && ScriptEndpoint(rows[i].subDomain).Raised?
  {
    var step := ColumnStep(connect);
    assert forall i :: 0 <= i < |rows| ==> step(i, rows[i]) == ColumnRow(connect, rows[i]);
  }

  /** Line 32 on the loaded table: `apply` builds the whole new column first and
      the assignment replaces the old one only once every row has a value. When
      a row raises the script stops before saving, so the file is left as it was. */
  method UpdateExpiryColumn(table: Watchlist, connect: Connector) returns (completed: bool)
    modifies table
    ensures completed <==> UpdatedColumn(connect, old(table.rows)).Ok?
    ensures completed ==> table.rows == UpdatedColumn(connect, old(table.rows)).value
    ensures !completed ==> table.rows == old(table.rows)
  {
    var step := ColumnStep(connect);
    var rows := table.rows;
    var column: seq<Row> := [];
    var i := 0;
    while i < |rows|
      invariant table.rows == rows
      invariant 0 <= i <= |rows|
      invariant MapRows(step, rows[..i]) == Ok(column)
    {
      var next := step(i, rows[i]);
      MapRowsExtend(step, rows, i);
      if next.Raised? {
        return false;
      }
      column := column + [next.value];
      i := i + 1;
    }
    assert rows[..i] == rows;
    table.rows := column;
    return true;
  }
}
