/** The web app's certificate inspection: how a watched key `host` or
    `host:port` is read (`get_ssl_expiry`), the DNS gate that looks only at the
    host part (`check_a_record`), and the value `get_ssl_expiry` stores. The
    network is reached through two oracles passed in as parameters. */
module Inspector {
  import opened Outcomes
  import opened Text
  import opened Calendar
  import opened NotAfter
  import opened Countdown

  /** The port `get_ssl_expiry` connects to when the key names none. */
  const HttpsPort: int := 443

  /** The one text `get_ssl_expiry` returns for every failure inside its `try`. */
  const ErrorSentinel: string := "Error: Could not retrieve SSL expiry"

  /** What the TLS side offers for a connection: the certificate's `notAfter`
      text, or the exception that connecting, the handshake or `getpeercert`
      raised. */
  datatype Handshake = Cert(notAfter: string) | Failed(reason: string)

  /** `socket.create_connection((host, port))` followed by the TLS handshake. */
  type Connector = (string, int) -> Handshake

  /** `dns.resolver.resolve(host, 'A')`: true when it answers, false when it raises. */
  type Resolver = string -> bool

  /** The port half of a key: absent (the integer 443) or the text after the colon. */
  datatype Port = NoPort | PortText(text: string)

  datatype Endpoint = Endpoint(host: string, port: Port)

  /** Lines 52-53 of `get_ssl_expiry`: strip the key, then split it on `:` only
      when it holds a colon. The tuple unpack raises ValueError, outside the
      `try`, for any number of pieces other than two. */
  function ParseKey(key: string): (r: Result<Endpoint>)
    ensures r.Raised? <==> Count(Strip(key), ':') >= 2
    ensures r.Ok? && ':' !in Strip(key) ==> r.value == Endpoint(Strip(key), NoPort)
    ensures r.Ok? && ':' in Strip(key) ==>
      && r.value.port.PortText?
      && ':' !in r.value.host && ':' !in r.value.port.text
      && r.value.host + ":" + r.value.port.text == Strip(key)
  {
    var s := Strip(key);
    if ':' !in s then
      CountZero(s, ':');
      Ok(Endpoint(s, NoPort))
    else
      var parts := Split(s, ':');
      if |parts| != 2 then Raised
      else
        JoinSplit(s, ':');
        assert Join(parts, ':') == parts[0] + [':'] + Join(parts[1..], ':');
        assert Join(parts[1..], ':') == parts[1];
        Ok(Endpoint(parts[0], PortText(parts[1])))
  }

  /** `int(port)` on line 57: the default is already an integer, and a port
      written as a run of digits is its decimal value. */
  function PortNumber(p: Port): (r: Option<int>)
    ensures p.NoPort? ==> r == Some(HttpsPort)
    ensures p.PortText? && p.text != [] && AllDigits(p.text) && |p.text| <= MaxStrDigits ==>
      r == Some(DecimalValue(p.text))
  {
    match p
    case NoPort => Some(HttpsPort)
    case PortText(t) =>
      PyIntOfDigitRun(t);
      PyInt(t)
  }

  /** `check_a_record`: the DNS gate asks the resolver about the text before the
      first colon (`split(':')[0]`). */
  function CheckARecord(resolve: Resolver, key: string): (ok: bool)
    ensures ok == resolve(if ':' in key then key[..IndexOf(key, ':')] else key)
  {
    if ':' in key then
      BeforeFirstIsPrefix(key, IndexOf(key, ':'));
      resolve(BeforeFirst(key, ':'))
    else
      resolve(BeforeFirst(key, ':'))
  }

  lemma BeforeFirstIsPrefix(key: string, i: nat)
    requires ':' in key && i == IndexOf(key, ':')
    ensures BeforeFirst(key, ':') == key[..i]
  {
    var r := BeforeFirst(key, ':');
    assert |r| == i;
    assert r == key[..|r|];
  }

  /** `get_ssl_expiry(key)`: raises for a key with more than one colon;
      otherwise returns the error text when the port is not an integer, the
      connection or handshake fails, or `strptime` rejects the certificate's
      `notAfter`, and the date `strptime` read, as `YYYY-MM-DD`, when it
      accepts it. */
  function GetSslExpiry(connect: Connector, key: string): (r: Result<string>)
    ensures r.Raised? <==> Count(Strip(key), ':') >= 2
    ensures r.Ok? ==> r.value == ErrorSentinel || IsIsoDate(r.value)
    ensures ParseKey(key).Ok? && PortNumber(ParseKey(key).value.port).None? ==> r == Ok(ErrorSentinel)
    ensures ParseKey(key).Ok? && PortNumber(ParseKey(key).value.port).Some? ==>
      var h := connect(ParseKey(key).value.host, PortNumber(ParseKey(key).value.port).value);
      && (h.Failed? ==> r == Ok(ErrorSentinel))
      && (h.Cert? && ParseNotAfter(h.notAfter).None? ==> r == Ok(ErrorSentinel))
      && (h.Cert? && ParseNotAfter(h.notAfter).Some? ==> r == Ok(FormatIso(ParseNotAfter(h.notAfter).value)))
  {
    match ParseKey(key)
    case Raised => Raised
    case Ok(e) =>
      match PortNumber(e.port)
      case None => Ok(ErrorSentinel)
      case Some(port) =>
        match connect(e.host, port)
        case Failed(_) => Ok(ErrorSentinel)
        case Cert(text) =>
          match ParseNotAfter(text)
          case None => Ok(ErrorSentinel)
          case Some(d) =>
            FormatIsIsoDate(d);
            Ok(FormatIso(d))
  }

  lemma SentinelIsError()
    ensures StartsWith(ErrorSentinel, ErrorPrefix)
  {
    assert ErrorSentinel[..5] == "Error";
  }

  /** Every value `get_ssl_expiry` returns is one the countdown reads without
      raising. */
  lemma GetSslExpiryWellFormed(connect: Connector, key: string, now: Clock)
    requires GetSslExpiry(connect, key).Ok?
    ensures WellFormedExpiry(GetSslExpiry(connect, key).value)
    ensures DaysUntil(GetSslExpiry(connect, key).value, now).Ok?
  {
    SentinelIsError();
    WellFormedNeverRaises(GetSslExpiry(connect, key).value, now);
  }

  /** A certificate whose `notAfter` OpenSSL printed from date `d` is stored as
      the text of `d`, which `strptime("%Y-%m-%d")` reads back as `d`. */
  lemma GetSslExpiryOfCert(connect: Connector, key: string, d: Date, hour: nat, minute: nat, second: nat)
    requires ValidDate(d) && hour < 24 && minute < 60 && second < 60
    requires ParseKey(key).Ok? && PortNumber(ParseKey(key).value.port).Some?
    requires connect(ParseKey(key).value.host, PortNumber(ParseKey(key).value.port).value)
      == Cert(RenderNotAfter(d, hour, minute, second))
    ensures GetSslExpiry(connect, key) == Ok(FormatIso(d))
    ensures ParseIso(GetSslExpiry(connect, key).value) == Some(d)
  {
    ParseRenderNotAfter(d, hour, minute, second);
    ParseFormatIso(d);
  }

  /** A stripped `host:port` key is read back as that host and port text. */
  lemma ParseKeyOfEndpoint(host: string, port: string)
    requires ':' !in host && ':' !in port
    requires IsStripped(host + ":" + port)
    ensures ParseKey(host + ":" + port) == Ok(Endpoint(host, PortText(port)))
  {
    var key := host + ":" + port;
    CountZero(host, ':');
    CountZero(port, ':');
    CountAppend(host, ":", ':');
    CountAppend(host + ":", port, ':');
    SplitAtOnly(key, ':');
    var i := IndexOf(key, ':');
    assert key[|host|] == ':';
    assert i == |host|;
    assert key[..i] == host && key[i + 1..] == port;
  }

  /** A port that `int()` rejects gives the error text, whatever the network does. */
  lemma BadPortIsError(connect: Connector, host: string, port: string)
    requires ':' !in host && ':' !in port
    requires IsStripped(host + ":" + port)
    requires PyInt(port) == None
    ensures GetSslExpiry(connect, host + ":" + port) == Ok(ErrorSentinel)
  {
    ParseKeyOfEndpoint(host, port);
  }

  /** Stripping the key first changes nothing: `get_ssl_expiry` strips it itself. */
  lemma GetSslExpiryStripped(connect: Connector, key: string)
    ensures GetSslExpiry(connect, Strip(key)) == GetSslExpiry(connect, key)
  {
    StripIdempotent(key);
    assert ParseKey(Strip(key)) == ParseKey(key);
  }

  /** The text before the first colon of `host:rest` is `host`. */
  lemma BeforeFirstOfKey(host: string, rest: string)
    requires ':' !in host
    ensures BeforeFirst(host + ":" + rest, ':') == host
  {
    var key := host + ":" + rest;
    assert key[..|host|] == host && key[|host|] == ':';
    BeforeFirstIsPrefix(key, IndexOf(key, ':'));
  }

  /** The DNS gate asks about the host of a `host:rest` key. */
  lemma GateOfKey(resolve: Resolver, host: string, rest: string)
    requires ':' !in host
    ensures CheckARecord(resolve, host + ":" + rest) == resolve(host)
  {
    BeforeFirstOfKey(host, rest);
  }

  /** For a key `get_ssl_expiry` accepts, the DNS gate asks about the same host the
      connection goes to. */
  lemma GateSeesEndpointHost(resolve: Resolver, key: string)
    requires IsStripped(key)
    requires ParseKey(key).Ok?
    ensures CheckARecord(resolve, key) == resolve(ParseKey(key).value.host)
  {
    var e := ParseKey(key).value;
    assert Strip(key) == key;
    if ':' in key {
      GateOfKey(resolve, e.host, e.port.text);
    }
  }
}
