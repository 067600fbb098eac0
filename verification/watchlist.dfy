/** The watchlist table the web app keeps in `domains.csv`: rows of
    (`Sub Domains`, `SSL Expiry Date`, `days_until_expiry`), in file order. The
    file is a `seq<Row>` field that each route reads at its start and, when it
    saves, replaces whole. */
module Watchlist {
  import opened Outcomes
  import opened Text
  import opened Countdown
  import opened Inspector

  datatype Row = Row(subDomain: string, sslExpiryDate: string, daysUntilExpiry: int)

  /** `domain_exists`: some row's key equals `domain`, character for character. */
  function DomainExists(rows: seq<Row>, domain: string): (b: bool)
    ensures b <==> exists i :: 0 <= i < |rows| && rows[i].subDomain == domain
    decreases |rows|
  {
    if rows == [] then false
    else rows[0].subDomain == domain || DomainExists(rows[1..], domain)
  }

  /** No key appears on two rows. */
  predicate KeysUnique(rows: seq<Row>) {
    forall i, j :: 0 <= i < j < |rows| ==> rows[i].subDomain != rows[j].subDomain
  }

  /** Every stored expiry is a value `get_ssl_expiry` can produce. */
  predicate AllWellFormed(rows: seq<Row>) {
    forall i :: 0 <= i < |rows| ==> WellFormedExpiry(rows[i].sslExpiryDate)
  }

  // ---------------------------------------------------------------------------
  // Delete: df[df['Sub Domains'] != domain]

  /** The rows whose key differs from `domain`, in their original order. */
  function Remove(rows: seq<Row>, domain: string): (r: seq<Row>)
    ensures |r| <= |rows|
    ensures forall row :: row in r <==> row in rows && row.subDomain != domain
    decreases |rows|
  {
    if rows == [] then []
    else (if rows[0].subDomain == domain then [] else [rows[0]]) + Remove(rows[1..], domain)
  }

  /** Filtering a concatenation filters each part: the kept rows keep their order. */
  lemma {:induction false} RemoveAppend(a: seq<Row>, b: seq<Row>, domain: string)
    ensures Remove(a + b, domain) == Remove(a, domain) + Remove(b, domain)
    decreases |a|
  {
    if a == [] {
      assert a + b == b;
    } else {
      assert (a + b)[0] == a[0] && (a + b)[1..] == a[1..] + b;
      RemoveAppend(a[1..], b, domain);
    }
  }

  /** Deleting a key that is not in the table leaves it as it was. */
  lemma {:induction false} RemoveAbsent(rows: seq<Row>, domain: string)
    requires !DomainExists(rows, domain)
    ensures Remove(rows, domain) == rows
    decreases |rows|
  {
    if rows != [] {
      RemoveAbsent(rows[1..], domain);
      assert [rows[0]] + rows[1..] == rows;
    }
  }

  /** Deleting twice is deleting once. */
  lemma RemoveIdempotent(rows: seq<Row>, domain: string)
    ensures Remove(Remove(rows, domain), domain) == Remove(rows, domain)
  {
    RemoveAbsent(Remove(rows, domain), domain);
  }

  /** Deleting keeps keys unique. */
  lemma {:induction false} RemoveKeepsUnique(rows: seq<Row>, domain: string)
    requires KeysUnique(rows)
    ensures KeysUnique(Remove(rows, domain))
    decreases |rows|
  {
    if rows != [] {
      var tail := Remove(rows[1..], domain);
      RemoveKeepsUnique(rows[1..], domain);
      forall j | 0 <= j < |tail|
        ensures tail[j].subDomain != rows[0].subDomain
      {
        assert tail[j] in rows[1..];
      }
    }
  }

  /** Deleting the key of a row just added to a table without it restores the table. */
  lemma AddThenRemove(rows: seq<Row>, row: Row)
    requires !DomainExists(rows, row.subDomain)
    ensures Remove(rows + [row], row.subDomain) == rows
  {
    RemoveAppend(rows, [row], row.subDomain);
    RemoveAbsent(rows, row.subDomain);
    assert Remove([row], row.subDomain) == [];
  }

  /** Appending a row whose key is new keeps keys unique. */
  lemma AppendKeepsUnique(rows: seq<Row>, row: Row)
    requires KeysUnique(rows) && !DomainExists(rows, row.subDomain)
    ensures KeysUnique(rows + [row])
  {
  }

  lemma AppendKeepsWellFormed(rows: seq<Row>, row: Row)
    requires AllWellFormed(rows) && WellFormedExpiry(row.sslExpiryDate)
    ensures AllWellFormed(rows + [row])
  {
    assert forall i :: 0 <= i < |rows| ==> (rows + [row])[i] == rows[i];
  }

  // ---------------------------------------------------------------------------
  // One pass of update_ssl_expiry_dates

  /** The loop body for one row: a fresh expiry and its countdown; the key stays. */
  function RefreshRow(connect: Connector, row: Row, now: Clock): (r: Result<Row>)
    ensures r.Raised? <==> Count(Strip(row.subDomain), ':') >= 2
    ensures r.Ok? ==> r.value.subDomain == row.subDomain
    ensures r.Ok? ==> GetSslExpiry(connect, row.subDomain) == Ok(r.value.sslExpiryDate)
    ensures r.Ok? ==> WellFormedExpiry(r.value.sslExpiryDate)
    ensures r.Ok? ==> DaysUntil(r.value.sslExpiryDate, now) == Ok(r.value.daysUntilExpiry)
  {
    match GetSslExpiry(connect, row.subDomain)
    case Raised => Raised
    case Ok(expiry) =>
      GetSslExpiryWellFormed(connect, row.subDomain, now);
      match DaysUntil(expiry, now)
      case Raised => Raised
      case Ok(days) => Ok(Row(row.subDomain, expiry, days))
  }

  // ---------------------------------------------------------------------------
  // A pass over the table that stops at the first row that raises

  /** `step` applied to each row with its position: the new table, or `Raised`
      when the step raises on any row. */
  function MapRows(step: (nat, Row) -> Result<Row>, rows: seq<Row>): (r: Result<seq<Row>>)
    ensures r.Raised? <==> exists i :: 0 <= i < |rows| && step(i, rows[i]).Raised?
    ensures r.Ok? ==> |r.value| == |rows|
    ensures r.Ok? ==> forall i :: 0 <= i < |rows| ==> step(i, rows[i]) == Ok(r.value[i])
    decreases |rows|
  {
    if rows == [] then Ok([])
    else
      var last := |rows| - 1;
      assert forall i :: 0 <= i < last ==> rows[..last][i] == rows[i];
      match MapRows(step, rows[..last])
      case Raised => Raised
      case Ok(prefix) =>
        match step(last, rows[last])
        case Raised => Raised
        case Ok(row) => Ok(prefix + [row])
  }

  /** One more row of a pass that has not raised so far. */
  lemma MapRowsExtend(step: (nat, Row) -> Result<Row>, rows: seq<Row>, n: nat)
    requires n < |rows| && MapRows(step, rows[..n]).Ok?
    ensures step(n, rows[n]).Raised? ==> MapRows(step, rows).Raised?
    ensures step(n, rows[n]).Ok? ==>
      MapRows(step, rows[..n + 1]) == Ok(MapRows(step, rows[..n]).value + [step(n, rows[n]).value])
  {
    assert rows[..n + 1][..n] == rows[..n];
    assert rows[..n + 1][n] == rows[n];
  }

  /** The table after one pass of `update_ssl_expiry_dates`, the clock reading
      `now(i)` at row `i`. */
  function RefreshStep(connect: Connector, now: nat -> Clock): (nat, Row) -> Result<Row> {
    (i: nat, row: Row) => RefreshRow(connect, row, now(i))
  }

  function RefreshAll(connect: Connector, rows: seq<Row>, now: nat -> Clock): (r: Result<seq<Row>>)
    ensures r.Ok? ==> |r.value| == |rows|
    ensures r.Ok? ==> forall i :: 0 <= i < |rows| ==> RefreshRow(connect, rows[i], now(i)) == Ok(r.value[i])
  {
    var step := RefreshStep(connect, now);
    assert forall i :: 0 <= i < |rows| ==> step(i, rows[i]) == RefreshRow(connect, rows[i], now(i));
    MapRows(step, rows)
  }

  /** The pass raises exactly when some key holds more than one colon. */
  lemma RefreshRaises(connect: Connector, rows: seq<Row>, now: nat -> Clock)
    ensures RefreshAll(connect, rows, now).Raised? <==>
      exists i :: 0 <= i < |rows| && Count(Strip(rows[i].subDomain), ':') >= 2
  {
    var step := RefreshStep(connect, now);
    assert forall i :: 0 <= i < |rows| ==> step(i, rows[i]) == RefreshRow(connect, rows[i], now(i));
  }

  /** A refresh pass keeps the keys, their order and their uniqueness; each row
      stores what `get_ssl_expiry` returned for its key and that value's
      countdown at the row's clock reading, and the countdown can read every
      stored value. */
  lemma RefreshKeepsKeys(connect: Connector, rows: seq<Row>, now: nat -> Clock)
    requires RefreshAll(connect, rows, now).Ok?
    ensures var table := RefreshAll(connect, rows, now).value;
      && (forall i :: 0 <= i < |rows| ==> table[i].subDomain == rows[i].subDomain)
      && (forall i :: 0 <= i < |rows| ==> GetSslExpiry(connect, rows[i].subDomain) == Ok(table[i].sslExpiryDate))
      && (forall i :: 0 <= i < |rows| ==> DaysUntil(table[i].sslExpiryDate, now(i)) == Ok(table[i].daysUntilExpiry))
      && AllWellFormed(table)
      && (KeysUnique(rows) ==> KeysUnique(table))
  {
    var table := RefreshAll(connect, rows, now).value;
    forall i | 0 <= i < |rows|
      ensures table[i].subDomain == rows[i].subDomain && WellFormedExpiry(table[i].sslExpiryDate)
      ensures GetSslExpiry(connect, rows[i].subDomain) == Ok(table[i].sslExpiryDate)
      ensures DaysUntil(table[i].sslExpiryDate, now(i)) == Ok(table[i].daysUntilExpiry)
    {
      assert RefreshRow(connect, rows[i], now(i)) == Ok(table[i]);
    }
  }

  // ---------------------------------------------------------------------------
  // The countdowns add_domain_get shows

  /** One row of `add_domain_get`: the countdown recomputed from the stored
      expiry; `Raised` when the expiry is neither an error text nor a date. */
  function RecountRow(row: Row, now: Clock): (r: Result<Row>)
    ensures r.Raised? <==> DaysUntil(row.sslExpiryDate, now).Raised?
    ensures r.Ok? ==> r.value == row.(daysUntilExpiry := DaysUntil(row.sslExpiryDate, now).value)
  {
    match DaysUntil(row.sslExpiryDate, now)
    case Raised => Raised
    case Ok(days) => Ok(row.(daysUntilExpiry := days))
  }

  function RecountStep(now: nat -> Clock): (nat, Row) -> Result<Row> {
    (i: nat, row: Row) => RecountRow(row, now(i))
  }

  /** Every row with its countdown recomputed, the clock reading `now(i)` at row `i`. */
  function Recount(rows: seq<Row>, now: nat -> Clock): (r: Result<seq<Row>>)
    ensures r.Raised? <==> exists i :: 0 <= i < |rows| && DaysUntil(rows[i].sslExpiryDate, now(i)).Raised?
    ensures r.Ok? ==> |r.value| == |rows|
    ensures r.Ok? ==> forall i :: 0 <= i < |rows| ==>
      r.value[i] == rows[i].(daysUntilExpiry := DaysUntil(rows[i].sslExpiryDate, now(i)).value)
  {
    var step := RecountStep(now);
    assert forall i :: 0 <= i < |rows| ==> step(i, rows[i]) == RecountRow(rows[i], now(i));
    MapRows(step, rows)
  }

  /** A table of well-formed expiries always displays. */
  lemma RecountWellFormed(rows: seq<Row>, now: nat -> Clock)
    requires AllWellFormed(rows)
    ensures Recount(rows, now).Ok?
  {
    forall i | 0 <= i < |rows|
      ensures RecountStep(now)(i, rows[i]).Ok?
    {
      WellFormedNeverRaises(rows[i].sslExpiryDate, now(i));
    }
  }

  /** Displayed with the clock readings of the refresh pass, a refreshed table
      shows exactly the countdowns the pass stored. */
  lemma RecountAfterRefresh(connect: Connector, rows: seq<Row>, now: nat -> Clock)
    requires RefreshAll(connect, rows, now).Ok?
    ensures Recount(RefreshAll(connect, rows, now).value, now) == RefreshAll(connect, rows, now)
  {
    var table := RefreshAll(connect, rows, now).value;
    forall i | 0 <= i < |table|
      ensures DaysUntil(table[i].sslExpiryDate, now(i)) == Ok(table[i].daysUntilExpiry)
    {
      assert RefreshRow(connect, rows[i], now(i)) == Ok(table[i]);
    }
    assert Recount(table, now).Ok?;
    var shown := Recount(table, now).value;
    forall i | 0 <= i < |table|
      ensures shown[i] == table[i]
    {
      assert table[i].(daysUntilExpiry := table[i].daysUntilExpiry) == table[i];
    }
    assert shown == table;
  }

  // ---------------------------------------------------------------------------
  // The routes

  /** The page `add_domain_post` answers with. */
  datatype AddOutcome =
    | MissingDomain
    | NoARecord
    | AlreadyPresent
    | AddFailed
    | Added(row: Row)

  class Watchlist {
    /** The contents of `domains.csv`. */
    var rows: seq<Row>

    constructor (stored: seq<Row>)
      ensures rows == stored
    {
      rows := stored;
    }

    /** `add_domain_post(domain)` with the clock reading `now`: an empty form
        value, a key the DNS gate rejects, a key already present or a key whose
        inspection raises leave the table as it was; otherwise one row for the
        stripped key is appended. */
    method Add(resolve: Resolver, connect: Connector, now: Clock, domain: string) returns (outcome: AddOutcome)
      modifies this
      ensures outcome == MissingDomain <==> domain == []
      ensures outcome == NoARecord <==> domain != [] && !CheckARecord(resolve, Strip(domain))
      ensures outcome == AlreadyPresent <==>
        domain != [] && CheckARecord(resolve, Strip(domain)) && DomainExists(old(rows), Strip(domain))
      ensures outcome == AddFailed <==>
        && domain != [] && CheckARecord(resolve, Strip(domain)) && !DomainExists(old(rows), Strip(domain))
        && GetSslExpiry(connect, Strip(domain)).Raised?
      ensures !outcome.Added? ==> rows == old(rows)
      ensures outcome.Added? ==>
        && rows == old(rows) + [outcome.row]
        && outcome.row.subDomain == Strip(domain)
        && GetSslExpiry(connect, Strip(domain)) == Ok(outcome.row.sslExpiryDate)
        && DaysUntil(outcome.row.sslExpiryDate, now) == Ok(outcome.row.daysUntilExpiry)
      ensures KeysUnique(old(rows)) ==> KeysUnique(rows)
      ensures AllWellFormed(old(rows)) ==> AllWellFormed(rows)
    {
      if domain == [] {
        return MissingDomain;
      }
      var subdomain := Strip(domain);
      if !CheckARecord(resolve, subdomain) {
        return NoARecord;
      }
      if DomainExists(rows, subdomain) {
        return AlreadyPresent;
      }
      var expiry := GetSslExpiry(connect, subdomain);
      if expiry.Raised? {
        return AddFailed;
      }
      GetSslExpiryWellFormed(connect, subdomain, now);
      var days := DaysUntil(expiry.value, now);
      var row := Row(subdomain, expiry.value, days.value);
      if KeysUnique(rows) {
        AppendKeepsUnique(rows, row);
      }
      if AllWellFormed(rows) {
        AppendKeepsWellFormed(rows, row);
      }
      rows := rows + [row];
      outcome := Added(row);
    }

    /** `delete_domain(domain)`: every row whose key equals the form value as
        given (not stripped) goes; the rest keep their order. */
    method Delete(domain: string)
      modifies this
      ensures rows == Remove(old(rows), domain)
      ensures !DomainExists(rows, domain)
      ensures KeysUnique(old(rows)) ==> KeysUnique(rows)
      ensures AllWellFormed(old(rows)) ==> AllWellFormed(rows)
    {
      if KeysUnique(rows) {
        RemoveKeepsUnique(rows, domain);
      }
      rows := Remove(rows, domain);
    }

    /** One pass of `update_ssl_expiry_dates`, the clock reading `now(i)` at row
        `i`: each row's expiry and countdown are overwritten in a copy of the
        table, which is saved only if no row raised. */
    method Refresh(connect: Connector, now: nat -> Clock) returns (completed: bool)
      modifies this
      ensures completed <==> RefreshAll(connect, old(rows), now).Ok?
      ensures completed ==> rows == RefreshAll(connect, old(rows), now).value
      ensures !completed ==> rows == old(rows)
    {
      var step := RefreshStep(connect, now);
      var table := rows;
      var i := 0;
      while i < |rows|
        invariant rows == old(rows)
        invariant 0 <= i <= |rows| == |table|
        invariant MapRows(step, rows[..i]) == Ok(table[..i])
        invariant table[i..] == rows[i..]
      {
        var next := step(i, rows[i]);
        MapRowsExtend(step, rows, i);
        if next.Raised? {
          return false;
        }
        table := table[i := next.value];
        assert table[..i + 1] == table[..i] + [next.value];
        i := i + 1;
      }
      assert rows[..i] == rows && table[..i] == table;
      rows := table;
      return true;
    }

    /** `add_domain_get`: the table with every countdown recomputed, or an empty
        list with an error message when a stored expiry makes `strptime` raise. */
    method Display(now: nat -> Clock) returns (view: seq<Row>, loaded: bool)
      ensures loaded <==> Recount(rows, now).Ok?
      ensures view == if loaded then Recount(rows, now).value else []
    {
      var step := RecountStep(now);
      var shown: seq<Row> := [];
      var i := 0;
      while i < |rows|
        invariant 0 <= i <= |rows|
        invariant MapRows(step, rows[..i]) == Ok(shown)
      {
        var next := step(i, rows[i]);
        MapRowsExtend(step, rows, i);
        if next.Raised? {
          return [], false;
        }
        shown := shown + [next.value];
        i := i + 1;
      }
      assert rows[..i] == rows;
      return shown, true;
    }
  }
}
