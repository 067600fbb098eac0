/** The few Python `str` operations the watchlist relies on: `isspace`, `strip`,
    `startswith`, `split` on one separator, `lower` on ASCII letters, the
    whitespace-run tokenising that `re`'s `\s+` performs, and `int()` of a string. */
module Text {
  import opened Outcomes

  /** Python's `str.isspace()` for one character. `str.strip()` and the `\s`
      class of `re` on a str use this set; `int()` skips a smaller one
      (`IsIntSpace`). */
  predicate IsSpace(c: char) {
    ('\t' <= c <= '\r') || ('\U{1C}' <= c <= ' ') || c == '\U{85}' || c == '\U{A0}'
    || c == '\U{1680}' || ('\U{2000}' <= c <= '\U{200A}') || c == '\U{2028}'
    || c == '\U{2029}' || c == '\U{202F}' || c == '\U{205F}' || c == '\U{3000}'
  }

  predicate IsDigit(c: char) {
    '0' <= c <= '9'
  }

  predicate AllDigits(s: string) {
    forall i :: 0 <= i < |s| ==> IsDigit(s[i])
  }

  function DigitValue(c: char): (v: nat)
    requires IsDigit(c)
    ensures v < 10
  {
    c as int - '0' as int
  }

  function DigitChar(n: nat): (c: char)
    requires n < 10
    ensures IsDigit(c) && DigitValue(c) == n
  {
    (n + '0' as int) as char
  }

  /** The value of a string of decimal digits, most significant digit first. */
  function DecimalValue(s: string): nat
    requires AllDigits(s)
    decreases |s|
  {
    if s == [] then 0 else DecimalValue(s[..|s| - 1]) * 10 + DigitValue(s[|s| - 1])
  }

  lemma DecimalValueAppend(s: string, c: char)
    requires AllDigits(s) && IsDigit(c)
    ensures AllDigits(s + [c])
    ensures DecimalValue(s + [c]) == DecimalValue(s) * 10 + DigitValue(c)
  {
    assert (s + [c])[..|s|] == s;
  }

  /** Python's `s.startswith(prefix)`: `s` is `prefix` followed by some text. */
  function StartsWith(s: string, prefix: string): (b: bool)
    ensures b <==> exists rest :: s == prefix + rest
  {
    var b := |prefix| <= |s| && s[..|prefix|] == prefix;
    assert b ==> s == prefix + s[|prefix|..];
    b
  }

  // ---------------------------------------------------------------------------
  // strip

  function TrimLeft(s: string): (r: string)
    ensures |r| <= |s| && r == s[|s| - |r|..]
    ensures forall i :: 0 <= i < |s| - |r| ==> IsSpace(s[i])
    ensures r == [] || !IsSpace(r[0])
    decreases |s|
  {
    if s != [] && IsSpace(s[0]) then TrimLeft(s[1..]) else s
  }

  function TrimRight(s: string): (r: string)
    ensures |r| <= |s| && r == s[..|r|]
    ensures forall i :: |r| <= i < |s| ==> IsSpace(s[i])
    ensures r == [] || !IsSpace(r[|r| - 1])
    decreases |s|
  {
    if s != [] && IsSpace(s[|s| - 1]) then TrimRight(s[..|s| - 1]) else s
  }

  /** A string with no whitespace at either end: what `strip()` produces. */
  predicate IsStripped(s: string) {
    s == [] || (!IsSpace(s[0]) && !IsSpace(s[|s| - 1]))
  }

  /** Python's `s.strip()`: `s` less its leading and trailing whitespace. */
  function Strip(s: string): (r: string)
    ensures IsStripped(r)
    ensures |r| <= |s|
    ensures IsStripped(s) ==> r == s
  {
    TrimRight(TrimLeft(s))
  }

  /** What `strip()` removes is whitespace only, from the two ends: the result is
      the slice of `s` that starts at `k`, and everything around it is space. */
  lemma StripIsSlice(s: string) returns (k: nat)
    ensures k + |Strip(s)| <= |s| && Strip(s) == s[k..k + |Strip(s)|]
    ensures forall i :: 0 <= i < k ==> IsSpace(s[i])
    ensures forall i :: k + |Strip(s)| <= i < |s| ==> IsSpace(s[i])
  {
    var t := TrimLeft(s);
    k := |s| - |t|;
    TrimRightWithin(s, k);
  }

  /** Trimming the right end of a suffix of `s` leaves a slice of `s` with only
      whitespace after it. */
  lemma TrimRightWithin(s: string, k: nat)
    requires k <= |s|
    ensures var r := TrimRight(s[k..]);
      && r == s[k..k + |r|]
      && forall i :: k + |r| <= i < |s| ==> IsSpace(s[i])
  {
    var t := s[k..];
    var r := TrimRight(t);
    forall i | k + |r| <= i < |s|
      ensures IsSpace(s[i])
    {
      assert s[i] == t[i - k];
    }
  }

  lemma StripIdempotent(s: string)
    ensures Strip(Strip(s)) == Strip(s)
  {
  }

  // ---------------------------------------------------------------------------
  // Counting and splitting on one separator character

  function Count(s: string, c: char): nat
    decreases |s|
  {
    if s == [] then 0 else (if s[0] == c then 1 else 0) + Count(s[1..], c)
  }

  lemma {:induction false} CountAppend(a: string, b: string, c: char)
    ensures Count(a + b, c) == Count(a, c) + Count(b, c)
    decreases |a|
  {
    if a == [] {
      assert a + b == b;
    } else {
      assert (a + b)[1..] == a[1..] + b;
      CountAppend(a[1..], b, c);
    }
  }

  lemma {:induction false} CountZero(s: string, c: char)
    ensures Count(s, c) == 0 <==> c !in s
    decreases |s|
  {
    if s != [] {
      CountZero(s[1..], c);
      assert s == [s[0]] + s[1..];
    }
  }

  /** Position of the first occurrence of `c`. */
  function IndexOf(s: string, c: char): (i: nat)
    requires c in s
    ensures i < |s| && s[i] == c && c !in s[..i]
    decreases |s|
  {
    if s[0] == c then 0 else 1 + IndexOf(s[1..], c)
  }

  /** Python's `s.split(sep)` for a one-character separator. */
  function Split(s: string, sep: char): (parts: seq<string>)
    ensures |parts| == Count(s, sep) + 1
    ensures forall k :: 0 <= k < |parts| ==> sep !in parts[k]
    decreases |s|
  {
    if sep !in s then
      CountZero(s, sep);
      [s]
    else
      var i := IndexOf(s, sep);
      assert s == s[..i] + [sep] + s[i + 1..];
      CountAppend(s[..i] + [sep], s[i + 1..], sep);
      CountAppend(s[..i], [sep], sep);
      CountZero(s[..i], sep);
      [s[..i]] + Split(s[i + 1..], sep)
  }

  /** Python's `sep.join(parts)`. */
  function Join(parts: seq<string>, sep: char): string
    requires |parts| > 0
    decreases |parts|
  {
    if |parts| == 1 then parts[0] else parts[0] + [sep] + Join(parts[1..], sep)
  }

  /** Joining the pieces of a split with the same separator gives the string back. */
  lemma {:induction false} JoinSplit(s: string, sep: char)
    ensures Join(Split(s, sep), sep) == s
    decreases |s|
  {
    if sep in s {
      var i := IndexOf(s, sep);
      JoinSplit(s[i + 1..], sep);
      assert s == s[..i] + [sep] + s[i + 1..];
    }
  }

  /** Splitting a join of separator-free pieces gives the pieces back. */
  lemma {:induction false} SplitJoin(parts: seq<string>, sep: char)
    requires |parts| > 0
    requires forall k :: 0 <= k < |parts| ==> sep !in parts[k]
    ensures Split(Join(parts, sep), sep) == parts
    decreases |parts|
  {
    if |parts| > 1 {
      var s := Join(parts, sep);
      var p := parts[0];
      assert s == p + [sep] + Join(parts[1..], sep);
      assert s[|p|] == sep && s[..|p|] == p;
      assert IndexOf(s, sep) == |p|;
      assert s[|p| + 1..] == Join(parts[1..], sep);
      SplitJoin(parts[1..], sep);
    }
  }

  /** A string with exactly one separator splits into the text before it and
      the text after it. */
  lemma SplitAtOnly(s: string, sep: char)
    requires Count(s, sep) == 1
    ensures sep in s
    ensures Split(s, sep) == [s[..IndexOf(s, sep)], s[IndexOf(s, sep) + 1..]]
  {
    CountZero(s, sep);
    var i := IndexOf(s, sep);
    assert s == s[..i] + [sep] + s[i + 1..];
    CountAppend(s[..i] + [sep], s[i + 1..], sep);
    CountAppend(s[..i], [sep], sep);
    CountZero(s[i + 1..], sep);
  }

  /** `s.split(sep)[0]`: the text before the first separator, or all of `s`. */
  function BeforeFirst(s: string, sep: char): (r: string)
    ensures sep !in r
    ensures StartsWith(s, r)
    ensures sep !in s ==> r == s
    ensures sep in s ==> |r| < |s| && s[|r|] == sep
  {
    Split(s, sep)[0]
  }

  // ---------------------------------------------------------------------------
  // ASCII case folding, as `re.IGNORECASE` applies it to ASCII letters

  function LowerChar(c: char): char {
    if 'A' <= c <= 'Z' then (c as int + 32) as char else c
  }

  function Lower(s: string): (r: string)
    ensures |r| == |s|
    ensures forall i :: 0 <= i < |s| ==> r[i] == LowerChar(s[i])
  {
    seq(|s|, i requires 0 <= i < |s| => LowerChar(s[i]))
  }

  // ---------------------------------------------------------------------------
  // Whitespace-separated fields: the tokens between runs of `\s+`

  /** Length of the leading run of non-space characters. */
  function TokenLength(s: string): (n: nat)
    ensures n <= |s|
    ensures forall i :: 0 <= i < n ==> !IsSpace(s[i])
    ensures n == |s| || IsSpace(s[n])
    decreases |s|
  {
    if s == [] || IsSpace(s[0]) then 0 else 1 + TokenLength(s[1..])
  }

  /** The leading field of `s` (a run of non-space characters) and what is left
      once the run of whitespace after it is skipped. */
  function NextField(s: string): (string, string) {
    var n := TokenLength(s);
    (s[..n], TrimLeft(s[n..]))
  }

  predicate NoSpace(s: string) {
    forall i :: 0 <= i < |s| ==> !IsSpace(s[i])
  }

  predicate AllSpace(s: string) {
    forall i :: 0 <= i < |s| ==> IsSpace(s[i])
  }

  lemma {:induction false} TrimLeftSpaces(w: string, r: string)
    requires AllSpace(w)
    requires r == [] || !IsSpace(r[0])
    ensures TrimLeft(w + r) == r
    decreases |w|
  {
    if w != [] {
      assert (w + r)[1..] == w[1..] + r;
      TrimLeftSpaces(w[1..], r);
    } else {
      assert w + r == r;
    }
  }

  lemma {:induction false} TokenLengthOf(t: string, rest: string)
    requires NoSpace(t)
    requires rest == [] || IsSpace(rest[0])
    ensures TokenLength(t + rest) == |t|
    decreases |t|
  {
    if t != [] {
      assert (t + rest)[1..] == t[1..] + rest;
      TokenLengthOf(t[1..], rest);
    } else {
      assert t + rest == rest;
    }
  }

  /** A token, a run of spaces and a rest that starts with a token: the token is
      the leading field and the rest is what follows it. */
  lemma NextFieldCons(t: string, w: string, r: string)
    requires t != [] && NoSpace(t)
    requires w != [] && AllSpace(w)
    requires r == [] || !IsSpace(r[0])
    ensures NextField(t + (w + r)) == (t, r)
  {
    var s := t + (w + r);
    TokenLengthOf(t, w + r);
    assert s[..|t|] == t && s[|t|..] == w + r;
    TrimLeftSpaces(w, r);
  }

  /** A lone token is the last field. */
  lemma NextFieldLast(t: string)
    requires t != [] && NoSpace(t)
    ensures NextField(t) == (t, [])
  {
    TokenLengthOf(t, []);
    assert t + [] == t;
    assert t[|t|..] == [];
  }

  // ---------------------------------------------------------------------------
  // int() of a string

  /** Decimal digits with single underscores between digits (PEP 515), which is
      what `int()` accepts after the sign. */
  predicate IsDigitGroups(t: string) {
    && |t| > 0 && IsDigit(t[0]) && IsDigit(t[|t| - 1])
    && (forall i :: 0 <= i < |t| ==> IsDigit(t[i]) || t[i] == '_')
    && (forall i :: 0 <= i < |t| - 1 ==> t[i] == '_' ==> t[i + 1] != '_')
  }

  function DropUnderscores(t: string): (r: string)
    requires forall i :: 0 <= i < |t| ==> IsDigit(t[i]) || t[i] == '_'
    ensures AllDigits(r)
    ensures AllDigits(t) ==> r == t
    decreases |t|
  {
    if t == [] then []
    else if t[0] == '_' then DropUnderscores(t[1..])
    else [t[0]] + DropUnderscores(t[1..])
  }

  /** The whitespace `int()` skips around its digits. CPython passes every ASCII
      character through unchanged and then skips only space, `\t`, `\n`, `\v`,
      `\f` and `\r`, so the separators U+001C to U+001F, which `isspace()`
      accepts, are rejected; every other `isspace()` character is skipped. */
  predicate IsIntSpace(c: char) {
    ('\t' <= c <= '\r') || c == ' ' || c == '\U{85}' || c == '\U{A0}'
    || c == '\U{1680}' || ('\U{2000}' <= c <= '\U{200A}') || c == '\U{2028}'
    || c == '\U{2029}' || c == '\U{202F}' || c == '\U{205F}' || c == '\U{3000}'
  }

  /** The `int()` whitespace is the `isspace()` set less the four separators. */
  lemma IntSpaceIsSpace(c: char)
    ensures IsIntSpace(c) <==> IsSpace(c) && !('\U{1C}' <= c <= '\U{1F}')
  {
  }

  predicate AllIntSpace(s: string) {
    forall i :: 0 <= i < |s| ==> IsIntSpace(s[i])
  }

  function IntTrimLeft(s: string): (r: string)
    ensures |r| <= |s| && r == s[|s| - |r|..]
    ensures forall i :: 0 <= i < |s| - |r| ==> IsIntSpace(s[i])
    ensures r == [] || !IsIntSpace(r[0])
    decreases |s|
  {
    if s != [] && IsIntSpace(s[0]) then IntTrimLeft(s[1..]) else s
  }

  function IntTrimRight(s: string): (r: string)
    ensures |r| <= |s| && r == s[..|r|]
    ensures forall i :: |r| <= i < |s| ==> IsIntSpace(s[i])
    ensures r == [] || !IsIntSpace(r[|r| - 1])
    decreases |s|
  {
    if s != [] && IsIntSpace(s[|s| - 1]) then IntTrimRight(s[..|s| - 1]) else s
  }

  /** The text `int()` reads: `s` less the whitespace it skips at either end. */
  function IntStrip(s: string): (r: string)
    ensures |r| <= |s|
    ensures r == [] || (!IsIntSpace(r[0]) && !IsIntSpace(r[|r| - 1]))
  {
    IntTrimRight(IntTrimLeft(s))
  }

  /** What `int()` skips is its whitespace only, at the two ends. */
  lemma IntStripIsSlice(s: string) returns (k: nat)
    ensures k + |IntStrip(s)| <= |s| && IntStrip(s) == s[k..k + |IntStrip(s)|]
    ensures forall i :: 0 <= i < k ==> IsIntSpace(s[i])
    ensures forall i :: k + |IntStrip(s)| <= i < |s| ==> IsIntSpace(s[i])
  {
    var t := IntTrimLeft(s);
    k := |s| - |t|;
    IntTrimRightWithin(s, k);
  }

  /** Trimming the right end of a suffix of `s` leaves a slice of `s` with only
      whitespace after it. */
  lemma IntTrimRightWithin(s: string, k: nat)
    requires k <= |s|
    ensures var r := IntTrimRight(s[k..]);
      && r == s[k..k + |r|]
      && forall i :: k + |r| <= i < |s| ==> IsIntSpace(s[i])
  {
    var t := s[k..];
    var r := IntTrimRight(t);
    forall i | k + |r| <= i < |s|
      ensures IsIntSpace(s[i])
    {
      assert s[i] == t[i - k];
    }
  }

  lemma {:induction false} IntTrimLeftSpaces(w: string, r: string)
    requires AllIntSpace(w)
    requires r == [] || !IsIntSpace(r[0])
    ensures IntTrimLeft(w + r) == r
    decreases |w|
  {
    if w != [] {
      assert (w + r)[1..] == w[1..] + r;
      IntTrimLeftSpaces(w[1..], r);
    } else {
      assert w + r == r;
    }
  }

  lemma {:induction false} IntTrimRightSpaces(r: string, w: string)
    requires AllIntSpace(w)
    requires r == [] || !IsIntSpace(r[|r| - 1])
    ensures IntTrimRight(r + w) == r
    decreases |w|
  {
    if w != [] {
      assert (r + w)[..|r + w| - 1] == r + w[..|w| - 1];
      IntTrimRightSpaces(r, w[..|w| - 1]);
    } else {
      assert r + w == r;
    }
  }

  /** The most digits `int()` converts in base 10 (the default limit of CPython
      3.11 and later); longer input raises ValueError. */
  const MaxStrDigits: nat := 4300

  /** Python's `int(s)` for a str in base 10: `None` when it raises ValueError.
      What it accepts is, between the whitespace it skips, an optional sign and
      then digits, possibly with underscores between them, ending in a digit; a
      negative value needs the minus sign. */
  function PyInt(s: string): (r: Option<int>)
    ensures r.Some? ==> IntStrip(s) != [] && IsDigit(IntStrip(s)[|IntStrip(s)| - 1])
    ensures r.Some? ==> forall i :: 0 <= i < |IntStrip(s)| ==>
      IsDigit(IntStrip(s)[i]) || IntStrip(s)[i] == '_' || (i == 0 && (IntStrip(s)[i] == '+' || IntStrip(s)[i] == '-'))
    ensures r.Some? && r.value < 0 ==> IntStrip(s)[0] == '-'
  {
    var t := IntStrip(s);
    if |t| > 0 && (t[0] == '+' || t[0] == '-') then
      if IsDigitGroups(t[1..]) && |DropUnderscores(t[1..])| <= MaxStrDigits then
        assert forall i :: 1 <= i < |t| ==> t[i] == t[1..][i - 1];
        var magnitude: int := DecimalValue(DropUnderscores(t[1..]));
        Some(if t[0] == '-' then -magnitude else magnitude)
      else None
    else if IsDigitGroups(t) && |DropUnderscores(t)| <= MaxStrDigits then
      Some(DecimalValue(DropUnderscores(t)))
    else None
  }

  /** The text between two runs of `int()` whitespace is what `int()` reads. */
  lemma IntStripAround(lead: string, t: string, trail: string)
    requires AllIntSpace(lead) && AllIntSpace(trail)
    requires t != [] && !IsIntSpace(t[0]) && !IsIntSpace(t[|t| - 1])
    ensures IntStrip(lead + t + trail) == t
  {
    assert lead + t + trail == lead + (t + trail);
    IntTrimLeftSpaces(lead, t + trail);
    IntTrimRightSpaces(t, trail);
  }

  lemma DigitIsNotIntSpace(c: char)
    requires IsDigit(c)
    ensures !IsIntSpace(c) && c != '+' && c != '-'
  {
  }

  lemma DigitsAreGroups(digits: string)
    requires digits != [] && AllDigits(digits)
    ensures IsDigitGroups(digits) && DropUnderscores(digits) == digits
  {
  }

  /** A plain run of digits, with whitespace `int()` skips around it, is read as
      its decimal value. */
  lemma PyIntOfDigits(lead: string, digits: string, trail: string)
    requires AllIntSpace(lead) && AllIntSpace(trail)
    requires digits != [] && AllDigits(digits) && |digits| <= MaxStrDigits
    ensures PyInt(lead + digits + trail) == Some(DecimalValue(digits))
  {
    DigitIsNotIntSpace(digits[0]);
    DigitIsNotIntSpace(digits[|digits| - 1]);
    IntStripAround(lead, digits, trail);
    DigitsAreGroups(digits);
  }

  /** `int()` rejects a string whose text between the skipped whitespace holds a
      character that is neither a digit, an underscore nor a sign. */
  lemma PyIntRejects(s: string, c: char)
    requires c in IntStrip(s)
    requires !IsDigit(c) && c != '_' && c != '+' && c != '-'
    ensures PyInt(s) == None
  {
    var t := IntStrip(s);
    var i :| 0 <= i < |t| && t[i] == c;
    if |t| > 0 && (t[0] == '+' || t[0] == '-') {
      assert i > 0 && t[1..][i - 1] == c;
    }
  }

  /** `int()` rejects any string holding one of the separators U+001C to U+001F,
      even at an end, where `strip()` would have removed it. */
  lemma PyIntRejectsSeparator(s: string, i: nat)
    requires i < |s| && '\U{1C}' <= s[i] <= '\U{1F}'
    ensures PyInt(s) == None
  {
    var k := IntStripIsSlice(s);
    assert k <= i < k + |IntStrip(s)|;
    assert IntStrip(s)[i - k] == s[i];
    PyIntRejects(s, s[i]);
  }

  /** A run of digits on its own is read as its decimal value. */
  lemma PyIntOfDigitRun(t: string)
    ensures t != [] && AllDigits(t) && |t| <= MaxStrDigits ==> PyInt(t) == Some(DecimalValue(t))
  {
    if t != [] && AllDigits(t) && |t| <= MaxStrDigits {
      PyIntOfDigits([], t, []);
      assert [] + t + [] == t;
    }
  }

  /** `int()` rejects an empty or all-whitespace string. */
  lemma PyIntOfBlank(s: string)
    requires Strip(s) == []
    ensures PyInt(s) == None
  {
    var t := TrimLeft(s);
    assert t == [];
    var j := IntStripIsSlice(s);
    var u := IntStrip(s);
    if u != [] {
      assert u[0] == s[j];
      SpaceIsNotDigit(s[j]);
    }
  }

  lemma SpaceIsNotDigit(c: char)
    requires IsSpace(c)
    ensures !IsDigit(c) && c != '+' && c != '-'
  {
  }

  /** `int()` rejects a run of more than `MaxStrDigits` digits. */
  lemma PyIntTooLong(s: string)
    requires AllDigits(s) && |s| > MaxStrDigits
    ensures PyInt(s) == None
  {
    IntStripOfDigits(s);
    DigitsAreGroups(s);
    DigitIsNotIntSpace(s[0]);
  }

  lemma IntStripOfDigits(s: string)
    requires s != [] && AllDigits(s)
    ensures IntStrip(s) == s
  {
    DigitIsNotIntSpace(s[0]);
    DigitIsNotIntSpace(s[|s| - 1]);
    IntStripAround([], s, []);
    assert [] + s + [] == s;
  }
}
