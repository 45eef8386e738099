/**
  The counter key of the rate limiter: the client identity and the index of the
  current hour, joined by a colon, with the hour written in decimal. The module
  also gives the inverse, which splits a key at its last colon, and proves that
  the key determines both parts, however many colons the identity holds (an IPv6
  address holds several).
 */
module WindowKey {
  import opened Wrappers

  predicate IsDigit(c: char) {
    '0' <= c <= '9'
  }

  predicate AllDigits(s: string) {
    forall i :: 0 <= i < |s| ==> IsDigit(s[i])
  }

  /** The character for a decimal digit. */
  function DigitChar(d: nat): (c: char)
    requires d < 10
    ensures IsDigit(c) && c as int - '0' as int == d
  {
    ('0' as int + d) as char
  }

  /** The decimal rendering of n, most significant digit first, without leading zeros. */
  function Decimal(n: nat): (s: string)
    ensures |s| >= 1 && AllDigits(s)
    ensures s[0] == '0' ==> n == 0 && s == "0"
    decreases n
  {
    if n < 10 then [DigitChar(n)] else Decimal(n / 10) + [DigitChar(n % 10)]
  }

  /** The number a string of decimal digits denotes. */
  function DigitsValue(s: string): nat
    requires AllDigits(s)
    decreases |s|
  {
    if s == [] then 0
    else
      var init := s[..|s| - 1];
      assert forall i :: 0 <= i < |init| ==> init[i] == s[i];
      DigitsValue(init) * 10 + (s[|s| - 1] as int - '0' as int)
  }

  /** Reading back the decimal rendering of n gives n. */
  lemma {:induction false} DecimalRoundTrip(n: nat)
    ensures DigitsValue(Decimal(n)) == n
    decreases n
  {
    if n >= 10 {
      var s := Decimal(n);
      assert s[..|s| - 1] == Decimal(n / 10);
      DecimalRoundTrip(n / 10);
    }
  }

  /** The position of the last occurrence of c in s, if there is one. */
  function LastIndexOf(s: string, c: char): (r: Option<nat>)
    ensures r.Some? ==> r.value < |s| && s[r.value] == c
    ensures r.Some? ==> forall j :: r.value < j < |s| ==> s[j] != c
    ensures r.None? ==> forall j :: 0 <= j < |s| ==> s[j] != c
    decreases |s|
  {
    if s == [] then None
    else if s[|s| - 1] == c then Some(|s| - 1)
    else
      var init := s[..|s| - 1];
      assert forall j :: 0 <= j < |init| ==> init[j] == s[j];
      LastIndexOf(init, c)
  }

  /** The key under which the counter of identity ip for hour index hour is stored. */
  function KeyString(ip: string, hour: nat): (key: string)
    ensures |key| > |ip| + 1 && key[..|ip|] == ip && key[|ip|] == ':'
    ensures AllDigits(key[|ip| + 1..])
  {
    ip + ":" + Decimal(hour)
  }

  /** Splits a key at its last colon into the identity and the hour index. */
  function ParseKey(key: string): Option<(string, nat)> {
    match LastIndexOf(key, ':')
    case None => None
    case Some(i) =>
      var digits := key[i + 1..];
      if digits != [] && AllDigits(digits) then Some((key[..i], DigitsValue(digits))) else None
  }

  /** Splitting a key recovers the identity and the hour it was built from. */
  lemma ParseKeyRoundTrip(ip: string, hour: nat)
    ensures ParseKey(KeyString(ip, hour)) == Some((ip, hour))
  {
    var key := KeyString(ip, hour);
    var digits := Decimal(hour);
    assert key[|ip|] == ':';
    assert forall j :: |ip| < j < |key| ==> key[j] == digits[j - |ip| - 1];
    var r := LastIndexOf(key, ':');
    assert r == Some(|ip|);
    assert key[|ip| + 1..] == digits;
    assert key[..|ip|] == ip;
    DecimalRoundTrip(hour);
  }

  /** Two keys are equal exactly when they name the same identity and the same hour. */
  lemma KeyStringInjective(ip1: string, hour1: nat, ip2: string, hour2: nat)
    ensures KeyString(ip1, hour1) == KeyString(ip2, hour2) <==> ip1 == ip2 && hour1 == hour2
  {
    ParseKeyRoundTrip(ip1, hour1);
    ParseKeyRoundTrip(ip2, hour2);
  }
}
