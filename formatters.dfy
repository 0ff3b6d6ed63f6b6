/** formatTTL and formatTTLDetails of src/utils/formatters.ts: the TTL that
    the store reports for a key (-1: no expiry, -2: no such key, otherwise
    seconds left) turned into display text. */
module Formatters {
  import opened Wrappers
  import opened Strings

  /** What formatTTL returns. */
  datatype TtlInfo = TtlInfo(rawTtl: int, display: string, hasExpiration: bool, keyExists: bool)

  predicate IsDigit(c: char)
  {
    '0' <= c <= '9'
  }

  predicate AllDigits(s: string)
  {
    forall i :: 0 <= i < |s| ==> IsDigit(s[i])
  }

  function DigitChar(d: nat): (c: char)
    requires d < 10
    ensures IsDigit(c)
  {
    ('0' as int + d) as char
  }

  /** The decimal digits of `n`, without leading zeros. */
  function NatToString(n: nat): (s: string)
    ensures |s| >= 1 && AllDigits(s)
    ensures s[0] == '0' ==> n == 0
  {
    if n < 10 then [DigitChar(n)] else NatToString(n / 10) + [DigitChar(n % 10)]
  }

  /** How JavaScript writes an integer in a template string. */
  function IntToString(i: int): (s: string)
    ensures |s| >= 1
    ensures i < 0 <==> s[0] == '-'
    ensures i >= 0 ==> AllDigits(s)
  {
    if i < 0 then "-" + NatToString(-i) else NatToString(i)
  }

  /** The number that a string of decimal digits denotes. */
  function DigitsValue(s: string): nat
    requires AllDigits(s)
  {
    if s == [] then 0
    else DigitsValue(s[..|s| - 1]) * 10 + (s[|s| - 1] as int - '0' as int)
  }

  /** Reading the digits back gives the number. */
  lemma {:induction false} NatToStringValue(n: nat)
    ensures DigitsValue(NatToString(n)) == n
  {
    if n >= 10 {
      NatToStringValue(n / 10);
      var s := NatToString(n / 10) + [DigitChar(n % 10)];
      assert s[..|s| - 1] == NatToString(n / 10);
    }
  }

  /** JavaScript's `%`: the remainder takes the sign of the dividend, and
      the dividend minus the remainder is a multiple of the divisor. */
  function JsRem(a: int, b: int): (r: int)
    requires b > 0
    ensures -b < r < b
    ensures a >= 0 ==> r >= 0
    ensures a < 0 ==> r <= 0
    ensures (a - r) % b == 0
  {
    if a >= 0 then
      RemainderLeavesMultiple(a, b);
      a % b
    else
      RemainderLeavesMultiple(-a, b);
      -((-a) % b)
  }

  /** Taking the remainder off leaves a multiple of the divisor, and so
      does its negation. */
  lemma RemainderLeavesMultiple(x: int, b: int)
    requires b > 0
    ensures (x - x % b) % b == 0
    ensures (-(x - x % b)) % b == 0
  {
    var q := x / b;
    assert x - x % b == q * b;
    MultipleMod(q, b);
    assert -(x - x % b) == (-q) * b;
    MultipleMod(-q, b);
  }

  /** A multiple of `b` leaves no remainder. */
  lemma MultipleMod(q: int, b: int)
    requires b > 0
    ensures (q * b) % b == 0
  {
    var x := q * b;
    var k := q - x / b;
    assert x == (x / b) * b + x % b;
    assert k * b == x % b;
    MultipleSmall(k, b);
  }

  /** The only multiple of `b` in [0, b) is 0. */
  lemma MultipleSmall(k: int, b: int)
    requires b > 0 && 0 <= k * b < b
    ensures k == 0
  {
  }

  /** `Math.floor(ttl / 3600)`; Dafny's `/` by a positive number rounds down too. */
  function Hours(ttl: int): (h: int)
    ensures h * 3600 <= ttl < (h + 1) * 3600
  {
    ttl / 3600
  }

  /** `Math.floor((ttl % 3600) / 60)`. */
  function Minutes(ttl: int): (m: int)
    ensures -60 <= m < 60
    ensures ttl >= 0 ==> m >= 0
  {
    var r := JsRem(ttl, 3600);
    assert -3600 < r < 3600;
    r / 60
  }

  /** `ttl % 60`. */
  function Seconds(ttl: int): (s: int)
    ensures -60 < s < 60
    ensures ttl >= 0 ==> s >= 0
    ensures ttl < 0 ==> s <= 0
  {
    JsRem(ttl, 60)
  }

  /** formatTTL: -1 and -2 get their own text, any other value is shown
      as hours, minutes and seconds. */
  function FormatTtl(ttl: int): (info: TtlInfo)
    ensures info.rawTtl == ttl
    ensures info.hasExpiration ==> info.keyExists
    ensures info.keyExists <==> ttl != -2
    ensures info.hasExpiration <==> ttl != -1 && ttl != -2
    ensures ttl == -1 ==> info.display == "No expiration"
    ensures ttl == -2 ==> info.display == "Key does not exist"
  {
    if ttl == -1 then
      TtlInfo(ttl, "No expiration", false, true)
    else if ttl == -2 then
      TtlInfo(ttl, "Key does not exist", false, false)
    else
      TtlInfo(ttl, IntToString(Hours(ttl)) + "h " + IntToString(Minutes(ttl)) + "m " + IntToString(Seconds(ttl)) + "s",
              true, true)
  }

  /** A TTL of zero or more seconds splits into whole hours, minutes below
      60 and seconds below 60 that add up to it again. */
  lemma TtlDecomposition(ttl: int)
    requires ttl >= 0
    ensures Hours(ttl) * 3600 + Minutes(ttl) * 60 + Seconds(ttl) == ttl
    ensures Hours(ttl) >= 0 && 0 <= Minutes(ttl) < 60 && 0 <= Seconds(ttl) < 60
  {
    var h := ttl / 3600;
    var r := ttl % 3600;
    var m := r / 60;
    var s := r % 60;
    assert ttl == h * 3600 + r;
    assert r == m * 60 + s;
    assert ttl == (h * 60 + m) * 60 + s;
    ModSixtyUnique(ttl, h * 60 + m, s);
  }

  lemma ModSixtyUnique(a: int, q: int, r: int)
    requires 0 <= r < 60 && a == q * 60 + r
    ensures a % 60 == r
  {
    var q' := a / 60;
    assert a == q' * 60 + a % 60;
    assert (q - q') * 60 == a % 60 - r;
  }

  /** One part of the display, such as "12m": digits followed by the unit. */
  function ParseUnit(part: string, unit: char): Option<nat>
  {
    if |part| >= 2 && part[|part| - 1] == unit && AllDigits(part[..|part| - 1])
    then Some(DigitsValue(part[..|part| - 1]))
    else None
  }

  /** Read a display "<h>h <m>m <s>s" back into seconds. */
  function ParseDisplay(display: string): Option<int>
  {
    var parts := Split(display, " ");
    if |parts| != 3 then None
    else
      var h := ParseUnit(parts[0], 'h');
      var m := ParseUnit(parts[1], 'm');
      var s := ParseUnit(parts[2], 's');
      if h.Some? && m.Some? && s.Some? then Some(h.value * 3600 + m.value * 60 + s.value) else None
  }

  lemma ParseUnitOf(n: nat, unit: char)
    ensures ParseUnit(NatToString(n) + [unit], unit) == Some(n)
  {
    var part := NatToString(n) + [unit];
    assert part[..|part| - 1] == NatToString(n);
    NatToStringValue(n);
  }

  /** A character that is not a digit does not occur among digits. */
  lemma NotAmongDigits(s: string, c: char)
    requires AllDigits(s) && !IsDigit(c)
    ensures c !in s
  {
    assert forall i :: 0 <= i < |s| ==> s[i] != c;
  }

  /** The display splits at its two spaces into the three parts. */
  lemma SplitDisplay(hs: string, ms: string, ss: string)
    requires AllDigits(hs) && AllDigits(ms) && AllDigits(ss)
    ensures Split(hs + "h " + ms + "m " + ss + "s", " ") == [hs + "h", ms + "m", ss + "s"]
  {
    var h := hs + "h";
    var m := ms + "m";
    var s := ss + "s";
    NotAmongDigits(hs, ' ');
    NotAmongDigits(ms, ' ');
    NotAmongDigits(ss, ' ');
    assert hs + "h " + ms + "m " + ss + "s" == h + [' '] + (m + [' '] + s);
    SplitFreePrefix(h, ' ', m + [' '] + s);
    SplitFreePrefix(m, ' ', s);
    SplitFree(s, ' ');
  }

  /** The display of a TTL of zero or more seconds reads back as that TTL. */
  lemma DisplayRoundTrip(ttl: int)
    requires ttl >= 0
    ensures ParseDisplay(FormatTtl(ttl).display) == Some(ttl)
  {
    TtlDecomposition(ttl);
    SplitDisplay(NatToString(Hours(ttl)), NatToString(Minutes(ttl)), NatToString(Seconds(ttl)));
    ParseUnitOf(Hours(ttl), 'h');
    ParseUnitOf(Minutes(ttl), 'm');
    ParseUnitOf(Seconds(ttl), 's');
  }

  /** formatTTLDetails: the display alone for a missing key or one without
      expiry; otherwise the seconds count, then the display in parentheses
      on a second line. */
  function FormatTtlDetails(ttl: int): (details: string)
    ensures !FormatTtl(ttl).keyExists || !FormatTtl(ttl).hasExpiration ==> details == FormatTtl(ttl).display
    ensures FormatTtl(ttl).hasExpiration ==>
      details == IntToString(ttl) + " seconds\n(" + FormatTtl(ttl).display + ")"
  {
    var info := FormatTtl(ttl);
    if !info.keyExists then info.display
    else if !info.hasExpiration then info.display
    else IntToString(ttl) + " seconds\n(" + info.display + ")"
  }

  /** The details of a TTL of zero or more seconds are two lines: the
      seconds count and the display in parentheses, each of which reads
      back as the TTL. */
  lemma DetailsLines(ttl: int)
    requires ttl >= 0
    ensures var lines := Split(FormatTtlDetails(ttl), "\n");
      && |lines| == 2
      && lines[0] == NatToString(ttl) + " seconds"
      && DigitsValue(NatToString(ttl)) == ttl
      && lines[1] == "(" + FormatTtl(ttl).display + ")"
      && ParseDisplay(FormatTtl(ttl).display) == Some(ttl)
  {
    TtlDecomposition(ttl);
    var hs, ms, ss := NatToString(Hours(ttl)), NatToString(Minutes(ttl)), NatToString(Seconds(ttl));
    assert FormatTtl(ttl).display == hs + "h " + ms + "m " + ss + "s";
    SplitDetails(NatToString(ttl), hs, ms, ss);
    NatToStringValue(ttl);
    DisplayRoundTrip(ttl);
  }

  /** The details split at their one line break. */
  lemma SplitDetails(ts: string, hs: string, ms: string, ss: string)
    requires AllDigits(ts) && AllDigits(hs) && AllDigits(ms) && AllDigits(ss)
    ensures var display := hs + "h " + ms + "m " + ss + "s";
      Split(ts + " seconds\n(" + display + ")", "\n") == [ts + " seconds", "(" + display + ")"]
  {
    var display := hs + "h " + ms + "m " + ss + "s";
    var first := ts + " seconds";
    var second := "(" + display + ")";
    NotAmongDigits(ts, '\n');
    NotAmongDigits(hs, '\n');
    NotAmongDigits(ms, '\n');
    NotAmongDigits(ss, '\n');
    assert ts + " seconds\n(" + display + ")" == first + ['\n'] + second;
    SplitFreePrefix(first, '\n', second);
    SplitFree(second, '\n');
  }
}
