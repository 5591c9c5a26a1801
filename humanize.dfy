/**
 `timeAgo`: the "updated ..." phrase under the page heading. The elapsed
 time arrives as integer nanoseconds (the caller's clock reading minus the
 cache's last-update time) and falls into one of four buckets: just now,
 minutes, hours or days, each worded in the singular exactly for a count
 of one.
 */
module Humanize {
  import opened PkgTypes

  datatype Unit = Minutes | Hours | Days

  /** The bucket an elapsed time falls in, with its whole count of units. */
  datatype Age = JustNow | Ago(count: nat, unit: Unit)

  function UnitNs(u: Unit): int {
    match u
    case Minutes => MinuteNs
    case Hours => HourNs
    case Days => DayNs
  }

  /**
   The bucket choice. Go truncates the float `Minutes()`, `Hours()` and
   `Hours()/24` to int; for the positive durations reaching those branches
   that is floor division of the nanosecond count.
   */
  function Classify(elapsed: int): (a: Age)
    ensures a == JustNow <==> elapsed < MinuteNs
    ensures a.Ago? ==> (a.count >= 1
      && a.count * UnitNs(a.unit) <= elapsed < (a.count + 1) * UnitNs(a.unit))
    ensures a.Ago? && a.unit == Minutes ==> elapsed < HourNs && a.count < 60
    ensures a.Ago? && a.unit == Hours ==> MinuteNs * 60 <= elapsed < DayNs && a.count < 24
    ensures a.Ago? && a.unit == Days ==> DayNs <= elapsed
  {
    if elapsed < MinuteNs then JustNow
    else if elapsed < HourNs then Ago(elapsed / MinuteNs, Minutes)
    else if elapsed < 24 * HourNs then Ago(elapsed / HourNs, Hours)
    else Ago(elapsed / DayNs, Days)
  }

  // ---------------------------------------------------------------------
  // Decimal digits, as Go's `%d` writes a non-negative int

  predicate IsDigit(c: char) {
    '0' <= c <= '9'
  }

  predicate AllDigits(s: string) {
    forall k :: 0 <= k < |s| ==> IsDigit(s[k])
  }

  function DigitChar(d: nat): char
    requires d < 10
  {
    ('0' as int + d) as char
  }

  /** Go's `%d` of a non-negative count: decimal digits without a leading zero. */
  function NatToString(n: nat): (s: string)
    ensures |s| >= 1 && AllDigits(s)
    ensures s[0] == '0' ==> n == 0
  {
    if n < 10 then [DigitChar(n)]
    else NatToString(n / 10) + [DigitChar(n % 10)]
  }

  function DigitValue(c: char): nat
    requires IsDigit(c)
  {
    (c as int - '0' as int) as nat
  }

  function ParseNat(s: string): nat
    requires AllDigits(s)
  {
    if s == [] then 0
    else ParseNat(s[..|s| - 1]) * 10 + DigitValue(s[|s| - 1])
  }

  /** Reading back the digits Go's `%d` wrote gives the count again. */
  lemma {:induction false} ParseNatToString(n: nat)
    ensures ParseNat(NatToString(n)) == n
  {
    var s := NatToString(n);
    if n >= 10 {
      ParseNatToString(n / 10);
      assert s[..|s| - 1] == NatToString(n / 10);
    }
  }

  // ---------------------------------------------------------------------
  // The phrase

  function Singular(u: Unit): string {
    match u
    case Minutes => " minute ago"
    case Hours => " hour ago"
    case Days => " day ago"
  }

  function Plural(u: Unit): string {
    match u
    case Minutes => " minutes ago"
    case Hours => " hours ago"
    case Days => " days ago"
  }

  /**
   The wording of each bucket, as the source's branches write it. A count
   phrase starts with a digit, so it is never "just now", and it ends in a
   plural wording (an 's' before the closing " ago") exactly when the count
   is not one.
   */
  function Render(a: Age): (r: string)
    ensures a.Ago? ==> |r| >= 5 && IsDigit(r[0]) && (r[|r| - 5] == 's' <==> a.count != 1)
  {
    match a
    case JustNow => "just now"
    case Ago(n, u) =>
      if n == 1 then
        match u
        case Minutes => "1 minute ago"
        case Hours => "1 hour ago"
        case Days => "1 day ago"
      else NatToString(n) + Plural(u)
  }

  /** `timeAgo` on an elapsed time: the phrase reads back as the bucket Classify chose. */
  function TimeAgo(elapsed: int): (r: string)
    ensures ParseAge(r) == Some(Classify(elapsed))
  {
    RenderParses(Classify(elapsed));
    Render(Classify(elapsed))
  }

  /** How many leading characters of s are digits. */
  function DigitPrefix(s: string): (k: nat)
    ensures k <= |s| && AllDigits(s[..k])
    ensures k < |s| ==> !IsDigit(s[k])
  {
    if s == [] || !IsDigit(s[0]) then 0
    else
      var k := 1 + DigitPrefix(s[1..]);
      assert s[..k] == [s[0]] + s[1..][..k - 1];
      k
  }

  /** The unit a wording names, and whether it is the singular one. */
  datatype Wording = Wording(unit: Unit, singular: bool)

  function WordingOf(tail: string): Option<Wording> {
    if tail == Singular(Minutes) then Some(Wording(Minutes, true))
    else if tail == Singular(Hours) then Some(Wording(Hours, true))
    else if tail == Singular(Days) then Some(Wording(Days, true))
    else if tail == Plural(Minutes) then Some(Wording(Minutes, false))
    else if tail == Plural(Hours) then Some(Wording(Hours, false))
    else if tail == Plural(Days) then Some(Wording(Days, false))
    else None
  }

  /**
   Reading a phrase back: "just now", or a decimal count followed by a
   unit worded in the singular when the count is one and in the plural
   otherwise. Anything else is refused.
   */
  function ParseAge(s: string): Option<Age> {
    if s == "just now" then Some(JustNow)
    else
      var k := DigitPrefix(s);
      var n := ParseNat(s[..k]);
      match WordingOf(s[k..])
      case Some(w) =>
        if k > 0 && w.singular == (n == 1) then Some(Ago(n, w.unit)) else None
      case None => None
  }

  /** The six wordings are told apart. */
  lemma WordingsDistinct(u: Unit, singular: bool)
    ensures WordingOf(if singular then Singular(u) else Plural(u)) == Some(Wording(u, singular))
  {
    assert Singular(Minutes)[1] == 'm' && Plural(Minutes)[1] == 'm';
    assert Singular(Hours)[1] == 'h' && Plural(Hours)[1] == 'h';
    assert Singular(Days)[1] == 'd' && Plural(Days)[1] == 'd';
    assert |Singular(Minutes)| == 11 && |Plural(Minutes)| == 12;
    assert |Singular(Hours)| == 9 && |Plural(Hours)| == 10;
    assert |Singular(Days)| == 8 && |Plural(Days)| == 9;
  }

  lemma DigitPrefixOfDigits(d: string, t: string)
    requires AllDigits(d) && (t == [] || !IsDigit(t[0]))
    ensures DigitPrefix(d + t) == |d|
    decreases |d|
  {
    if d != [] {
      assert (d + t)[1..] == d[1..] + t;
      DigitPrefixOfDigits(d[1..], t);
    }
  }

  /** A count with its unit's wording reads back as that count. */
  lemma CountParses(n: nat, tail: string)
    requires |tail| > 0 && tail[0] == ' '
    ensures var s := NatToString(n) + tail;
      DigitPrefix(s) == |NatToString(n)| >= 1
      && ParseNat(s[..DigitPrefix(s)]) == n && s[DigitPrefix(s)..] == tail
  {
    var d := NatToString(n);
    DigitPrefixOfDigits(d, tail);
    assert (d + tail)[..|d|] == d && (d + tail)[|d|..] == tail;
    ParseNatToString(n);
  }

  /** A count followed by its wording reads back as that count and unit. */
  lemma PhraseParses(n: nat, u: Unit)
    requires n >= 1
    ensures ParseAge(NatToString(n) + (if n == 1 then Singular(u) else Plural(u))) == Some(Ago(n, u))
  {
    var tail := if n == 1 then Singular(u) else Plural(u);
    assert tail[0] == ' ';
    CountParses(n, tail);
    WordingsDistinct(u, n == 1);
  }

  /**
   Every phrase names its bucket and count unambiguously, with the singular
   wording exactly for a count of one.
   */
  lemma RenderParses(a: Age)
    requires a.Ago? ==> a.count >= 1
    ensures ParseAge(Render(a)) == Some(a)
  {
    if a.Ago? {
      RenderIsPhrase(a.count, a.unit);
      PhraseParses(a.count, a.unit);
    }
  }

  /** A count phrase is the decimal count followed by the wording for that count. */
  lemma RenderIsPhrase(n: nat, u: Unit)
    ensures Render(Ago(n, u)) == NatToString(n) + (if n == 1 then Singular(u) else Plural(u))
  {
    if n == 1 {
      assert NatToString(1) == "1";
    }
  }

  /** The phrase is "just now" exactly below one minute. */
  lemma JustNowExactly(elapsed: int)
    ensures TimeAgo(elapsed) == "just now" <==> elapsed < MinuteNs
  {
    assert ParseAge("just now") == Some(JustNow);
  }
}
