/** The date key used for every per-date mapping: a calendar date printed
    as year, month and day separated by '-', month and day zero-padded to
    two digits. The calendar fields are inputs; reading the clock is the
    caller's business (`now`). */
module DayKey {
  import opened Common
  import opened Text

  /** The fields `getFullYear()`, `getMonth()` (0-based) and `getDate()` of
      a JavaScript Date. */
  datatype DateParts = DateParts(year: int, month0: int, day: int)

  predicate ValidParts(p: DateParts) {
    0 <= p.month0 <= 11 && 1 <= p.day <= 31
  }

  /** The argument of the encoder: a valid Date, or anything else (a
      string, an invalid Date), which the encoder replaces by the clock. */
  datatype DateArg = ADate(parts: DateParts) | NotADate

  /** `String(n).padStart(2, '0')` for a month or day number. */
  function Pad2(n: nat): (r: string)
    requires n < 100
    ensures |r| == 2 && AllDigits(r)
    ensures ParseNat(r) == n
    ensures n < 10 ==> r[0] == '0'
  {
    var s := NatToString(n);
    var r := PadStart(s, 2, '0');
    NatToStringLength(n);
    ParseNatToString(n);
    if n < 10 then
      assert r == ['0'] + s;
      assert r[..1] == ['0'];
      r
    else
      r
  }

  /** `${y}-${m}-${d}` for a two-character month and day. */
  function Layout(y: string, m: string, d: string): (r: string)
    requires |m| == 2 && |d| == 2
    ensures |r| == |y| + 6 && r[..|y|] == y
    ensures r[|y|] == '-' && r[|y| + 3] == '-'
    ensures r[|y| + 1..|y| + 3] == m && r[|y| + 4..] == d
  {
    var r := y + "-" + m + "-" + d;
    assert r[|y| + 1..|y| + 3] == m;
    assert r[|y| + 4..] == d;
    r
  }

  /** The key of one calendar date. */
  function KeyOf(p: DateParts): (r: string)
    requires ValidParts(p)
    ensures 1000 <= p.year <= 9999 ==> |r| == 10 && r[4] == '-' && r[7] == '-'
    ensures |r| >= 7 && r[|r| - 6] == '-' && r[|r| - 3] == '-'
    ensures r[|r| - 5..|r| - 3] == Pad2(p.month0 + 1) && r[|r| - 2..] == Pad2(p.day)
  {
    NatToStringLength(if p.year < 0 then -p.year else p.year);
    Layout(IntToString(p.year), Pad2(p.month0 + 1), Pad2(p.day))
  }

  /** A four-digit year is printed as its four digits. */
  lemma KeyOfYear(p: DateParts)
    requires ValidParts(p) && 1000 <= p.year <= 9999
    ensures KeyOf(p)[..4] == NatToString(p.year)
  {
    NatToStringLength(p.year);
  }

  /** `toDay(arg)`: the key of the given Date, or of `now` when the argument
      is not a valid Date. */
  function ToDay(arg: DateArg, now: DateParts): (r: string)
    requires arg.ADate? ==> ValidParts(arg.parts)
    requires ValidParts(now)
    ensures arg.ADate? ==> r == KeyOf(arg.parts)
    ensures arg.NotADate? ==> r == KeyOf(now)
  {
    match arg
    case ADate(p) => KeyOf(p)
    case NotADate => KeyOf(now)
  }

  /** Reads a ten-character key back into its calendar fields. */
  function ParseKey(s: string): Option<DateParts> {
    if |s| == 10 && s[4] == '-' && s[7] == '-'
       && AllDigits(s[..4]) && AllDigits(s[5..7]) && AllDigits(s[8..])
    then Some(DateParts(ParseNat(s[..4]), ParseNat(s[5..7]) - 1, ParseNat(s[8..])))
    else None
  }

  /** For four-digit years the key reads back as the date it was made from. */
  lemma ParseKeyOf(p: DateParts)
    requires ValidParts(p) && 1000 <= p.year <= 9999
    ensures ParseKey(KeyOf(p)) == Some(p)
  {
    var r := KeyOf(p);
    KeyOfYear(p);
    ParseNatToString(p.year);
    assert r[5..7] == Pad2(p.month0 + 1);
    assert r[8..] == Pad2(p.day);
  }

  /** For four-digit years, distinct dates have distinct keys. */
  lemma KeyOfInjective(p: DateParts, q: DateParts)
    requires ValidParts(p) && 1000 <= p.year <= 9999
    requires ValidParts(q) && 1000 <= q.year <= 9999
    requires KeyOf(p) == KeyOf(q)
    ensures p == q
  {
    ParseKeyOf(p);
    ParseKeyOf(q);
  }

  /** One is printed with a leading zero. */
  lemma Pad2One()
    ensures Pad2(1) == "01"
  {
    assert NatToString(1) == [DigitChar(1)] == "1";
    assert Repeat('0', 1) == "0";
    assert PadStart("1", 2, '0') == "0" + "1";
  }

  /** January is printed as "01", December as "12". */
  lemma JanuaryAndDecember()
    ensures Pad2(0 + 1) == "01"
    ensures Pad2(11 + 1) == "12"
  {
    Pad2One();
    assert NatToString(1) == "1";
    assert NatToString(12) == NatToString(1) + [DigitChar(2)] == "12";
  }
}
