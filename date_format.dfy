/** `formatDate` of script.js: a year-month date string to a `"Mon Year"` label. */
module DateFormat {

  import opened Wrappers
  import opened Text

  const Months: seq<string> := ["Jan", "Feb", "Mar", "Apr", "May", "Jun", "Jul", "Aug", "Sep", "Oct", "Nov", "Dec"]

  /** `months[m - 1]` interpolated into a template: an abbreviation for 1..12,
      the text `undefined` for NaN and every other index. */
  function MonthLabel(month: Option<nat>): (shown: string)
    ensures month.Some? && 1 <= month.value <= 12 ==> shown == Months[month.value - 1]
    ensures !(month.Some? && 1 <= month.value <= 12) ==> shown == "undefined"
  {
    if month.Some? && 1 <= month.value <= 12 then Months[month.value - 1] else "undefined"
  }

  /** `formatDate(isoDate)`, with an absent date written `""`. The year is the
      text before the first `-`; the month is `parseInt` of the text between the
      first and second `-`, or of the string `"undefined"` when there is no `-`. */
  function FormatDate(isoDate: string): (shown: string)
    ensures shown == "" <==> isoDate == ""
  {
    if isoDate == "" then ""
    else
      var parts := Split(isoDate, '-');
      var month := if |parts| > 1 then parts[1] else "undefined";
      MonthLabel(ParseIntPrefix(month)) + " " + parts[0]
  }

  /** A `Y-M` or `Y-M-D` date whose month digits denote 1..12 gives that month's
      abbreviation followed by the year. */
  lemma FormatYearMonth(y: string, m: string, d: string)
    requires '-' !in y && |m| > 0 && AllDigits(m)
    requires 1 <= DigitsValue(m) <= 12
    ensures FormatDate(y + "-" + m) == Months[DigitsValue(m) - 1] + " " + y
    ensures FormatDate(y + "-" + m + "-" + d) == Months[DigitsValue(m) - 1] + " " + y
  {
    DigitsHaveNoHyphen(m);
    ParseIntOfDigits(m);
    MonthLabelOf(ParseIntPrefix(m), DigitsValue(m));
    FormatPair(y, m);
    FormatTriple(y, m, d);
  }

  /** `Y-M` shows the month label of `M` and the year `Y`. */
  lemma FormatPair(y: string, m: string)
    requires '-' !in y && '-' !in m
    ensures FormatDate(y + "-" + m) == MonthLabel(ParseIntPrefix(m)) + " " + y
  {
    assert y + "-" + m == y + ['-'] + m;
    SplitPair(y, '-', m);
    FormatPieces(y + ['-'] + m, y, m);
  }

  /** `Y-M-D` shows the month label of `M` and the year `Y`. */
  lemma FormatTriple(y: string, m: string, d: string)
    requires '-' !in y && '-' !in m
    ensures FormatDate(y + "-" + m + "-" + d) == MonthLabel(ParseIntPrefix(m)) + " " + y
  {
    assert y + "-" + m + "-" + d == y + ['-'] + m + ['-'] + d;
    SplitTriple(y, '-', m, d);
    FormatPieces(y + ['-'] + m + ['-'] + d, y, m);
  }

  /** The label of a month number 1..12 is its abbreviation. */
  lemma MonthLabelOf(month: Option<nat>, v: nat)
    requires month == Some(v) && 1 <= v <= 12
    ensures MonthLabel(month) == Months[v - 1]
  { }

  /** A date whose first two `-` pieces are `y` and `m` shows the month label of `m` and the year `y`. */
  lemma FormatPieces(date: string, y: string, m: string)
    requires |Split(date, '-')| >= 2 && Split(date, '-')[0] == y && Split(date, '-')[1] == m
    ensures FormatDate(date) == MonthLabel(ParseIntPrefix(m)) + " " + y
  {
  }

  /** A digit string contains no `-`. */
  lemma DigitsHaveNoHyphen(m: string)
    requires AllDigits(m)
    ensures '-' !in m
  {
    forall k | 0 <= k < |m| ensures m[k] != '-' { assert IsDigit(m[k]); }
  }

  /** A month outside 1..12, or a month that is not a number, gives the label `undefined`. */
  lemma {:induction false} FormatBadMonth(y: string, m: string)
    requires '-' !in y && '-' !in m
    requires ParseIntPrefix(m).None? || !(1 <= ParseIntPrefix(m).value <= 12)
    ensures FormatDate(y + "-" + m) == "undefined " + y
  {
    SplitAtFirst(y, '-', m);
    SplitNoSeparator(m, '-');
    assert y + "-" + m == y + ['-'] + m;
  }

  /** A non-empty date with no `-` at all (such as `"January 2025"`) comes out as `undefined` and the whole date. */
  lemma {:induction false} FormatWithoutHyphen(d: string)
    requires d != "" && '-' !in d
    ensures FormatDate(d) == "undefined " + d
  {
    SplitNoSeparator(d, '-');
    UndefinedIsNaN();
  }

  /** `parseInt(undefined)` reads the text `undefined`, which has no leading digit: NaN. */
  lemma UndefinedIsNaN()
    ensures ParseIntPrefix("undefined").None?
  {
    assert "undefined"[0] == 'u';
  }

  /** The source's own example: `2026-02-28` is `Feb 2026`. */
  lemma FormatDateExample(date: string)
    requires date == "2026-02-28"
    ensures FormatDate(date) == "Feb 2026"
  {
    var y, m, d := "2026", "02", "28";
    assert date == y + "-" + m + "-" + d;
    assert '-' !in y by { assert y == ['2', '0', '2', '6']; }
    assert |m| > 0 && AllDigits(m) && DigitsValue(m) == 2 by {
      assert m == ['0', '2'] && m[..1] == ['0'] && m[..1][..0] == [];
      assert DigitsValue(m[..1]) == 0;
    }
    FormatYearMonth(y, m, d);
    FebLabel(Months[DigitsValue(m) - 1] + " " + y);
  }

  lemma FebLabel(shown: string)
    requires shown == Months[1] + " " + "2026"
    ensures shown == "Feb 2026"
  {
    assert Months[1] == ['F', 'e', 'b'];
  }

  /** The dates of LOCAL_POSTS are month names, not `YYYY-MM-DD`: `January 2025` shows as `undefined January 2025`. */
  lemma FormatLocalDateExample(date: string)
    requires date == "January 2025"
    ensures FormatDate(date) == "undefined " + date
  {
    assert '-' !in date by {
      assert date == ['J', 'a', 'n', 'u', 'a', 'r', 'y', ' ', '2', '0', '2', '5'];
    }
    FormatWithoutHyphen(date);
  }
}
