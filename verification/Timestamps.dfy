/**
 * Why comparing stored timestamps as text is comparing instants: section 5.1 of RFC 3339. In UTC, without fractions, every
 * field has a fixed width and the fields come in descending weight. Converting an offset to UTC can leave the years 0 to
 * 9999 by a year at either end, where the width of the year changes.
 */
module Timestamps {
  import opened Lex
  import GraphStore

  datatype Instant = Instant(year: int, month: nat, day: nat, hour: nat, minute: nat, second: nat)

  /** What conversion to UTC can give. */
  predicate Reachable(t: Instant) {
    -1 <= t.year <= 10000 && t.month < 100 && t.day < 100 && t.hour < 100 && t.minute < 100 && t.second < 100
  }

  /** n in w decimal digits, padded with zeros. */
  function Padded(n: nat, w: nat): (s: string)
    ensures |s| == w
  {
    if w == 0 then "" else Padded(n / 10, w - 1) + [Digit(n % 10)]
  }

  /** At least four digits, with a sign when negative. */
  function YearText(year: int): string
    requires -1 <= year <= 10000
  {
    if year < 0 then "-" + Padded(-year, 4) else if year <= 9999 then Padded(year, 4) else Padded(year, 5)
  }

  /** -mm-ddThh:mm:ssZ */
  function WithinYear(t: Instant): string {
    "-" + (Padded(t.month, 2) + ("-" + (Padded(t.day, 2) + ("T" +
      (Padded(t.hour, 2) + (":" + (Padded(t.minute, 2) + (":" + (Padded(t.second, 2) + "Z")))))))))
  }

  /** yyyy-mm-ddThh:mm:ssZ */
  function Format(t: Instant): string
    requires -1 <= t.year <= 10000
  {
    YearText(t.year) + WithinYear(t)
  }

  predicate Before(a: Instant, b: Instant) {
    a.year < b.year || (a.year == b.year &&
    (a.month < b.month || (a.month == b.month &&
    (a.day < b.day || (a.day == b.day &&
    (a.hour < b.hour || (a.hour == b.hour &&
    (a.minute < b.minute || (a.minute == b.minute && a.second < b.second)))))))))
  }

  lemma DigitAppended(x: string, y: string, a: nat, b: nat)
    requires |x| == |y| && a < 10 && b < 10
    ensures Less(x + [Digit(a)], y + [Digit(b)]) <==> Less(x, y) || (x == y && a < b)
    ensures x + [Digit(a)] == y + [Digit(b)] <==> x == y && a == b
  {
    var s, t := x + [Digit(a)], y + [Digit(b)];
    LessByField(x, y, [Digit(a)], [Digit(b)]);
    assert Less([Digit(a)], [Digit(b)]) <==> a < b;
    assert s[..|x|] == x && t[..|x|] == y && s[|x|] == Digit(a) && t[|x|] == Digit(b);
  }

  lemma {:induction false} PaddedOrder(a: nat, b: nat, w: nat)
    requires a < Pow10(w) && b < Pow10(w)
    ensures Less(Padded(a, w), Padded(b, w)) <==> a < b
    ensures Padded(a, w) == Padded(b, w) <==> a == b
  {
    if w == 0 {
    } else {
      PaddedOrder(a / 10, b / 10, w - 1);
      DigitAppended(Padded(a / 10, w - 1), Padded(b / 10, w - 1), a % 10, b % 10);
    }
  }

  /** A field and its separator decide before the rest. */
  lemma FieldFirst(a: nat, b: nat, w: nat, c: char, s: string, t: string)
    requires a < Pow10(w) && b < Pow10(w)
    ensures Less(Padded(a, w) + ([c] + s), Padded(b, w) + ([c] + t)) <==> a < b || (a == b && Less(s, t))
  {
    PaddedOrder(a, b, w);
    LessByField(Padded(a, w), Padded(b, w), [c] + s, [c] + t);
    LessByField([c], [c], s, t);
    LessIrreflexive([c]);
  }

  /** Month by month to the second. */
  lemma WithinYearOrder(a: Instant, b: Instant)
    requires Reachable(a) && Reachable(b)
    ensures Less(WithinYear(a), WithinYear(b)) <==> Before(a.(year := 0), b.(year := 0))
  {
    assert Pow10(2) == 100;
    var a5, b5 := Padded(a.second, 2) + "Z", Padded(b.second, 2) + "Z";
    var a4, b4 := Padded(a.minute, 2) + (":" + a5), Padded(b.minute, 2) + (":" + b5);
    var a3, b3 := Padded(a.hour, 2) + (":" + a4), Padded(b.hour, 2) + (":" + b4);
    var a2, b2 := Padded(a.day, 2) + ("T" + a3), Padded(b.day, 2) + ("T" + b3);
    var a1, b1 := Padded(a.month, 2) + ("-" + a2), Padded(b.month, 2) + ("-" + b2);
    FieldFirst(a.second, b.second, 2, 'Z', "", "");
    assert "Z" + "" == "Z";
    FieldFirst(a.minute, b.minute, 2, ':', a5, b5);
    FieldFirst(a.hour, b.hour, 2, ':', a4, b4);
    FieldFirst(a.day, b.day, 2, 'T', a3, b3);
    FieldFirst(a.month, b.month, 2, '-', a2, b2);
    LessByField("-", "-", a1, b1);
    LessIrreflexive("-");
  }

  lemma SameYear(a: Instant, b: Instant)
    requires Reachable(a) && Reachable(b) && a.year == b.year
    ensures Less(Format(a), Format(b)) <==> Before(a, b)
  {
    var y := YearText(a.year);
    LessByField(y, y, WithinYear(a), WithinYear(b));
    LessIrreflexive(y);
    WithinYearOrder(a, b);
  }

  lemma FourDigitYears(a: Instant, b: Instant)
    requires Reachable(a) && Reachable(b) && 0 <= a.year <= 9999 && 0 <= b.year <= 9999 && a.year != b.year
    ensures Less(Format(a), Format(b)) <==> a.year < b.year
  {
    assert Pow10(4) == 10000 by { assert Pow10(2) == 100 && Pow10(3) == 1000; }
    LessByField(Padded(a.year, 4), Padded(b.year, 4), WithinYear(a), WithinYear(b));
    PaddedOrder(a.year, b.year, 4);
  }

  /** The text of year 10000 comes right behind that of year 1000. */
  lemma FifthDigit(a: Instant, b: Instant)
    requires Reachable(a) && Reachable(b) && a.year == 10000 && 0 <= b.year <= 9999
    ensures Less(Format(a), Format(b)) <==> 1000 < b.year
    ensures Less(Format(b), Format(a)) <==> b.year <= 1000
  {
    assert Pow10(4) == 10000 by { assert Pow10(2) == 100 && Pow10(3) == 1000; }
    var x, y, s, t := Padded(1000, 4), Padded(b.year, 4), "0" + WithinYear(a), WithinYear(b);
    assert Format(a) == x + s;
    PaddedOrder(1000, b.year, 4);
    PaddedOrder(b.year, 1000, 4);
    LessByField(x, y, s, t);
    LessByField(y, x, t, s);
  }

  lemma {:induction false} PaddedIsDigits(n: nat, w: nat)
    ensures forall i | 0 <= i < w :: '0' <= Padded(n, w)[i] <= '9'
  {
    if w == 0 {
    } else {
      PaddedIsDigits(n / 10, w - 1);
    }
  }

  /** The sign comes before every digit. */
  lemma SignFirst(a: Instant, b: Instant)
    requires Reachable(a) && Reachable(b) && a.year == -1 && b.year >= 0
    ensures Less(Format(a), Format(b)) && !Less(Format(b), Format(a))
  {
    PaddedIsDigits(b.year, 4);
    PaddedIsDigits(b.year, 5);
    assert Format(a)[0] == '-' && '0' <= Format(b)[0];
    LessAsymmetric(Format(a), Format(b));
  }

  /** One is in the year 10000 and the other in a year from 1001 to 9999. */
  predicate Misordered(a: Instant, b: Instant) {
    (a.year == 10000 && 1000 < b.year <= 9999) || (b.year == 10000 && 1000 < a.year <= 9999)
  }

  /** Normalised timestamps compare as text as their instants compare in time, and the other way round if misordered. */
  lemma TextOrderIsTimeOrder(a: Instant, b: Instant)
    requires Reachable(a) && Reachable(b)
    ensures Less(Format(a), Format(b)) <==> if Misordered(a, b) then !Before(a, b) else Before(a, b)
  {
    hide Format, Less;
    if a.year == b.year {
      SameYear(a, b);
    } else if a.year == -1 {
      SignFirst(a, b);
    } else if b.year == -1 {
      SignFirst(b, a);
    } else if a.year == 10000 {
      FifthDigit(a, b);
    } else if b.year == 10000 {
      FifthDigit(b, a);
    } else {
      FourDigitYears(a, b);
    }
  }

  /** Before in the order of the texts. */
  predicate TextBefore(a: Instant, b: Instant) {
    if Misordered(a, b) then !Before(a, b) else Before(a, b)
  }

  /** The timestamp, once read and written in UTC, is that instant. */
  ghost predicate Denotes(given: string, t: Instant, parse: string -> string) {
    given != "" && Reachable(t) && parse(given) == Format(t)
  }

  /**
   * An edge stored with readable bounds, whatever their offsets, covers exactly the instants from the one to before the other;
   * without a first bound it begins when it is stored, without a second it does not end.
   */
  lemma CoversInTime(e: GraphStore.Edge, now: string, parse: string -> string, from: Instant, until: Instant, at: Instant)
    requires Reachable(at) && Reachable(from) && if e.validFrom == "" then now == Format(from) else Denotes(e.validFrom, from, parse)
    requires e.validUntil == "" || Denotes(e.validUntil, until, parse)
    ensures GraphStore.Covers(GraphStore.Stored(e, now, parse), Format(at))
      <==> !TextBefore(at, from) && (e.validUntil == "" || TextBefore(at, until))
  {
    FormatNotEmpty(from);
    TextOrderIsTimeOrder(at, from);
    if e.validUntil != "" {
      FormatNotEmpty(until);
      TextOrderIsTimeOrder(at, until);
    }
  }

  lemma FormatNotEmpty(t: Instant)
    requires Reachable(t)
    ensures Format(t) != ""
  {
    assert |Format(t)| >= |WithinYear(t)| >= 1;
  }
}
