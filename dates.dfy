/**
 * Calendar dates as the routes exchange them: "yyyy-MM-dd" strings, compared as
 * text. The main fact is that for such strings text order is date order.
 */
module Dates {
  import opened JsStrings

  /** `a <= b` on strings: character by character, a proper prefix first. */
  predicate LexLe(a: string, b: string) {
    a == [] || (b != [] && (a[0] < b[0] || (a[0] == b[0] && LexLe(a[1..], b[1..]))))
  }

  lemma {:induction false} LexLeReflexive(a: string)
    ensures LexLe(a, a)
  {
    if a != [] {
      LexLeReflexive(a[1..]);
    }
  }

  lemma {:induction false} LexLeTotal(a: string, b: string)
    ensures LexLe(a, b) || LexLe(b, a)
  {
    if a != [] && b != [] && a[0] == b[0] {
      LexLeTotal(a[1..], b[1..]);
    }
  }

  lemma {:induction false} LexLeTransitive(a: string, b: string, c: string)
    requires LexLe(a, b) && LexLe(b, c)
    ensures LexLe(a, c)
  {
    if a != [] && a[0] == b[0] && b[0] == c[0] {
      LexLeTransitive(a[1..], b[1..], c[1..]);
    }
  }

  lemma {:induction false} LexLeAntisymmetric(a: string, b: string)
    requires LexLe(a, b) && LexLe(b, a)
    ensures a == b
  {
    if a != [] {
      LexLeAntisymmetric(a[1..], b[1..]);
      assert a == [a[0]] + a[1..] && b == [b[0]] + b[1..];
    }
  }

  /** After equal-length heads, the order is the heads' order, or the tails' if the heads agree. */
  lemma {:induction false} LexLeAppend(p: string, r: string, q: string, s: string)
    requires |p| == |q|
    ensures LexLe(p + r, q + s) <==> if p == q then LexLe(r, s) else LexLe(p, q)
  {
    if p != [] {
      LexLeAppend(p[1..], r, q[1..], s);
      assert (p + r)[0] == p[0] && (p + r)[1..] == p[1..] + r;
      assert (q + s)[0] == q[0] && (q + s)[1..] == q[1..] + s;
      assert p == [p[0]] + p[1..] && q == [q[0]] + q[1..];
    } else {
      assert p + r == r && q + s == s;
    }
  }

  /** Two-digit spellings compare as their values. */
  lemma TwoDigitsOrder(a: nat, b: nat)
    requires a < 100 && b < 100
    ensures LexLe(TwoDigits(a), TwoDigits(b)) <==> a <= b
  {
    var x, y := TwoDigits(a), TwoDigits(b);
    assert x[1..][1..] == [] && y[1..][1..] == [];
    assert LexLe(x[1..], y[1..]) <==> x[1] <= y[1] by {
      assert x[1..][0] == x[1] && y[1..][0] == y[1];
    }
    assert LexLe(x, y) <==> x[0] < y[0] || (x[0] == y[0] && x[1] <= y[1]);
    assert x[0] < y[0] <==> a / 10 < b / 10;
    assert x[0] == y[0] <==> a / 10 == b / 10;
    assert x[1] <= y[1] <==> a % 10 <= b % 10;
  }

  /** The four-digit, zero-padded spelling of a year. */
  function FourDigits(n: nat): (s: string)
    requires n < 10000
    ensures |s| == 4
  {
    TwoDigits(n / 100) + TwoDigits(n % 100)
  }

  lemma FourDigitsOrder(a: nat, b: nat)
    requires a < 10000 && b < 10000
    ensures LexLe(FourDigits(a), FourDigits(b)) <==> a <= b
    ensures FourDigits(a) == FourDigits(b) <==> a == b
  {
    LexLeAppend(TwoDigits(a / 100), TwoDigits(a % 100), TwoDigits(b / 100), TwoDigits(b % 100));
    TwoDigitsOrder(a / 100, b / 100);
    TwoDigitsOrder(a % 100, b % 100);
    TwoDigitsInjective(a / 100, b / 100);
    TwoDigitsInjective(a % 100, b % 100);
    if FourDigits(a) == FourDigits(b) {
      assert FourDigits(a)[..2] == TwoDigits(a / 100) && FourDigits(b)[..2] == TwoDigits(b / 100);
      assert FourDigits(a)[2..] == TwoDigits(a % 100) && FourDigits(b)[2..] == TwoDigits(b % 100);
    }
  }

  /** A calendar date as year, month and day numbers. */
  datatype Date = Date(year: nat, month: nat, day: nat)
  {
    /** Numbers that fit the "yyyy-MM-dd" spelling. */
    predicate Printable() {
      year < 10000 && month < 100 && day < 100
    }
  }

  /** Chronological order of dates: by year, then month, then day. */
  predicate Before(a: Date, b: Date) {
    a.year < b.year || (a.year == b.year && (a.month < b.month || (a.month == b.month && a.day < b.day)))
  }

  /** The "yyyy-MM-dd" spelling of a date (`toISOString().split('T')[0]`, the `date` column). */
  function IsoDate(d: Date): (s: string)
    requires d.Printable()
    ensures |s| == 10
  {
    FourDigits(d.year) + "-" + TwoDigits(d.month) + "-" + TwoDigits(d.day)
  }

  /** The month-and-day tail of the spelling compares as (month, day). */
  lemma MonthDayOrder(a: Date, b: Date)
    requires a.Printable() && b.Printable()
    ensures var x := TwoDigits(a.month) + "-" + TwoDigits(a.day);
      var y := TwoDigits(b.month) + "-" + TwoDigits(b.day);
      && (LexLe(x, y) <==> a.month < b.month || (a.month == b.month && a.day <= b.day))
      && (x == y <==> a.month == b.month && a.day == b.day)
  {
    var ma, mb := TwoDigits(a.month), TwoDigits(b.month);
    var da, db := TwoDigits(a.day), TwoDigits(b.day);
    assert ma + "-" + da == ma + (['-'] + da);
    assert mb + "-" + db == mb + (['-'] + db);
    LexLeAppend(ma, ['-'] + da, mb, ['-'] + db);
    LexLeAppend(['-'], da, ['-'], db);
    TwoDigitsOrder(a.month, b.month);
    TwoDigitsOrder(a.day, b.day);
    TwoDigitsInjective(a.month, b.month);
    TwoDigitsInjective(a.day, b.day);
    if ma + (['-'] + da) == mb + (['-'] + db) {
      assert (ma + (['-'] + da))[..2] == ma && (mb + (['-'] + db))[..2] == mb;
      assert (ma + (['-'] + da))[3..] == da && (mb + (['-'] + db))[3..] == db;
    }
  }

  /**
   * For "yyyy-MM-dd" strings, text order is chronological order, and equal text
   * means the same date: so `.gte('date', today)` on text keeps exactly the
   * dates from today on.
   */
  lemma IsoDateOrder(a: Date, b: Date)
    requires a.Printable() && b.Printable()
    ensures LexLe(IsoDate(a), IsoDate(b)) <==> !Before(b, a)
    ensures IsoDate(a) == IsoDate(b) <==> a == b
  {
    var ya, yb := FourDigits(a.year), FourDigits(b.year);
    var ta := TwoDigits(a.month) + "-" + TwoDigits(a.day);
    var tb := TwoDigits(b.month) + "-" + TwoDigits(b.day);
    assert IsoDate(a) == ya + (['-'] + ta);
    assert IsoDate(b) == yb + (['-'] + tb);
    LexLeAppend(ya, ['-'] + ta, yb, ['-'] + tb);
    LexLeAppend(['-'], ta, ['-'], tb);
    FourDigitsOrder(a.year, b.year);
    MonthDayOrder(a, b);
    if IsoDate(a) == IsoDate(b) {
      assert IsoDate(a)[..4] == ya && IsoDate(b)[..4] == yb;
      assert IsoDate(a)[5..] == ta && IsoDate(b)[5..] == tb;
    }
  }
}
