/** SQLite's BINARY collation on text: the order `ORDER BY created_at` uses. */
module Collation {

  /** `a <= b` under BINARY collation. Comparing UTF-8 bytes with memcmp orders
      text as its code points do, and a proper prefix comes first. */
  predicate LexLe(a: string, b: string)
  {
    if a == [] then true
    else if b == [] then false
    else if a[0] != b[0] then a[0] < b[0]
    else LexLe(a[1..], b[1..])
  }

  lemma {:induction false} LexLeReflexive(a: string)
    ensures LexLe(a, a)
  {
    if a != [] {
      LexLeReflexive(a[1..]);
    }
  }

  lemma {:induction false} LexLeTotal(a: string, b: string)
    ensures LexLe(a, b) || LexLe(b, a)
  {
    if a != [] && b != [] && a[0] == b[0] {
      LexLeTotal(a[1..], b[1..]);
    }
  }

  lemma {:induction false} LexLeAntisymmetric(a: string, b: string)
    requires LexLe(a, b) && LexLe(b, a)
    ensures a == b
  {
    if a != [] && b != [] {
      LexLeAntisymmetric(a[1..], b[1..]);
      assert a == [a[0]] + a[1..] && b == [b[0]] + b[1..];
    }
  }

  lemma {:induction false} LexLeTransitive(a: string, b: string, c: string)
    requires LexLe(a, b) && LexLe(b, c)
    ensures LexLe(a, c)
  {
    if a != [] && b != [] && c != [] && a[0] == b[0] && b[0] == c[0] {
      LexLeTransitive(a[1..], b[1..], c[1..]);
    }
  }

  /** Comparing two texts that start with equally long parts: the parts decide
      unless they are equal, and then the rests do. */
  lemma {:induction false} LexLeAppend(x: string, y: string, u: string, v: string)
    requires |x| == |y|
    ensures LexLe(x + u, y + v) <==> if x == y then LexLe(u, v) else LexLe(x, y)
  {
    if x != [] {
      assert (x + u)[0] == x[0] && (x + u)[1..] == x[1..] + u;
      assert (y + v)[0] == y[0] && (y + v)[1..] == y[1..] + v;
      LexLeAppend(x[1..], y[1..], u, v);
      assert x == [x[0]] + x[1..] && y == [y[0]] + y[1..];
    } else {
      assert x + u == u && y + v == v;
    }
  }
}

/** The `created_at` values CURRENT_TIMESTAMP produces: UTC date and time as
    the text "YYYY-MM-DD HH:MM:SS". */
module Timestamps {
  import opened Values
  import opened Collation

  datatype DateTime = DateTime(year: int, month: int, day: int, hour: int, minute: int, second: int)

  predicate IsLeapYear(y: int)
  {
    y % 4 == 0 && (y % 100 != 0 || y % 400 == 0)
  }

  function DaysInMonth(y: int, m: int): int
  {
    if m == 2 then (if IsLeapYear(y) then 29 else 28)
    else if m == 4 || m == 6 || m == 9 || m == 11 then 30
    else 31
  }

  /** A date and time CURRENT_TIMESTAMP can produce (years 0000 to 9999). */
  predicate ValidDateTime(d: DateTime)
  {
    && 0 <= d.year <= 9999
    && 1 <= d.month <= 12
    && 1 <= d.day <= DaysInMonth(d.year, d.month)
    && 0 <= d.hour < 24
    && 0 <= d.minute < 60
    && 0 <= d.second < 60
  }

  /** `a` is not later than `b`, comparing field by field from the year down. */
  predicate NotLater(a: DateTime, b: DateTime)
  {
    if a.year != b.year then a.year < b.year
    else if a.month != b.month then a.month < b.month
    else if a.day != b.day then a.day < b.day
    else if a.hour != b.hour then a.hour < b.hour
    else if a.minute != b.minute then a.minute < b.minute
    else a.second <= b.second
  }

  /** Two digits, zero-padded. */
  function Pad2(n: int): (s: string)
    requires 0 <= n < 100
    ensures |s| == 2
  {
    [DigitChar(n / 10), DigitChar(n % 10)]
  }

  /** Four digits, zero-padded. */
  function Pad4(n: int): (s: string)
    requires 0 <= n < 10000
    ensures |s| == 4
  {
    Pad2(n / 100) + Pad2(n % 100)
  }

  /** The text SQLite stores for a CURRENT_TIMESTAMP default. */
  function StampText(d: DateTime): (s: string)
    requires ValidDateTime(d)
    ensures |s| == 19
  {
    Pad4(d.year) + ("-" + (Pad2(d.month) + ("-" + (Pad2(d.day) + (" " +
      (Pad2(d.hour) + (":" + (Pad2(d.minute) + (":" + Pad2(d.second))))))))))
  }

  lemma Pad2Order(a: int, b: int)
    requires 0 <= a < 100 && 0 <= b < 100
    ensures Pad2(a) == Pad2(b) <==> a == b
    ensures LexLe(Pad2(a), Pad2(b)) <==> a <= b
  {
    var x, y := Pad2(a), Pad2(b);
    assert x[1..][1..] == [] && y[1..][1..] == [];
    assert x[1..][0] == x[1] && y[1..][0] == y[1];
    assert a == a / 10 * 10 + a % 10 && b == b / 10 * 10 + b % 10;
    assert x[0] as int == '0' as int + a / 10 && y[0] as int == '0' as int + b / 10;
    assert x[1] as int == '0' as int + a % 10 && y[1] as int == '0' as int + b % 10;
    assert LexLe(x[1..][1..], y[1..][1..]);
    assert LexLe(x[1..], y[1..]) == if x[1] != y[1] then x[1] < y[1] else true;
    assert LexLe(x, y) == if a / 10 != b / 10 then a / 10 < b / 10 else if a % 10 != b % 10 then a % 10 < b % 10 else true;
    if x == y {
      assert x[0] == y[0] && x[1] == y[1];
    }
  }

  lemma Pad4Order(a: int, b: int)
    requires 0 <= a < 10000 && 0 <= b < 10000
    ensures Pad4(a) == Pad4(b) <==> a == b
    ensures LexLe(Pad4(a), Pad4(b)) <==> a <= b
  {
    Pad2Order(a / 100, b / 100);
    Pad2Order(a % 100, b % 100);
    LexLeAppend(Pad2(a / 100), Pad2(b / 100), Pad2(a % 100), Pad2(b % 100));
    LexLeReflexive([]);
    LexLeAppend(Pad2(a / 100), Pad2(b / 100), [], []);
    assert Pad2(a / 100) + [] == Pad2(a / 100) && Pad2(b / 100) + [] == Pad2(b / 100);
    if Pad4(a) == Pad4(b) {
      assert Pad4(a)[..2] == Pad2(a / 100) && Pad4(b)[..2] == Pad2(b / 100);
      assert Pad4(a)[2..] == Pad2(a % 100) && Pad4(b)[2..] == Pad2(b % 100);
    }
  }

  /** One field of a stamp and the fixed separator before the rest. */
  lemma FieldStep(x: string, y: string, sep: string, u: string, v: string)
    requires |x| == |y|
    ensures LexLe(x + (sep + u), y + (sep + v)) <==> if x == y then LexLe(u, v) else LexLe(x, y)
  {
    LexLeAppend(x, y, sep + u, sep + v);
    LexLeAppend(sep, sep, u, v);
  }

  /** Ordering the stored texts, as `ORDER BY created_at` does, is ordering
      the moments they stand for. */
  lemma StampOrder(a: DateTime, b: DateTime)
    requires ValidDateTime(a) && ValidDateTime(b)
    ensures LexLe(StampText(a), StampText(b)) <==> NotLater(a, b)
  {
    Pad4Order(a.year, b.year);
    Pad2Order(a.month, b.month);
    Pad2Order(a.day, b.day);
    Pad2Order(a.hour, b.hour);
    Pad2Order(a.minute, b.minute);
    Pad2Order(a.second, b.second);
    var s5a, s5b := Pad2(a.minute) + (":" + Pad2(a.second)), Pad2(b.minute) + (":" + Pad2(b.second));
    var s4a, s4b := Pad2(a.hour) + (":" + s5a), Pad2(b.hour) + (":" + s5b);
    var s3a, s3b := Pad2(a.day) + (" " + s4a), Pad2(b.day) + (" " + s4b);
    var s2a, s2b := Pad2(a.month) + ("-" + s3a), Pad2(b.month) + ("-" + s3b);
    FieldStep(Pad4(a.year), Pad4(b.year), "-", s2a, s2b);
    FieldStep(Pad2(a.month), Pad2(b.month), "-", s3a, s3b);
    FieldStep(Pad2(a.day), Pad2(b.day), " ", s4a, s4b);
    FieldStep(Pad2(a.hour), Pad2(b.hour), ":", s5a, s5b);
    FieldStep(Pad2(a.minute), Pad2(b.minute), ":", Pad2(a.second), Pad2(b.second));
  }
}
