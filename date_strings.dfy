/**
 * Calendar dates are kept as "YYYY-MM-DD" strings and compared with
 * JavaScript's relational operators on strings.  This module models that
 * comparison and shows that, on well-formed dates, it is the calendar order.
 */
module DateStrings {
  import opened JsNumbers

  /**
   * a <= b on JavaScript strings: lexicographic by character code, a proper
   * prefix coming first.  (JavaScript compares UTF-16 code units; on the
   * ASCII text of a date the two agree.)
   */
  predicate StrLe(a: string, b: string)
    decreases |a|
  {
    if a == [] then true
    else if b == [] then false
    else if a[0] != b[0] then a[0] < b[0]
    else StrLe(a[1..], b[1..])
  }

  lemma {:induction false} StrLeReflexive(a: string)
    ensures StrLe(a, a)
    decreases |a|
  {
    if a != [] {
      StrLeReflexive(a[1..]);
    }
  }

  lemma {:induction false} StrLeTotal(a: string, b: string)
    ensures StrLe(a, b) || StrLe(b, a)
    decreases |a|
  {
    if a != [] && b != [] && a[0] == b[0] {
      StrLeTotal(a[1..], b[1..]);
    }
  }

  lemma {:induction false} StrLeAntisymmetric(a: string, b: string)
    requires StrLe(a, b) && StrLe(b, a)
    ensures a == b
    decreases |a|
  {
    if a != [] {
      StrLeAntisymmetric(a[1..], b[1..]);
      assert a == [a[0]] + a[1..] && b == [b[0]] + b[1..];
    }
  }

  lemma {:induction false} StrLeTransitive(a: string, b: string, c: string)
    requires StrLe(a, b) && StrLe(b, c)
    ensures StrLe(a, c)
    decreases |a|
  {
    if a != [] && a[0] == b[0] && b[0] == c[0] {
      StrLeTransitive(a[1..], b[1..], c[1..]);
    }
  }

  /** A date as the application writes it: four, two and two decimal digits joined by '-'. */
  predicate IsIsoDate(s: string) {
    |s| == 10 && s[4] == '-' && s[7] == '-'
    && AllDigitsIn(s[..4], 10) && AllDigitsIn(s[5..7], 10) && AllDigitsIn(s[8..], 10)
  }

  /** The calendar position of a date: year, then month, then day. */
  function DateKey(s: string): nat
    requires IsIsoDate(s)
  {
    ValueIn(s[..4], 10) * 10000 + ValueIn(s[5..7], 10) * 100 + ValueIn(s[8..], 10)
  }

  /** Comparing two well-formed dates as strings is comparing them as calendar dates. */
  lemma IsoDateOrder(a: string, b: string)
    requires IsIsoDate(a) && IsIsoDate(b)
    ensures StrLe(a, b) <==> DateKey(a) <= DateKey(b)
  {
    var ya, yb := a[..4], b[..4];
    var ma, mb := a[5..7], b[5..7];
    var da, db := a[8..], b[8..];
    assert a == ya + ("-" + (ma + ("-" + da)));
    assert b == yb + ("-" + (mb + ("-" + db)));
    ConcatOrder(ya, "-" + (ma + ("-" + da)), yb, "-" + (mb + ("-" + db)));
    ConcatOrder("-", ma + ("-" + da), "-", mb + ("-" + db));
    ConcatOrder(ma, "-" + da, mb, "-" + db);
    ConcatOrder("-", da, "-", db);
    DigitsOrder(ya, yb);
    DigitsOrder(ma, mb);
    DigitsOrder(da, db);
    DigitsEqual(ya, yb);
    DigitsEqual(ma, mb);
    ValueBound(ma);
    ValueBound(mb);
    ValueBound(da);
    ValueBound(db);
    assert Pow10(2) == 100;
    LexicographicKey(ValueIn(ya, 10), ValueIn(ma, 10), ValueIn(da, 10),
                     ValueIn(yb, 10), ValueIn(mb, 10), ValueIn(db, 10));
  }

  lemma LexicographicKey(y1: nat, m1: nat, d1: nat, y2: nat, m2: nat, d2: nat)
    requires m1 < 100 && d1 < 100 && m2 < 100 && d2 < 100
    ensures y1 * 10000 + m1 * 100 + d1 <= y2 * 10000 + m2 * 100 + d2
        <==> y1 < y2 || (y1 == y2 && (m1 < m2 || (m1 == m2 && d1 <= d2)))
  {
    if y1 < y2 {
      assert (y1 + 1) * 10000 <= y2 * 10000;
    } else if y2 < y1 {
      assert (y2 + 1) * 10000 <= y1 * 10000;
    }
  }

  /** Digit strings of equal length are equal exactly when their values are. */
  lemma DigitsEqual(x: string, y: string)
    requires |x| == |y| && AllDigitsIn(x, 10) && AllDigitsIn(y, 10)
    ensures x == y <==> ValueIn(x, 10) == ValueIn(y, 10)
  {
    if ValueIn(x, 10) == ValueIn(y, 10) {
      DigitsOrder(x, y);
      DigitsOrder(y, x);
      StrLeAntisymmetric(x, y);
    }
  }

  /** Strings that start with parts of equal length compare by the first parts, then by the rest. */
  lemma {:induction false} ConcatOrder(x: string, u: string, y: string, v: string)
    requires |x| == |y|
    ensures StrLe(x + u, y + v) <==> (x != y && StrLe(x, y)) || (x == y && StrLe(u, v))
    decreases |x|
  {
    if x != [] {
      assert (x + u)[1..] == x[1..] + u;
      assert (y + v)[1..] == y[1..] + v;
      ConcatOrder(x[1..], u, y[1..], v);
      if x[0] == y[0] {
        assert x == y <==> x[1..] == y[1..] by {
          assert x == [x[0]] + x[1..] && y == [y[0]] + y[1..];
        }
      }
    } else {
      assert x + u == u && y + v == v;
    }
  }

  /** Ten to the n. */
  function Pow10(n: nat): nat {
    if n == 0 then 1 else 10 * Pow10(n - 1)
  }

  /** The leading digit weighs ten to the number of digits after it. */
  lemma {:induction false} ValueOfFront(s: string)
    requires s != []
    ensures ValueIn(s, 10) == CharValue(s[0]) * Pow10(|s| - 1) + ValueIn(s[1..], 10)
    decreases |s|
  {
    if |s| > 1 {
      var p := s[..|s| - 1];
      var last := CharValue(s[|s| - 1]);
      ValueOfFront(p);
      assert p[1..] == s[1..][..|s| - 2];
      assert s[1..][|s| - 2] == s[|s| - 1];
      var c, w, r := CharValue(s[0]), Pow10(|s| - 2), ValueIn(p[1..], 10);
      assert ValueIn(p, 10) == c * w + r;
      assert ValueIn(s[1..], 10) == r * 10 + last;
      assert Pow10(|s| - 1) == 10 * w;
      assert ValueIn(s, 10) == (c * w + r) * 10 + last;
      ShiftDigit(c, w, r);
    } else {
      assert s[1..] == [];
      assert s[..0] == [];
    }
  }

  lemma ShiftDigit(c: int, w: int, r: int)
    ensures (c * w + r) * 10 == c * (10 * w) + r * 10
  {
  }

  /** A string of n digits is worth less than ten to the n. */
  lemma {:induction false} ValueBound(s: string)
    requires AllDigitsIn(s, 10)
    ensures ValueIn(s, 10) < Pow10(|s|)
    decreases |s|
  {
    if s != [] {
      ValueBound(s[..|s| - 1]);
      assert IsDigitIn(s[|s| - 1], 10);
    }
  }

  /** On digit strings of equal length, the string order is the numeric order. */
  lemma {:induction false} DigitsOrder(x: string, y: string)
    requires |x| == |y| && AllDigitsIn(x, 10) && AllDigitsIn(y, 10)
    ensures StrLe(x, y) <==> ValueIn(x, 10) <= ValueIn(y, 10)
    decreases |x|
  {
    if x != [] {
      var xs, ys := x[1..], y[1..];
      assert AllDigitsIn(xs, 10) && AllDigitsIn(ys, 10);
      DigitsOrder(xs, ys);
      ValueOfFront(x);
      ValueOfFront(y);
      ValueBound(xs);
      ValueBound(ys);
      assert IsDigitIn(x[0], 10) && IsDigitIn(y[0], 10);
      FrontCompare(CharValue(x[0]), CharValue(y[0]), ValueIn(xs, 10), ValueIn(ys, 10), Pow10(|xs|));
      assert StrLe(x, y) == if x[0] != y[0] then x[0] < y[0] else StrLe(xs, ys);
    }
  }

  /** Numbers written with a leading digit and a lower-weight rest compare by the digit first. */
  lemma FrontCompare(c: nat, d: nat, r: nat, q: nat, w: nat)
    requires r < w && q < w
    ensures c * w + r <= d * w + q <==> c < d || (c == d && r <= q)
  {
    if c < d {
      LeadingDigitDecides(c, d, r, q, w);
    } else if d < c {
      LeadingDigitDecides(d, c, q, r, w);
    }
  }

  lemma LeadingDigitDecides(c: nat, d: nat, r: nat, q: nat, w: nat)
    requires c < d && r < w && q < w
    ensures c * w + r < d * w + q
  {
    assert (c + 1) * w <= d * w;
  }
}
