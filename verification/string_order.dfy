/** Python's ordering of `str` values, which the router uses both for the
    active-window test on `YYYY-MM-DD` strings and for the `created_at` sort key,
    together with the value of a run of decimal digits. */
module StringOrder {

  /** `a <= b` on Python strings: lexicographic by code point, and a proper
      prefix comes before every extension of it. */
  predicate StrLe(a: string, b: string)
    ensures a <= b ==> StrLe(a, b)
    ensures StrLe(a, b) ==> |a| == 0 || (|b| > 0 && a[0] <= b[0])
  {
    if |a| == 0 then true
    else if |b| == 0 then false
    else if a[0] != b[0] then a[0] < b[0]
    else StrLe(a[1..], b[1..])
  }

  lemma {:induction false} StrLeReflexive(a: string)
    ensures StrLe(a, a)
  {
    if |a| > 0 {
      StrLeReflexive(a[1..]);
    }
  }

  lemma {:induction false} StrLeAntisymmetric(a: string, b: string)
    requires StrLe(a, b) && StrLe(b, a)
    ensures a == b
  {
    if |a| > 0 && |b| > 0 {
      StrLeAntisymmetric(a[1..], b[1..]);
      assert a == [a[0]] + a[1..];
      assert b == [b[0]] + b[1..];
    }
  }

  lemma {:induction false} StrLeTransitive(a: string, b: string, c: string)
    requires StrLe(a, b) && StrLe(b, c)
    ensures StrLe(a, c)
  {
    if |a| > 0 && |b| > 0 && |c| > 0 && a[0] == b[0] && b[0] == c[0] {
      StrLeTransitive(a[1..], b[1..], c[1..]);
    }
  }

  lemma {:induction false} StrLeTotal(a: string, b: string)
    ensures StrLe(a, b) || StrLe(b, a)
  {
    if |a| > 0 && |b| > 0 && a[0] == b[0] {
      StrLeTotal(a[1..], b[1..]);
    }
  }

  /** The empty string is the least string: only "" is below it. */
  lemma StrLeEmpty(a: string)
    ensures StrLe(a, "") <==> a == ""
  {
  }

  /** Comparing two strings that start with blocks of the same length decides
      on the blocks first, and on the rest only when the blocks are equal. */
  lemma {:induction false} StrLeConcat(p: string, a: string, q: string, b: string)
    requires |p| == |q|
    ensures StrLe(p + a, q + b) == if p == q then StrLe(a, b) else StrLe(p, q)
  {
    if |p| == 0 {
      assert p + a == a && q + b == b;
    } else {
      assert (p + a)[0] == p[0] && (q + b)[0] == q[0];
      assert (p + a)[1..] == p[1..] + a && (q + b)[1..] == q[1..] + b;
      if p[0] == q[0] {
        StrLeConcat(p[1..], a, q[1..], b);
        assert p == [p[0]] + p[1..] && q == [q[0]] + q[1..];
      }
    }
  }

  predicate IsDigit(c: char)
  {
    '0' <= c <= '9'
  }

  predicate IsDigits(s: string)
  {
    forall i :: 0 <= i < |s| ==> IsDigit(s[i])
  }

  function DigitValue(c: char): (v: int)
    requires IsDigit(c)
    ensures 0 <= v <= 9
  {
    c as int - '0' as int
  }

  /** The decimal value of a digit string, most significant digit first. */
  function DigitsValue(s: string): (v: int)
    requires IsDigits(s)
    ensures 0 <= v
  {
    if |s| == 0 then 0
    else 10 * DigitsValue(s[..|s| - 1]) + DigitValue(s[|s| - 1])
  }

  /** On digit strings of one length, string order is numeric order, and
      two such strings are equal exactly when their values are. */
  lemma {:induction false} DigitsOrder(a: string, b: string)
    requires |a| == |b| && IsDigits(a) && IsDigits(b)
    ensures StrLe(a, b) <==> DigitsValue(a) <= DigitsValue(b)
    ensures a == b <==> DigitsValue(a) == DigitsValue(b)
  {
    if |a| > 0 {
      var n := |a| - 1;
      var a', b' := a[..n], b[..n];
      DigitsOrder(a', b');
      assert a == a' + [a[n]] && b == b' + [b[n]];
      StrLeConcat(a', [a[n]], b', [b[n]]);
      if a' == b' {
        assert [a[n]] == [b[n]] <==> a[n] == b[n];
      } else {
        assert [a[n]] != [b[n]] || a[n] == b[n];
      }
    }
  }
}
