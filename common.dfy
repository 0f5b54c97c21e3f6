/** Small helpers shared by the store and the controller: an Option type and
    the few JavaScript string operations the application relies on
    (`String(n)` for integers, `padStart(2, '0')`, `startsWith`, string
    comparison and sorting a set of keys). */
module Common {

  datatype Option<T> = None | Some(value: T)

  predicate IsDigit(c: char) { '0' <= c <= '9' }

  predicate AllDigits(s: string) { forall i :: 0 <= i < |s| ==> IsDigit(s[i]) }

  function DigitChar(d: int): (c: char)
    requires 0 <= d < 10
    ensures IsDigit(c) && c as int - '0' as int == d
  {
    ('0' as int + d) as char
  }

  /** The number a string of decimal digits denotes (leading zeros allowed). */
  function DigitsValue(s: string): nat
    requires AllDigits(s)
  {
    if s == [] then 0 else DigitsValue(s[..|s| - 1]) * 10 + (s[|s| - 1] as int - '0' as int)
  }

  /** Decimal rendering of a natural number, as JavaScript's `String(n)`. */
  function NatToString(n: nat): (s: string)
    ensures 1 <= |s| && AllDigits(s)
    ensures DigitsValue(s) == n
    ensures n < 10 <==> |s| == 1
    decreases n
  {
    if n < 10 then [DigitChar(n)] else
      var s := NatToString(n / 10) + [DigitChar(n % 10)];
      assert s[..|s| - 1] == NatToString(n / 10);
      s
  }

  /** `String(n)` for any integer: a minus sign before the digits of a negative number. */
  function IntToString(n: int): (s: string)
    ensures n >= 0 ==> AllDigits(s) && DigitsValue(s) == n
    ensures n < 0 ==> |s| >= 2 && s[0] == '-' && AllDigits(s[1..]) && DigitsValue(s[1..]) == -n
  {
    if n < 0 then "-" + NatToString(-n) else NatToString(n)
  }

  function Pow10(k: nat): (p: nat)
    ensures p >= 1
  {
    if k == 0 then 1 else 10 * Pow10(k - 1)
  }

  /** `String(n)` has at most k digits exactly when n is below 10^k. */
  lemma {:induction false} DigitCount(n: nat, k: nat)
    requires k >= 1
    ensures |NatToString(n)| <= k <==> n < Pow10(k)
    decreases k
  {
    if k > 1 {
      assert Pow10(k) == 10 * Pow10(k - 1);
      if n >= 10 {
        assert |NatToString(n)| == |NatToString(n / 10)| + 1;
        DigitCount(n / 10, k - 1);
      }
    }
  }

  /** `n` zero digits. */
  function Zeros(n: nat): (s: string)
    ensures |s| == n && forall i :: 0 <= i < n ==> s[i] == '0'
  {
    seq(n, _ => '0')
  }

  /** `s.padStart(width, '0')`. */
  function PadStart(s: string, width: nat): string
  {
    if |s| >= width then s else Zeros(width - |s|) + s
  }

  /** Padding keeps the string at the end, reaches the width when the
      string is shorter, and puts only zeros in front. */
  lemma PadStartShape(s: string, width: nat)
    ensures var r := PadStart(s, width);
            && |r| == (if |s| >= width then |s| else width)
            && r[|r| - |s|..] == s
            && forall i :: 0 <= i < |r| - |s| ==> r[i] == '0'
  {
  }

  /** A zero in front of a string of digits does not change its value. */
  lemma {:induction false} LeadingZero(s: string)
    requires AllDigits(s)
    ensures AllDigits("0" + s) && DigitsValue("0" + s) == DigitsValue(s)
    decreases |s|
  {
    if s != [] {
      var t := "0" + s;
      assert t[..|t| - 1] == "0" + s[..|s| - 1];
      LeadingZero(s[..|s| - 1]);
    }
  }

  lemma {:induction false} LeadingZeros(n: nat, s: string)
    requires AllDigits(s)
    ensures AllDigits(Zeros(n) + s) && DigitsValue(Zeros(n) + s) == DigitsValue(s)
    decreases n
  {
    if n > 0 {
      var t := Zeros(n - 1) + s;
      assert Zeros(n) == "0" + Zeros(n - 1);
      assert Zeros(n) + s == "0" + t;
      LeadingZeros(n - 1, s);
      LeadingZero(t);
    } else {
      assert Zeros(n) + s == s;
    }
  }

  /** A number padded with zeros to `width` digits: exactly `width` digits
      when it fits, denoting the same number. */
  lemma PaddedNumber(n: nat, width: nat)
    ensures AllDigits(PadStart(NatToString(n), width))
    ensures DigitsValue(PadStart(NatToString(n), width)) == n
    ensures |NatToString(n)| <= width ==> |PadStart(NatToString(n), width)| == width
  {
    var s := NatToString(n);
    if |s| < width {
      LeadingZeros(width - |s|, s);
    }
  }

  /** Every non-empty string of digits is the zero-padded rendering of the
      number it denotes. */
  lemma {:induction false} PaddedDigits(t: string)
    requires AllDigits(t) && |t| >= 1
    ensures PadStart(NatToString(DigitsValue(t)), |t|) == t
    decreases |t|
  {
    var u, c := t[..|t| - 1], t[|t| - 1];
    assert t == u + [c];
    var v := DigitsValue(t);
    assert v == DigitsValue(u) * 10 + (c as int - '0' as int);
    if |t| == 1 {
      assert NatToString(v) == [DigitChar(v)] == [c];
    } else {
      PaddedDigits(u);
      var x := NatToString(DigitsValue(u));
      if v >= 10 {
        assert v / 10 == DigitsValue(u) && v % 10 == c as int - '0' as int;
        assert NatToString(v) == x + [c];
        assert |x| <= |u|;
        assert PadStart(x + [c], |t|) == PadStart(x, |u|) + [c];
      } else {
        assert DigitsValue(u) == 0 && x == "0";
        assert u == Zeros(|u|);
        assert NatToString(v) == [c];
      }
    }
  }

  /** `s.startsWith(prefix)`. */
  predicate StartsWith(s: string, prefix: string)
  {
    |prefix| <= |s| && s[..|prefix|] == prefix
  }

  /** `startsWith` compares the string with the prefix character by character. */
  lemma StartsWithAt(s: string, prefix: string)
    ensures StartsWith(s, prefix) <==> |prefix| <= |s| && forall i :: 0 <= i < |prefix| ==> s[i] == prefix[i]
  {
    if |prefix| <= |s| && forall i :: 0 <= i < |prefix| ==> s[i] == prefix[i] {
      assert s[..|prefix|] == prefix;
    }
  }

  /** `a < b` on JavaScript strings: code-unit lexicographic order, a proper
      prefix coming first. */
  predicate Below(a: string, b: string)
    ensures Below(a, b) ==> a != b
    ensures StartsWith(b, a) ==> (Below(a, b) <==> a != b)
    decreases |a|
  {
    if a == [] then b != []
    else if b == [] then false
    else if a[0] == b[0] then
      assert StartsWith(b, a) ==> StartsWith(b[1..], a[1..]);
      assert a[1..] != b[1..] ==> a != b;
      assert a != b ==> a[1..] != b[1..];
      Below(a[1..], b[1..])
    else a[0] < b[0]
  }

  lemma {:induction false} BelowAsymmetric(a: string, b: string)
    ensures Below(a, b) ==> !Below(b, a)
    decreases |a|
  {
    if a != [] && b != [] && a[0] == b[0] {
      BelowAsymmetric(a[1..], b[1..]);
    }
  }

  lemma {:induction false} BelowTransitive(a: string, b: string, c: string)
    requires Below(a, b) && Below(b, c)
    ensures Below(a, c)
    decreases |a|
  {
    if a != [] && a[0] == b[0] && b[0] == c[0] {
      BelowTransitive(a[1..], b[1..], c[1..]);
    }
  }

  lemma {:induction false} BelowTotal(a: string, b: string)
    requires a != b
    ensures Below(a, b) || Below(b, a)
    decreases |a|
  {
    if a != [] && b != [] && a[0] == b[0] {
      assert a == [a[0]] + a[1..] && b == [b[0]] + b[1..];
      BelowTotal(a[1..], b[1..]);
    }
  }

  predicate IsLeast(k: string, s: set<string>)
  {
    k in s && forall x :: x in s && x != k ==> Below(k, x)
  }

  lemma {:induction false} LeastExists(s: set<string>)
    requires s != {}
    ensures exists k :: IsLeast(k, s)
    decreases |s|
  {
    var x :| x in s;
    if s != {x} {
      LeastExists(s - {x});
      var m :| IsLeast(m, s - {x});
      if Below(x, m) {
        forall y | y in s && y != x ensures Below(x, y) {
          if y != m { BelowTransitive(x, m, y); }
        }
        assert IsLeast(x, s);
      } else {
        BelowTotal(x, m);
        assert IsLeast(m, s);
      }
    } else {
      assert IsLeast(x, s);
    }
  }

  lemma LeastUnique(s: set<string>)
    ensures forall a, b :: IsLeast(a, s) && IsLeast(b, s) ==> a == b
  {
    forall a, b | IsLeast(a, s) && IsLeast(b, s) ensures a == b {
      BelowAsymmetric(a, b);
    }
  }

  /** The strings of a set in ascending order (the `sort` of a list of
      distinct keys under `localeCompare`, taken here as code-unit order). */
  function SortedStrings(s: set<string>): (r: seq<string>)
    ensures |r| == |s|
    ensures forall i :: 0 <= i < |r| ==> r[i] in s
    ensures forall k :: k in s ==> k in r
    ensures forall i, j :: 0 <= i < j < |r| ==> Below(r[i], r[j])
    decreases |s|
  {
    if s == {} then [] else
      LeastExists(s);
      LeastUnique(s);
      var k :| IsLeast(k, s);
      var rest := SortedStrings(s - {k});
      LeastFirst(k, s, rest);
      [k] + rest
  }

  /** The least string of a set, put before the rest of the set in
      ascending order, gives the whole set in ascending order. */
  lemma LeastFirst(k: string, s: set<string>, rest: seq<string>)
    requires IsLeast(k, s)
    requires |rest| == |s - {k}|
    requires forall i :: 0 <= i < |rest| ==> rest[i] in s - {k}
    requires forall x :: x in s - {k} ==> x in rest
    requires forall i, j :: 0 <= i < j < |rest| ==> Below(rest[i], rest[j])
    ensures var r := [k] + rest;
            && |r| == |s|
            && (forall i :: 0 <= i < |r| ==> r[i] in s)
            && (forall x :: x in s ==> x in r)
            && (forall i, j :: 0 <= i < j < |r| ==> Below(r[i], r[j]))
  {
    var r := [k] + rest;
    forall i, j | 0 <= i < j < |r| ensures Below(r[i], r[j]) {
      assert r[j] == rest[j - 1];
      if i > 0 {
        assert r[i] == rest[i - 1];
      }
    }
    forall x | x in s ensures x in r {
      if x != k {
        assert x in rest;
      }
    }
  }
}
