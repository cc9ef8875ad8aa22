/** Strings as the ring uses them: decimal numerals and the order of Go's `<` on strings. */
module Text {

  const DIGITS := "0123456789"

  /** strconv.Itoa on non-negative numbers. */
  function Itoa(n: nat): string {
    if n < 10 then [DIGITS[n]] else Itoa(n / 10) + [DIGITS[n % 10]]
  }

  /** Lexicographic order. */
  predicate Less(a: string, b: string) {
    b != [] && (a == [] || a[0] < b[0] || (a[0] == b[0] && Less(a[1..], b[1..])))
  }

  lemma {:induction false} LessTransitive(a: string, b: string, c: string)
    requires Less(a, b) && Less(b, c)
    ensures Less(a, c)
    decreases |a|
  {
    if a != [] && a[0] == b[0] && b[0] == c[0] {
      LessTransitive(a[1..], b[1..], c[1..]);
    }
  }

  lemma {:induction false} LessTotal(a: string, b: string)
    ensures Less(a, b) || Less(b, a) || a == b
    ensures !(Less(a, b) && Less(b, a))
    decreases |a|
  {
    if a != [] && b != [] && a[0] == b[0] {
      LessTotal(a[1..], b[1..]);
      assert a == [a[0]] + a[1..] && b == [b[0]] + b[1..];
    }
  }

  /** Where two strings first differ, the first of them ends or has the smaller character. */
  predicate SmallerAt(a: string, b: string, k: int) {
    0 <= k <= |a| && k < |b| && (forall i :: 0 <= i < k ==> a[i] == b[i]) && (k == |a| || a[k] < b[k])
  }

  lemma {:induction false} LessIsLexicographic(a: string, b: string)
    ensures Less(a, b) <==> exists k :: SmallerAt(a, b, k)
    decreases |a|
  {
    if b != [] && (a == [] || a[0] < b[0]) {
      assert SmallerAt(a, b, 0);
    } else if a != [] && b != [] && a[0] == b[0] {
      LessIsLexicographic(a[1..], b[1..]);
      forall k | SmallerAt(a[1..], b[1..], k) ensures SmallerAt(a, b, k + 1) {
        assert forall i :: 0 < i < k + 1 ==> a[i] == a[1..][i - 1] && b[i] == b[1..][i - 1];
      }
      forall k | SmallerAt(a, b, k) ensures SmallerAt(a[1..], b[1..], k - 1) {}
    }
  }

  /** The number a decimal numeral stands for. */
  function Value(s: string): int {
    if s == [] then 0 else Value(s[..|s| - 1]) * 10 + (s[|s| - 1] as int - '0' as int)
  }

  lemma ValueSnoc(s: string, c: char)
    ensures Value(s + [c]) == Value(s) * 10 + (c as int - '0' as int)
  {
    assert (s + [c])[..|s|] == s;
  }

  lemma Digit(d: nat)
    requires d < 10
    ensures DIGITS[d] as int - '0' as int == d && (DIGITS[d] == '0' <==> d == 0)
  {
  }

  lemma {:induction false} Positive(n: nat)
    requires n > 0
    ensures Itoa(n)[0] != '0'
  {
    if n < 10 {
      Digit(n);
    } else {
      Positive(n / 10);
    }
  }

  /** A numeral is made of digits, without a leading zero, and stands for its number. */
  lemma {:induction false} ItoaIsDecimal(n: nat)
    ensures Value(Itoa(n)) == n
    ensures n > 0 ==> Itoa(n)[0] != '0'
    ensures forall i :: 0 <= i < |Itoa(n)| ==> 0 <= Itoa(n)[i] as int - '0' as int < 10
  {
    hide Value;
    if n > 0 { Positive(n); }
    Digit(n % 10);
    if n < 10 {
      ValueSnoc([], DIGITS[n]);
      EmptyValue();
      assert [] + [DIGITS[n]] == Itoa(n);
    } else {
      ItoaIsDecimal(n / 10);
      ValueSnoc(Itoa(n / 10), DIGITS[n % 10]);
    }
  }

  lemma EmptyValue()
    ensures Value([]) == 0
  {
  }
}
