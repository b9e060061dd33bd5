/** Character-sequence helpers shared by the protocol modules: an option type,
    the searches the C++ code performs with `std::search`, `find_last_of` and
    friends, and `std::to_string` on integers together with its reader. */
module Text {

  datatype Option<T> = None | Some(value: T)

  /** True when the two-character sequence CR LF starts at index `k` of `s`. */
  predicate CrlfAt(s: string, k: int)
  {
    0 <= k && k + 1 < |s| && s[k] == '\r' && s[k + 1] == '\n'
  }

  /** Index of the first CR LF in `s`, or `|s|` when there is none
      (`std::search` returns the end iterator when nothing matches). */
  function FindCrlf(s: string): (r: nat)
    ensures r <= |s|
    ensures r < |s| ==> CrlfAt(s, r)
    ensures forall k :: 0 <= k < r ==> !CrlfAt(s, k)
  {
    if |s| < 2 then |s|
    else if s[0] == '\r' && s[1] == '\n' then 0
    else
      var r' := FindCrlf(s[1..]);
      assert forall k :: 1 <= k < 1 + r' ==> !CrlfAt(s, k) by {
        forall k | 1 <= k < 1 + r' ensures !CrlfAt(s, k) {
          assert !CrlfAt(s[1..], k - 1);
        }
      }
      assert r' < |s| - 1 ==> CrlfAt(s[1..], r');
      1 + r'
  }

  /** Index of the first occurrence of `c` in `s`. */
  function IndexOf(s: string, c: char): (r: Option<nat>)
    ensures r.Some? ==> r.value < |s| && s[r.value] == c && c !in s[..r.value]
    ensures r.None? ==> c !in s
  {
    if |s| == 0 then None
    else if s[0] == c then Some(0)
    else
      match IndexOf(s[1..], c)
      case None => None
      case Some(k) =>
        assert s[..k + 1] == [s[0]] + s[1..][..k];
        Some(k + 1)
  }

  /** Index of the last occurrence of `c` in `s` (`find_last_of` with one character). */
  function LastIndexOf(s: string, c: char): (r: Option<nat>)
    ensures r.Some? ==> r.value < |s| && s[r.value] == c && c !in s[r.value + 1..]
    ensures r.None? ==> c !in s
  {
    if |s| == 0 then None
    else if s[|s| - 1] == c then Some(|s| - 1)
    else
      var r' := LastIndexOf(s[..|s| - 1], c);
      assert s == s[..|s| - 1] + [s[|s| - 1]];
      if r'.Some? then
        assert s[r'.value + 1..] == s[..|s| - 1][r'.value + 1..] + [s[|s| - 1]];
        r'
      else r'
  }

  predicate IsDigit(c: char)
  {
    '0' <= c <= '9'
  }

  predicate AllDigits(s: string)
  {
    forall k :: 0 <= k < |s| ==> IsDigit(s[k])
  }

  function DigitChar(d: nat): (c: char)
    requires d < 10
    ensures IsDigit(c) && c as int - '0' as int == d
  {
    ('0' as int + d) as char
  }

  /** The value a reader gives to a run of decimal digits. */
  function DecimalValue(s: string): nat
    requires AllDigits(s)
  {
    if |s| == 0 then 0
    else 10 * DecimalValue(s[..|s| - 1]) + (s[|s| - 1] as int - '0' as int)
  }

  /** `std::to_string` on a non-negative integer: shortest decimal numeral. */
  function NatToDecimal(n: nat): (r: string)
    ensures |r| > 0 && AllDigits(r)
    ensures |r| > 1 ==> r[0] != '0'
  {
    if n < 10 then [DigitChar(n)]
    else NatToDecimal(n / 10) + [DigitChar(n % 10)]
  }

  /** `std::to_string` on an `int`: a minus sign before the magnitude when negative. */
  function IntToDecimal(i: int): (r: string)
    ensures i >= 0 ==> AllDigits(r) && DecimalValue(r) == i
    ensures i < 0 ==> |r| > 1 && r[0] == '-' && AllDigits(r[1..]) && DecimalValue(r[1..]) == -i
  {
    if i < 0 then
      var m := NatToDecimal(-i);
      DecimalRoundTrip(-i);
      assert ("-" + m)[1..] == m;
      "-" + m
    else
      DecimalRoundTrip(i);
      NatToDecimal(i)
  }

  /** Reading back what `NatToDecimal` writes gives the number written. */
  lemma {:induction false} DecimalRoundTrip(n: nat)
    ensures DecimalValue(NatToDecimal(n)) == n
  {
    if n >= 10 {
      var front := NatToDecimal(n / 10);
      var r := front + [DigitChar(n % 10)];
      assert r[..|r| - 1] == front;
      DecimalRoundTrip(n / 10);
    }
  }

  /** A numeral is the only shortest one for its value: `NatToDecimal` is
      the inverse of `DecimalValue` on numerals without a leading zero. */
  lemma {:induction false} DecimalUnique(s: string)
    requires |s| > 0 && AllDigits(s)
    requires |s| > 1 ==> s[0] != '0'
    ensures NatToDecimal(DecimalValue(s)) == s
    decreases |s|
  {
    var front := s[..|s| - 1];
    var d := s[|s| - 1] as int - '0' as int;
    if |s| == 1 {
      assert DecimalValue(s) == 10 * DecimalValue(front) + d;
      assert DecimalValue(s) == d;
      assert [DigitChar(d)] == s;
    } else {
      DecimalUnique(front);
      assert front[0] == s[0];
      LeadingDigitPositive(front);
      var n := DecimalValue(s);
      assert n == 10 * DecimalValue(front) + d;
      assert n / 10 == DecimalValue(front) && n % 10 == d;
      assert NatToDecimal(n) == NatToDecimal(n / 10) + [DigitChar(n % 10)];
      assert s == front + [s[|s| - 1]];
    }
  }

  /** A numeral that does not start with `0` has a positive value. */
  lemma {:induction false} LeadingDigitPositive(s: string)
    requires |s| > 0 && AllDigits(s) && s[0] != '0'
    ensures DecimalValue(s) > 0
    decreases |s|
  {
    if |s| > 1 {
      LeadingDigitPositive(s[..|s| - 1]);
    }
  }

  /** A CR LF placed right after a run of characters without CR is the first one. */
  lemma FindCrlfAfter(a: string, b: string)
    requires '\r' !in a
    ensures FindCrlf(a + "\r\n" + b) == |a|
  {
    var s := a + "\r\n" + b;
    assert CrlfAt(s, |a|);
    forall k | 0 <= k < |a| ensures !CrlfAt(s, k) {
      assert s[k] == a[k];
    }
  }

  /** Without a CR there is no CR LF: the whole text is one line. */
  lemma FindCrlfNone(s: string)
    requires '\r' !in s
    ensures FindCrlf(s) == |s|
  {
    assert forall k :: 0 <= k < |s| ==> s[k] != '\r';
  }

  /** The first occurrence of `c` is found right after a prefix free of `c`. */
  lemma IndexOfAfter(a: string, c: char, b: string)
    requires c !in a
    ensures IndexOf(a + [c] + b, c) == Some(|a|)
  {
    var s := a + [c] + b;
    assert s[|a|] == c;
    assert forall k :: 0 <= k < |a| ==> s[k] == a[k];
  }

  /** The last occurrence of `c` is found right before a suffix free of `c`. */
  lemma {:induction false} LastIndexOfBefore(a: string, c: char, b: string)
    requires c !in b
    ensures LastIndexOf(a + [c] + b, c) == Some(|a|)
    decreases |b|
  {
    var s := a + [c] + b;
    if |b| > 0 {
      assert s[|s| - 1] == b[|b| - 1];
      assert s[..|s| - 1] == a + [c] + b[..|b| - 1];
      assert c !in b[..|b| - 1] by {
        assert forall x :: x in b[..|b| - 1] ==> x in b;
      }
      LastIndexOfBefore(a, c, b[..|b| - 1]);
    } else {
      assert s[|s| - 1] == c;
    }
  }
}
