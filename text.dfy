/** Text primitives the genre selector relies on: lower-casing a string
    (JavaScript's `toLowerCase`, restricted to ASCII letters), the decimal
    text of a number (`Number.prototype.toString` on a non-negative
    integer), reading such text back, and searching for a character. */
module Text {

  datatype Option<T> = None | Some(value: T)

  predicate IsUpper(c: char) { 'A' <= c <= 'Z' }

  predicate IsDigit(c: char) { '0' <= c <= '9' }

  predicate AllDigits(s: string) { forall i :: 0 <= i < |s| ==> IsDigit(s[i]) }

  /** Lower-case one character: 'A'..'Z' map to 'a'..'z', everything else is kept. */
  function LowerChar(c: char): (d: char)
    ensures !IsUpper(d)
    ensures d == c <==> !IsUpper(c)
    ensures IsUpper(c) ==> 'a' <= d <= 'z' && d as int - 'a' as int == c as int - 'A' as int
  {
    if IsUpper(c) then (c as int - 'A' as int + 'a' as int) as char else c
  }

  /** The string with every character lower-cased. */
  function Lower(s: string): (r: string)
    ensures |r| == |s|
    ensures forall i :: 0 <= i < |s| ==> r[i] == LowerChar(s[i])
  {
    seq(|s|, i requires 0 <= i < |s| => LowerChar(s[i]))
  }

  /** Lower-casing twice is lower-casing once. */
  lemma LowerIdempotent(s: string)
    ensures Lower(Lower(s)) == Lower(s)
  {
    var once := Lower(s);
    forall i | 0 <= i < |s| ensures Lower(once)[i] == once[i] {
      assert !IsUpper(once[i]);
    }
  }

  /** Lower-casing leaves a string of digits unchanged. */
  lemma LowerKeepsDigits(s: string)
    requires AllDigits(s)
    ensures Lower(s) == s
  {
    forall i | 0 <= i < |s| ensures Lower(s)[i] == s[i] {
      assert IsDigit(s[i]);
    }
  }

  function DigitChar(d: nat): (c: char)
    requires d < 10
    ensures IsDigit(c) && c as int - '0' as int == d
  {
    ('0' as int + d) as char
  }

  function DigitValue(c: char): (d: nat)
    requires IsDigit(c)
    ensures d < 10 && DigitChar(d) == c
  {
    c as int - '0' as int
  }

  /** The shape of the text `toString` gives a non-negative integer:
      non-empty, only digits, and no leading zero unless it is "0" itself. */
  predicate IsCanonicalDecimal(s: string)
  {
    |s| > 0 && AllDigits(s) && (s[0] == '0' ==> |s| == 1)
  }

  /** The decimal text of `n`, most significant digit first. */
  function Decimal(n: nat): (s: string)
    ensures IsCanonicalDecimal(s)
    ensures s[0] == '0' <==> n == 0
    decreases n
  {
    if n < 10 then [DigitChar(n)] else Decimal(n / 10) + [DigitChar(n % 10)]
  }

  /** The number a string of decimal digits denotes. */
  function ParseDecimal(s: string): nat
    requires AllDigits(s)
    decreases |s|
  {
    if s == [] then 0 else ParseDecimal(s[..|s| - 1]) * 10 + DigitValue(s[|s| - 1])
  }

  /** Reading back the decimal text of a number gives that number. */
  lemma {:induction false} DecimalRoundTrip(n: nat)
    ensures ParseDecimal(Decimal(n)) == n
    decreases n
  {
    if n >= 10 {
      var s := Decimal(n);
      assert s[..|s| - 1] == Decimal(n / 10);
      DecimalRoundTrip(n / 10);
    }
  }

  /** Every canonical decimal text is the text of the number it denotes. */
  lemma {:induction false} ParseRoundTrip(s: string)
    requires IsCanonicalDecimal(s)
    ensures Decimal(ParseDecimal(s)) == s
    decreases |s|
  {
    var last := s[|s| - 1];
    var p := s[..|s| - 1];
    if |s| == 1 {
      assert p == [];
      assert Decimal(ParseDecimal(s)) == [DigitChar(DigitValue(last))];
    } else {
      assert p[0] == s[0] && s[0] != '0';
      ParseRoundTrip(p);
      var v := ParseDecimal(p);
      assert v != 0;
      var n := v * 10 + DigitValue(last);
      assert n / 10 == v && n % 10 == DigitValue(last);
      assert Decimal(n) == p + [last];
      assert p + [last] == s;
    }
  }

  /** A string is the decimal text of `n` exactly when it is a canonical
      numeral denoting `n`. */
  lemma DecimalMatches(s: string, n: nat)
    ensures s == Decimal(n) <==> IsCanonicalDecimal(s) && ParseDecimal(s) == n
  {
    DecimalRoundTrip(n);
    if IsCanonicalDecimal(s) {
      ParseRoundTrip(s);
    }
  }

  /** Lower-casing never produces a numeral from anything but that numeral:
      the input is the decimal text of `n` exactly when its lower-cased
      form is. */
  lemma LowerIsDecimal(s: string, n: nat)
    ensures Lower(s) == Decimal(n) <==> s == Decimal(n)
  {
    var d := Decimal(n);
    LowerKeepsDigits(d);
    if Lower(s) == d {
      forall i | 0 <= i < |s| ensures s[i] == d[i] {
        assert IsDigit(LowerChar(s[i]));
      }
    }
  }

  /** Different numbers have different decimal texts. */
  lemma DecimalInjective(m: nat, n: nat)
    requires Decimal(m) == Decimal(n)
    ensures m == n
  {
    DecimalRoundTrip(m);
    DecimalRoundTrip(n);
  }

  /** The position of the first occurrence of `c` in `s`, if any. */
  function IndexOf(s: string, c: char): (r: Option<nat>)
    ensures r.Some? ==> r.value < |s| && s[r.value] == c && c !in s[..r.value]
    ensures r.None? ==> c !in s
    decreases |s|
  {
    if |s| == 0 then None
    else if s[0] == c then Some(0)
    else match IndexOf(s[1..], c)
      case None => None
      case Some(k) => Some(k + 1)
  }

  /** `c` is found right after a prefix that does not hold it. */
  lemma IndexOfAfter(p: string, c: char, q: string)
    requires c !in p
    ensures IndexOf(p + [c] + q, c) == Some(|p|)
  {
    var s := p + [c] + q;
    assert s[|p|] == c;
    assert s[..|p|] == p;
  }
}
