/** The text the rule engine builds: lists of the form "a, b and c", and
    prices written the way Rust's `{}` writes the `f64` value of a whole
    number of tenths ("14", "10.5", "7.5"). */
module Text {
  import opened Outcomes

  /** What the enumerating loops push before item `i` of `n`: nothing
      before the first, " and " before the last, ", " before the others. */
  function Separator(i: nat, n: nat): string
  {
    if i == 0 then "" else if i == n - 1 then " and " else ", "
  }

  /** The text an enumerating loop has written after its first `i` rounds,
      starting from `prefix`. */
  function Enumerated(prefix: string, items: seq<string>, i: nat): string
    requires i <= |items|
  {
    if i == 0 then prefix else Enumerated(prefix, items, i - 1) + Separator(i - 1, |items|) + items[i - 1]
  }

  lemma AppendAssoc(a: string, b: string, c: string)
    ensures a + b + c == a + (b + c)
  {
  }

  /** The items joined by ", ". */
  function CommaJoin(items: seq<string>): string
  {
    if |items| == 0 then ""
    else if |items| == 1 then items[0]
    else CommaJoin(items[..|items| - 1]) + ", " + items[|items| - 1]
  }

  /** An English list: "a", "a and b", "a, b and c". */
  function ListPhrase(items: seq<string>): string
  {
    if |items| <= 1 then CommaJoin(items)
    else CommaJoin(items[..|items| - 1]) + " and " + items[|items| - 1]
  }

  /** Before the last round, an enumerating loop has written a comma list. */
  lemma {:induction false} EnumeratedIsCommaJoin(prefix: string, items: seq<string>, k: nat)
    requires k < |items|
    ensures Enumerated(prefix, items, k) == prefix + CommaJoin(items[..k])
  {
    if k == 0 {
      assert prefix + "" == prefix;
    } else {
      EnumeratedIsCommaJoin(prefix, items, k - 1);
      var joined := CommaJoin(items[..k - 1]);
      assert items[..k][..k - 1] == items[..k - 1];
      if k == 1 {
        assert prefix + "" == prefix;
      } else {
        assert CommaJoin(items[..k]) == joined + ", " + items[k - 1];
        AppendAssoc(prefix, joined, ", ");
        AppendAssoc(prefix, joined + ", ", items[k - 1]);
      }
    }
  }

  /** Running an enumerating loop to the end writes the English list. */
  lemma {:induction false} EnumeratedIsListPhrase(prefix: string, items: seq<string>)
    ensures Enumerated(prefix, items, |items|) == prefix + ListPhrase(items)
  {
    var n := |items|;
    if n == 0 {
      assert prefix + "" == prefix;
    } else {
      EnumeratedIsCommaJoin(prefix, items, n - 1);
      if n == 1 {
        assert prefix + "" == prefix;
      } else {
        var joined := CommaJoin(items[..n - 1]);
        AppendAssoc(prefix, joined, " and ");
        AppendAssoc(prefix, joined + " and ", items[n - 1]);
      }
    }
  }

  predicate IsDigit(c: char)
  {
    '0' <= c <= '9'
  }

  function DigitChar(d: nat): (c: char)
    requires d < 10
    ensures IsDigit(c)
  {
    ('0' as int + d) as char
  }

  function DigitValue(c: char): (d: nat)
    requires IsDigit(c)
    ensures d < 10
  {
    c as int - '0' as int
  }

  /** Decimal digits of `n`, without leading zeros. */
  function FormatNat(n: nat): (s: string)
    ensures |s| >= 1 && forall i | 0 <= i < |s| :: IsDigit(s[i])
    ensures n > 0 ==> s[0] != '0'
    ensures |s| > 1 ==> s[0] != '0'
  {
    if n < 10 then [DigitChar(n)] else FormatNat(n / 10) + [DigitChar(n % 10)]
  }

  /** The value of a nonempty string of decimal digits. */
  function ParseNat(s: string): Option<nat>
  {
    if s == [] || !IsDigit(s[|s| - 1]) then None
    else if |s| == 1 then Some(DigitValue(s[0]))
    else match ParseNat(s[..|s| - 1])
      case None => None
      case Some(w) => Some(w * 10 + DigitValue(s[|s| - 1]))
  }

  lemma {:induction false} ParseFormatNat(n: nat)
    ensures ParseNat(FormatNat(n)) == Some(n)
  {
    if n >= 10 {
      var s := FormatNat(n);
      assert s[..|s| - 1] == FormatNat(n / 10);
      ParseFormatNat(n / 10);
    }
  }

  /** A non-negative price in tenths of a million as `{}` writes the `f64`
      number of millions: the whole millions, then "." and the tenths digit
      unless it is zero. */
  function FormatMillions(t: nat): (s: string)
    ensures |s| >= 1 && IsDigit(s[0]) && IsDigit(s[|s| - 1])
    ensures '.' in s <==> t % 10 != 0
  {
    if t % 10 == 0 then FormatNat(t / 10) else FormatNat(t / 10) + ("." + [DigitChar(t % 10)])
  }

  /** Any price in tenths, with a minus sign in front of a negative one. */
  function FormatPrice(tenths: int): (s: string)
    ensures |s| >= 1 && IsDigit(s[|s| - 1])
    ensures s[0] == '-' <==> tenths < 0
    ensures '.' in s <==> (if tenths < 0 then -tenths else tenths) % 10 != 0
  {
    if tenths < 0 then "-" + FormatMillions(-tenths) else FormatMillions(tenths)
  }

  /** Reads a non-negative price written by `FormatMillions`, in tenths. */
  function ParseMillions(s: string): Option<int>
  {
    if |s| >= 3 && s[|s| - 2] == '.' && IsDigit(s[|s| - 1]) then
      match ParseNat(s[..|s| - 2])
      case None => None
      case Some(w) => Some(w * 10 + DigitValue(s[|s| - 1]))
    else
      match ParseNat(s)
      case None => None
      case Some(w) => Some(w * 10)
  }

  /** Reads a price written by `FormatPrice`, in tenths. */
  function ParsePrice(s: string): Option<int>
  {
    if |s| > 0 && s[0] == '-' then
      match ParseMillions(s[1..])
      case None => None
      case Some(t) => Some(-t)
    else ParseMillions(s)
  }

  lemma ParseFormatMillions(t: nat)
    ensures ParseMillions(FormatMillions(t)) == Some(t)
  {
    var whole := FormatNat(t / 10);
    ParseFormatNat(t / 10);
    if t % 10 == 0 {
      if |whole| >= 2 {
        assert IsDigit(whole[|whole| - 2]);
      }
    } else {
      ParseFractional(whole, t / 10, DigitChar(t % 10));
    }
  }

  /** Reading back whole millions, a point and a tenths digit. */
  lemma ParseFractional(whole: string, w: nat, d: char)
    requires IsDigit(d)
    requires ParseNat(whole) == Some(w)
    ensures ParseMillions(whole + ("." + [d])) == Some(w * 10 + DigitValue(d))
  {
    var s := whole + ("." + [d]);
    assert |whole| > 0;
    assert s[..|s| - 2] == whole;
    assert s[|s| - 2] == '.' && s[|s| - 1] == d;
  }

  /** Printing a price loses nothing: the text gives the price back. */
  lemma ParseFormatPrice(tenths: int)
    ensures ParsePrice(FormatPrice(tenths)) == Some(tenths)
  {
    var magnitude := if tenths < 0 then -tenths else tenths;
    ParseFormatMillions(magnitude);
    var unsigned := FormatMillions(magnitude);
    assert IsDigit(unsigned[0]);
    if tenths < 0 {
      assert FormatPrice(tenths)[1..] == unsigned;
    }
  }

  /** Different prices are printed differently. */
  lemma FormatPriceInjective(a: int, b: int)
    requires FormatPrice(a) == FormatPrice(b)
    ensures a == b
  {
    ParseFormatPrice(a);
    ParseFormatPrice(b);
  }
}
