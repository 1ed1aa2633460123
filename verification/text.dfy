/** An optional value: the model's stand-in for java.util.Optional and for
    "no match" results of the recognizers. */
module Optional {

  datatype Option<+T> = None | Some(value: T)
}

/** Character classes and small string utilities shared by the recognizers
    and the controller: the ASCII meaning of Java's default `\d` and `\w`,
    runs of spaces, and decimal rendering of integers as done by
    `String.formatted("%s", id)` on an `Integer`. */
module Text {
  import opened Optional

  /** Java's default `\d`: the ASCII digits only. */
  predicate IsDigit(c: char) {
    '0' <= c <= '9'
  }

  /** Java's default `\w`: ASCII letters, ASCII digits and underscore. */
  predicate IsWordChar(c: char) {
    'a' <= c <= 'z' || 'A' <= c <= 'Z' || IsDigit(c) || c == '_'
  }

  predicate AllDigits(s: string) {
    forall i :: 0 <= i < |s| ==> IsDigit(s[i])
  }

  predicate AllWordChars(s: string) {
    forall i :: 0 <= i < |s| ==> IsWordChar(s[i])
  }

  /** `n` space characters. */
  function Spaces(n: nat): (r: string)
    ensures |r| == n
    ensures forall i :: 0 <= i < n ==> r[i] == ' '
  {
    seq(n, _ => ' ')
  }

  /** Length of the longest prefix of `s` made of spaces (what a greedy ` *` consumes). */
  function LeadingSpaces(s: string): (n: nat)
    ensures n <= |s|
    ensures forall i :: 0 <= i < n ==> s[i] == ' '
    ensures n < |s| ==> s[n] != ' '
  {
    if |s| > 0 && s[0] == ' ' then 1 + LeadingSpaces(s[1..]) else 0
  }

  /** Length of the longest prefix of `s` made of word characters (what a greedy `\w+` consumes). */
  function LeadingWordChars(s: string): (n: nat)
    ensures n <= |s|
    ensures AllWordChars(s[..n])
    ensures n < |s| ==> !IsWordChar(s[n])
  {
    if |s| > 0 && IsWordChar(s[0]) then
      var n := 1 + LeadingWordChars(s[1..]);
      assert s[..n] == [s[0]] + s[1..][..n - 1];
      n
    else 0
  }

  /** Spaces followed by text that does not start with a space: the spaces are exactly the run. */
  lemma {:induction false} LeadingSpacesOfSpaces(n: nat, t: string)
    requires |t| == 0 || t[0] != ' '
    ensures LeadingSpaces(Spaces(n) + t) == n
  {
    if n > 0 {
      assert (Spaces(n) + t)[1..] == Spaces(n - 1) + t;
      LeadingSpacesOfSpaces(n - 1, t);
    } else {
      assert Spaces(n) + t == t;
    }
  }

  /** A run of word characters followed by a non-word character or the end. */
  lemma {:induction false} LeadingWordCharsOfWord(w: string, t: string)
    requires AllWordChars(w)
    requires |t| == 0 || !IsWordChar(t[0])
    ensures LeadingWordChars(w + t) == |w|
  {
    if |w| > 0 {
      assert (w + t)[1..] == w[1..] + t;
      LeadingWordCharsOfWord(w[1..], t);
    } else {
      assert w + t == t;
    }
  }

  /** Cutting `s` at `a` and then `k` characters further on. */
  lemma Cut(s: string, a: nat, k: nat)
    requires a + k <= |s|
    ensures s == s[..a] + s[a..][..k] + s[a..][k..]
  {
    var t := s[a..];
    assert s == s[..a] + t;
    assert t == t[..k] + t[k..];
    Associative(s[..a], t[..k], t[k..]);
  }

  lemma LeadingRunIsSpaces(s: string)
    ensures s[..LeadingSpaces(s)] == Spaces(LeadingSpaces(s))
  {
  }

  lemma Associative(a: string, b: string, c: string)
    ensures a + b + c == a + (b + c)
  {
  }

  function DigitChar(d: nat): (c: char)
    requires d < 10
    ensures IsDigit(c)
  {
    ('0' as int + d) as char
  }

  function DigitValue(c: char): (d: nat)
    requires IsDigit(c)
    ensures d < 10
    ensures DigitChar(d) == c
  {
    c as int - '0' as int
  }

  /** Decimal digits of `n`, most significant first, without leading zeros. */
  function NatToDecimal(n: nat): (r: string)
    ensures IsCanonical(r)
    ensures r[0] == '0' <==> n == 0
  {
    if n < 10 then [DigitChar(n)] else NatToDecimal(n / 10) + [DigitChar(n % 10)]
  }

  /** A string of decimal digits with no leading zero, as `Integer.toString` writes a non-negative number. */
  predicate IsCanonical(s: string) {
    |s| >= 1 && AllDigits(s) && (|s| == 1 || s[0] != '0')
  }

  /** Value of a string of decimal digits (the empty string reads as 0). */
  function DecimalToNat(s: string): nat
    requires AllDigits(s)
  {
    if |s| == 0 then 0 else DecimalToNat(s[..|s| - 1]) * 10 + DigitValue(s[|s| - 1])
  }

  lemma {:induction false} DecimalRoundTrip(n: nat)
    ensures DecimalToNat(NatToDecimal(n)) == n
  {
    var r := NatToDecimal(n);
    if n >= 10 {
      assert r[..|r| - 1] == NatToDecimal(n / 10);
      DecimalRoundTrip(n / 10);
    }
  }

  /** A canonical digit string is the rendering of its own value. */
  lemma {:induction false} CanonicalRoundTrip(s: string)
    requires IsCanonical(s)
    ensures NatToDecimal(DecimalToNat(s)) == s
  {
    var d := DigitValue(s[|s| - 1]);
    if |s| > 1 {
      var front := s[..|s| - 1];
      assert IsCanonical(front) by {
        assert front[0] == s[0];
        assert forall i :: 0 <= i < |front| ==> front[i] == s[i];
      }
      CanonicalRoundTrip(front);
      var m := DecimalToNat(front);
      assert m != 0;
      assert (m * 10 + d) / 10 == m && (m * 10 + d) % 10 == d;
      assert s == front + [s[|s| - 1]];
    } else {
      assert DecimalToNat(s[..0]) == 0;
      assert s == [s[0]];
    }
  }

  /** Java's `Integer.toString`: a minus sign for negative values, then the digits. */
  function IntToDecimal(n: int): (r: string)
    ensures |r| >= 1
    ensures r[0] == '-' <==> n < 0
    ensures n >= 0 ==> IsCanonical(r)
    ensures n < 0 ==> |r| > 1 && IsCanonical(r[1..]) && r[1] != '0'
  {
    if n < 0 then "-" + NatToDecimal(-n) else NatToDecimal(n)
  }

  /** Reads back an integer written as `Integer.toString` writes it; `None`
      for anything else, including leading zeros and `-0`. */
  function ParseInt(s: string): Option<int> {
    if |s| > 1 && s[0] == '-' && IsCanonical(s[1..]) && s[1] != '0' then Some(-(DecimalToNat(s[1..]) as int))
    else if IsCanonical(s) then Some(DecimalToNat(s))
    else None
  }

  /** The rendering of an id can be read back to the same id, so a text that
      embeds `IntToDecimal(id)` determines `id`. */
  lemma IntRoundTrip(n: int)
    ensures ParseInt(IntToDecimal(n)) == Some(n)
  {
    var r := IntToDecimal(n);
    if n < 0 {
      var t := NatToDecimal(-n);
      DecimalRoundTrip(-n);
      assert r[1..] == t && r[0] == '-';
      assert IsCanonical(r[1..]) && r[1] == t[0] != '0';
    } else {
      DecimalRoundTrip(n);
      assert !IsDigit('-');
      assert r[0] != '-';
    }
  }

  /** The parser accepts only renderings: what it reads is the rendering of the value it returns. */
  lemma ParseIntExact(s: string, n: int)
    ensures ParseInt(s) == Some(n) ==> s == IntToDecimal(n)
  {
    if |s| > 1 && s[0] == '-' && IsCanonical(s[1..]) && s[1] != '0' {
      CanonicalRoundTrip(s[1..]);
      assert s == "-" + s[1..];
    } else if IsCanonical(s) {
      CanonicalRoundTrip(s);
      assert !IsDigit('-');
    }
  }
}
