/**
 * The signal-safe integer formatter of tsh.c (sio_itos), used by the
 * SIGCHLD handler to print job and process ids without printf.
 */
module Sio {

  const INT_MIN: int := -0x8000_0000
  const INT_MAX: int := 0x7fff_ffff

  /** Size of the static buffer sio_itos fills, terminating NUL included. */
  const ITOS_BUFFER: nat := 12

  /** The character `d + 48` that sio_itos stores for a digit d. */
  function DigitChar(d: int): (c: char)
    requires 0 <= d < 10
    ensures '0' <= c <= '9'
  {
    (d + 48) as char
  }

  function DigitValue(c: char): int
  {
    c as int - 48
  }

  /** The decimal digits of n, most significant first; empty for 0. */
  function Digits(n: nat): (r: string)
    ensures n > 0 <==> |r| > 0
  {
    if n == 0 then [] else Digits(n / 10) + [DigitChar(n % 10)]
  }

  /** Every character of Digits(n) is a decimal digit, the first one not
      '0'. */
  lemma {:induction false} DigitsShape(n: nat)
    ensures forall k :: 0 <= k < |Digits(n)| ==> '0' <= Digits(n)[k] <= '9'
    ensures n > 0 ==> Digits(n)[0] != '0'
  {
    if n > 0 {
      var d := Digits(n / 10);
      DigitsShape(n / 10);
      assert Digits(n) == d + [DigitChar(n % 10)];
    }
  }

  /** The text sio_itos produces for n: "0", or the digits of |n| with no
      leading zero, preceded by '-' when n is negative. */
  function DecimalString(n: int): (r: string)
    ensures |r| > 0
  {
    if n == 0 then "0"
    else if n < 0 then "-" + Digits(-n)
    else Digits(n)
  }

  /** The text is a '-' exactly for negative numbers, followed by decimal
      digits, with no leading zero unless the number is 0. */
  lemma DecimalStringShape(n: int)
    ensures var r := DecimalString(n);
            && (r[0] == '-' <==> n < 0)
            && (forall k :: (if n < 0 then 1 else 0) <= k < |r| ==> '0' <= r[k] <= '9')
            && (n != 0 ==> |r| > (if n < 0 then 1 else 0) && r[if n < 0 then 1 else 0] != '0')
  {
    if n < 0 {
      DigitsShape(-n);
      assert forall k :: 1 <= k < |DecimalString(n)| ==> DecimalString(n)[k] == Digits(-n)[k - 1];
    } else {
      DigitsShape(n);
    }
  }

  /** Reads a run of decimal digits back as a number. */
  function ParseDigits(s: string): int
  {
    if s == [] then 0 else ParseDigits(s[..|s| - 1]) * 10 + DigitValue(s[|s| - 1])
  }

  /** Reads an optionally signed decimal numeral back as a number. */
  function ParseDecimal(s: string): int
  {
    if |s| > 0 && s[0] == '-' then -ParseDigits(s[1..]) else ParseDigits(s)
  }

  lemma {:induction false} ParseDigitsOfDigits(n: nat)
    ensures ParseDigits(Digits(n)) == n
  {
    if n > 0 {
      var d := Digits(n / 10);
      var c := DigitChar(n % 10);
      assert Digits(n) == d + [c];
      assert (d + [c])[..|d|] == d;
      ParseDigitsOfDigits(n / 10);
    }
  }

  /** Parsing the formatted text gives the number back. */
  lemma {:induction false} DecimalRoundTrip(n: int)
    ensures ParseDecimal(DecimalString(n)) == n
  {
    if n < 0 {
      ParseDigitsOfDigits(-n);
      assert ("-" + Digits(-n))[1..] == Digits(-n);
    } else if n > 0 {
      ParseDigitsOfDigits(n);
      DigitsShape(n);
      assert DecimalString(n) == Digits(n);
      assert Digits(n)[0] != '-';
      assert ParseDecimal(Digits(n)) == ParseDigits(Digits(n));
    } else {
      assert "0"[..0] == [];
    }
  }

  /** Different numbers are formatted differently. */
  lemma DecimalInjective(m: int, n: int)
    requires DecimalString(m) == DecimalString(n)
    ensures m == n
  {
    DecimalRoundTrip(m);
    DecimalRoundTrip(n);
  }

  function Pow10(k: nat): nat
  {
    if k == 0 then 1 else 10 * Pow10(k - 1)
  }

  lemma {:induction false} DigitsLength(n: nat, k: nat)
    requires n < Pow10(k)
    ensures |Digits(n)| <= k
  {
    if n > 0 {
      assert k > 0;
      assert n / 10 < Pow10(k - 1);
      DigitsLength(n / 10, k - 1);
    }
  }

  /** Every C int is formatted into at most 11 characters, so it fits the
      12-byte buffer together with its terminating NUL. */
  lemma DecimalStringFits(n: int)
    requires INT_MIN <= n <= INT_MAX
    ensures |DecimalString(n)| < ITOS_BUFFER
  {
    assert Pow10(10) == 10_000_000_000;
    if n < 0 {
      DigitsLength(-n, 10);
    } else if n > 0 {
      DigitsLength(n, 10);
    }
  }

  function Reversed(s: string): (r: string)
    ensures |r| == |s|
    ensures forall k :: 0 <= k < |s| ==> r[k] == s[|s| - 1 - k]
  {
    if s == [] then [] else [s[|s| - 1]] + Reversed(s[..|s| - 1])
  }

  lemma ReversedTwice(s: string)
    ensures Reversed(Reversed(s)) == s
  {
  }

  /** The second loop of sio_itos: swaps s[l] and s[r] while l < r,
      starting from the ends of s[lo..hi]. */
  method ReverseRange(s: array<char>, lo: nat, hi: nat)
    requires lo <= hi <= s.Length
    modifies s
    ensures forall k :: lo <= k < hi ==> s[k] == old(s[lo + hi - 1 - k])
    ensures forall k :: 0 <= k < lo || hi <= k < s.Length ==> s[k] == old(s[k])
  {
    var l, r := lo, hi - 1;
    while l < r
      invariant lo <= l && l <= r + 1 && l + r == lo + hi - 1 && r < hi
      invariant forall k :: lo <= k < l || r < k < hi ==> s[k] == old(s[lo + hi - 1 - k])
      invariant forall k :: l <= k <= r || 0 <= k < lo || hi <= k < s.Length ==> s[k] == old(s[k])
    {
      var t := s[l];
      s[l] := s[r];
      s[r] := t;
      l, r := l + 1, r - 1;
    }
  }

  /** The first loop of sio_itos: stores the digits of n from s[start] on,
      least significant first, and returns the index after the last one. */
  method PutDigitsReversed(s: array<char>, start: nat, n: nat) returns (i: nat)
    requires start + |Digits(n)| <= s.Length
    modifies s
    ensures i == start + |Digits(n)|
    ensures s[start..i] == Reversed(Digits(n))
    ensures s[..start] == old(s[..start])
  {
    i := start;
    var m := n;
    ghost var tail: string := [];
    while m != 0
      invariant i == start + |tail|
      invariant Digits(n) == Digits(m) + tail
      invariant forall k :: start <= k < i ==> s[k] == tail[i - 1 - k]
      invariant s[..start] == old(s[..start])
    {
      var d := m % 10;
      assert Digits(m) == Digits(m / 10) + [DigitChar(d)];
      m := m / 10;
      s[i] := DigitChar(d);
      tail := [DigitChar(d)] + tail;
      i := i + 1;
    }
  }

  /** The store of the terminating NUL at i: the sign before lo, the
      digits from lo to i and everything after i are left alone. */
  method Terminate(s: array<char>, lo: nat, i: nat)
    requires lo <= i < s.Length
    modifies s
    ensures s[i] == '\0'
    ensures s[..lo] == old(s[..lo]) && s[lo..i] == old(s[lo..i])
    ensures s[i + 1..] == old(s[i + 1..])
  {
    s[i] := '\0';
  }

  /** What ReverseRange does, stated on the contents before and after. */
  lemma ReversedIn(before: seq<char>, after: seq<char>, lo: nat, hi: nat)
    requires lo <= hi <= |before| == |after|
    requires forall k :: lo <= k < hi ==> after[k] == before[lo + hi - 1 - k]
    requires forall k :: 0 <= k < lo ==> after[k] == before[k]
    ensures after[lo..hi] == Reversed(before[lo..hi])
    ensures after[..lo] == before[..lo]
  {
  }

  /** A buffer holding the sign of num and then the digits of its
      magnitude holds the decimal text of num. */
  lemma SignedDigits(t: seq<char>, num: int, start: nat, i: nat)
    requires num != 0 && start == (if num < 0 then 1 else 0) && start <= i <= |t|
    requires t[..start] == (if num < 0 then "-" else "")
    requires t[start..i] == Digits(if num < 0 then -num else num)
    ensures t[..i] == DecimalString(num)
  {
    assert t[..i] == t[..start] + t[start..i];
  }

  /** The part of sio_itos after the sign: the digit loop, the NUL and
      the swap loop leave the digits of n, most significant first, from
      start on, followed by NUL. */
  method PutMagnitude(s: array<char>, start: nat, n: nat) returns (i: nat)
    requires start + |Digits(n)| < s.Length
    modifies s
    ensures i == start + |Digits(n)|
    ensures s[..start] == old(s[..start])
    ensures s[start..i] == Digits(n) && s[i] == '\0'
  {
    i := PutDigitsReversed(s, start, n);
    Terminate(s, start, i);
    ghost var before := s[..];
    ReverseRange(s, start, i);
    ReversedIn(before, s[..], start, i);
    ReversedTwice(Digits(n));
  }

  /**
   * sio_itos: writes the digits least significant first into a 12-byte
   * buffer, after a '-' for negative input, terminates them with NUL and
   * reverses the digits in place with two indices. Negating INT_MIN
   * overflows in C, hence the lower bound.
   */
  method SioItos(num: int) returns (s: array<char>, text: string)
    requires INT_MIN < num <= INT_MAX
    ensures text == DecimalString(num)
    ensures |text| < s.Length <= ITOS_BUFFER
    ensures s[..|text|] == text && s[|text|] == '\0'
  {
    if num == 0 {
      s := new char[2];
      s[0], s[1] := '0', '\0';
      return s, "0";
    }
    s := new char[ITOS_BUFFER];
    var i := 0;
    var n := num;
    if n < 0 {
      n := -n;
      s[i] := '-';
      i := i + 1;
    }
    assert s[..i] == if num < 0 then "-" else "";
    DecimalStringFits(num);
    var start := i;
    i := PutMagnitude(s, start, n);
    SignedDigits(s[..], num, start, i);
    text := s[..i];
  }
}
