/** The decimal text of an `int`, printed and parsed. */
module DecimalText {
  import opened Common

  // ----- digits

  predicate IsDigit(c: char) { '0' <= c <= '9' }
  predicate IsSpace(c: char) { c == ' ' || 9 <= c as int <= 13 }

  function DigitOf(n: nat): (c: char)
    ensures IsDigit(c) && c as int - '0' as int == n % 10
  {
    ('0' as int + n % 10) as char
  }

  function Digits(n: nat): seq<char> {
    if n < 10 then [DigitOf(n)] else Digits(n / 10) + [DigitOf(n)]
  }

  lemma {:induction false} DigitsAreDigits(n: nat)
    ensures Digits(n) != [] && forall c :: c in Digits(n) ==> IsDigit(c)
  {
    if n >= 10 {
      DigitsAreDigits(n / 10);
    }
  }

  /** sprintf("%d") */
  function Decimal(n: int): seq<char> {
    if n < 0 then ['-'] + Digits(-n) else Digits(n)
  }

  function Power10(k: nat): (p: nat)
    ensures p > 0
  {
    if k == 0 then 1 else 10 * Power10(k - 1)
  }

  lemma {:induction false} DigitsLength(n: nat, k: nat)
    requires k > 0 && n < Power10(k)
    ensures |Digits(n)| <= k
    decreases k
  {
    if n >= 10 {
      assert k > 1 by { assert Power10(1) == 10 * Power10(0); }
      DigitsLength(n / 10, k - 1);
    }
  }

  /** Any `int` needs at most eleven characters. */
  lemma DecimalFits(n: Int)
    ensures 0 < |Decimal(n)| <= 11
    ensures NUL !in Decimal(n)
    ensures Decimal(n)[0] == '-' || IsDigit(Decimal(n)[0])
  {
    assert Power10(5) == 100_000;
    assert Power10(10) == 100_000 * Power10(5);
    var m: int := n;
    DigitsLength(if m < 0 then -m else m, 10);
    DigitsAreDigits(if m < 0 then -m else m);
  }

  // ----- atoi

  function Value(acc: nat, s: seq<char>): nat
    decreases |s|
  {
    if s == [] || !IsDigit(s[0]) then acc
    else Value(acc * 10 + (s[0] as int - '0' as int), s[1..])
  }

  function SkipBlanks(s: seq<char>): seq<char>
    decreases |s|
  {
    if s != [] && IsSpace(s[0]) then SkipBlanks(s[1..]) else s
  }

  /** The number strtol finds at the start of a text. */
  function Parse(s: seq<char>): int {
    var t := SkipBlanks(s);
    if t != [] && t[0] == '-' then -(Value(0, t[1..]) as int)
    else if t != [] && t[0] == '+' then Value(0, t[1..])
    else Value(0, t)
  }

  /** atoi: the parsed `long`, converted to `int`. */
  function Atoi(s: seq<char>): Int {
    Wrap(Parse(s))
  }

  lemma {:induction false} ValueConcat(acc: nat, a: seq<char>, b: seq<char>)
    requires forall c :: c in a ==> IsDigit(c)
    ensures Value(acc, a + b) == Value(Value(acc, a), b)
    decreases |a|
  {
    if a == [] {
      assert a + b == b;
    } else {
      assert (a + b)[1..] == a[1..] + b && a[0] in a;
      assert forall c :: c in a[1..] ==> c in a;
      ValueConcat(acc * 10 + (a[0] as int - '0' as int), a[1..], b);
    }
  }

  lemma {:induction false} ValueOfDigits(n: nat)
    ensures Value(0, Digits(n)) == n
  {
    if n < 10 {
      assert [DigitOf(n)][1..] == [];
    } else {
      ValueOfDigits(n / 10);
      DigitsAreDigits(n / 10);
      ValueConcat(0, Digits(n / 10), [DigitOf(n)]);
      assert [DigitOf(n)][1..] == [];
    }
  }

  /** atoi undoes sprintf("%d"). */
  lemma AtoiOfDecimal(n: Int)
    ensures Atoi(Decimal(n)) == n
  {
    var i: int := n;
    var m := if i < 0 then -i else i;
    ValueOfDigits(m);
    DigitsAreDigits(m);
    assert Digits(m)[0] in Digits(m);
    if n < 0 {
      assert Decimal(n)[1..] == Digits(m);
    }
  }

  // ----- texts with blanks, a sign and a tail

  /** The blanks atoi skips. */
  ghost predicate AllBlank(s: seq<char>) {
    forall i :: 0 <= i < |s| ==> s[i] == ' ' || s[i] == '\t' || s[i] == '\n' || s[i] == '\r' || s[i] as int == 11 || s[i] as int == 12
  }

  lemma {:induction false} SkipAllBlank(blanks: seq<char>, s: seq<char>)
    requires AllBlank(blanks) && s != [] && !IsSpace(s[0])
    ensures SkipBlanks(blanks + s) == s
    decreases |blanks|
  {
    if blanks == [] {
      assert blanks + s == s;
    } else {
      assert (blanks + s)[1..] == blanks[1..] + s;
      SkipAllBlank(blanks[1..], s);
    }
  }

  lemma ValueBeforeTail(n: nat, tail: seq<char>)
    requires tail == [] || !('0' <= tail[0] <= '9')
    ensures Value(0, Digits(n) + tail) == n
  {
    DigitsAreDigits(n);
    ValueConcat(0, Digits(n), tail);
    ValueOfDigits(n);
  }

  /** atoi reads a number after blanks and a sign, up to the first byte that is not a digit. */
  lemma ParseWithTail(blanks: seq<char>, sign: seq<char>, n: nat, tail: seq<char>)
    requires AllBlank(blanks) && (sign == [] || sign == ['+'] || sign == ['-'])
    requires tail == [] || !('0' <= tail[0] <= '9')
    ensures Parse(blanks + (sign + (Digits(n) + tail))) == (if sign == ['-'] then -1 else 1) * n
  {
    var digits := Digits(n) + tail;
    DigitsAreDigits(n);
    assert Digits(n)[0] in Digits(n) && digits[0] == Digits(n)[0];
    ValueBeforeTail(n, tail);
    SkipAllBlank(blanks, sign + digits);
    if sign == [] {
      assert sign + digits == digits;
    } else {
      assert (sign + digits)[1..] == digits;
    }
  }

  lemma OneMoreDigit(acc: nat, d: nat, q: nat)
    requires d < 10
    ensures (acc * 10 + d + 1) * q <= (acc + 1) * (10 * q)
  {
    assert (acc + 1) * (10 * q) == (acc * 10 + 10) * q;
    assert (acc * 10 + 10) * q == (acc * 10 + d + 1) * q + (9 - d) * q;
    assert (9 - d) * q >= 0;
  }

  lemma {:induction false} ValueBound(acc: nat, s: seq<char>)
    ensures Value(acc, s) < (acc + 1) * Power10(|s|)
    decreases |s|
  {
    if s == [] || !IsDigit(s[0]) {
      NotLess(acc + 1, Power10(|s|));
    } else {
      var d := s[0] as int - '0' as int;
      ValueBound(acc * 10 + d, s[1..]);
      OneMoreDigit(acc, d, Power10(|s| - 1));
    }
  }

  lemma NotLess(n: nat, p: nat)
    requires p > 0
    ensures n <= n * p
  {
  }

  lemma {:induction false} SkipBlanksShortens(s: seq<char>)
    ensures |SkipBlanks(s)| <= |s|
    decreases |s|
  {
    if s != [] && IsSpace(s[0]) {
      SkipBlanksShortens(s[1..]);
    }
  }

  lemma {:induction false} Power10Grows(j: nat, k: nat)
    requires j <= k
    ensures Power10(j) <= Power10(k)
    decreases k
  {
    if j < k {
      Power10Grows(j, k - 1);
    }
  }

  /** Eleven characters never overflow a `long`, so strtol parses them exactly. */
  lemma {:induction false} ParseFitsLong(s: seq<char>)
    requires |s| <= 11
    ensures -0x8000_0000_0000_0000 < Parse(s) < 0x8000_0000_0000_0000
  {
    SkipBlanksShortens(s);
    var t := SkipBlanks(s);
    var digits := if t != [] && (t[0] == '-' || t[0] == '+') then t[1..] else t;
    ValueBound(0, digits);
    Power10Grows(|digits|, 11);
    assert Power10(5) == 100_000;
    assert Power10(11) == 1_000_000 * Power10(5);
  }
}
