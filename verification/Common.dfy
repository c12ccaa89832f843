/** C integers and strings, and what the other modules share. */
module Common {

  datatype Option<T> = None | Some(value: T)

  // ----- integers

  const INT_MIN := -0x8000_0000
  const INT_MAX := 0x7fff_ffff
  const UINT_MOD := 0x1_0000_0000

  /** A C `int`. */
  type Int = n: int | INT_MIN <= n <= INT_MAX

  /** A C `unsigned int` or `uint32_t`. */
  type UInt = n: int | 0 <= n < UINT_MOD

  /** Conversion to `int`: the value modulo 2^32, taken in the signed range. */
  function Wrap(n: int): (r: Int)
    ensures INT_MIN <= n <= INT_MAX ==> r == n
  {
    (n + 0x8000_0000) % 0x1_0000_0000 - 0x8000_0000
  }

  lemma WrapShift(n: int, q: int)
    ensures Wrap(n + 0x1_0000_0000 * q) == Wrap(n)
  {
  }

  lemma WrapSum(a: int, b: int)
    ensures Wrap(Wrap(a) + b) == Wrap(a + b)
  {
    var q := (a + 0x8000_0000) / 0x1_0000_0000;
    assert Wrap(a) + b == (a + b) + 0x1_0000_0000 * (-q);
    WrapShift(a + b, -q);
  }

  // ----- strings

  const NUL: char := '\0'

  /** What the C string functions see of a buffer: the characters before its first NUL. */
  function CString(s: seq<char>): seq<char>
    decreases |s|
  {
    if s == [] || s[0] == NUL then [] else [s[0]] + CString(s[1..])
  }

  lemma {:induction false} CStringIsPrefix(s: seq<char>)
    ensures |CString(s)| <= |s| && CString(s) == s[..|CString(s)|]
    ensures NUL !in CString(s)
    ensures |CString(s)| < |s| ==> s[|CString(s)|] == NUL
    ensures CString(s) == s <==> NUL !in s
    decreases |s|
  {
    if s != [] && s[0] != NUL {
      CStringIsPrefix(s[1..]);
    }
  }

  /** A NUL after NUL-free text ends the string there, whatever follows. */
  lemma {:induction false} CStringUpTo(text: seq<char>, rest: seq<char>)
    requires NUL !in text
    ensures CString(text + [NUL] + rest) == text
    decreases |text|
  {
    var s := text + [NUL] + rest;
    if text != [] {
      assert s[1..] == text[1..] + [NUL] + rest;
      assert s[0] == text[0] && text[0] in text;
      assert forall c :: c in text[1..] ==> c in text;
      CStringUpTo(text[1..], rest);
    }
  }

  // ----- sequences

  lemma Assoc<T>(a: seq<T>, b: seq<T>, c: seq<T>)
    ensures a + (b + c) == (a + b) + c
  {
  }

  /** A stretch of integers, and its size. */
  lemma {:induction false} Interval(lo: int, hi: int) returns (s: set<int>)
    requires lo <= hi
    ensures |s| == hi - lo
    ensures forall x :: x in s <==> lo <= x < hi
    decreases hi - lo
  {
    if lo < hi {
      var rest := Interval(lo, hi - 1);
      s := rest + {hi - 1};
    } else {
      s := {};
    }
  }
}
