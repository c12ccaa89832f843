/**
 The dotted-quad parser `inet_ston`: one pass over the text, collecting octets
 into a four-byte scratch buffer, checked against splitting the text at dots.
 */
module DottedQuad {
  import opened DecimalText

  // ----- the reference: split at dots, then convert each part

  /** Where the address ends: at a slash, a dash or the end of the string. */
  predicate IsStop(c: char) { c == '/' || c == '-' }

  function Stem(s: seq<char>): seq<char>
    decreases |s|
  {
    if s == [] || IsStop(s[0]) then [] else [s[0]] + Stem(s[1..])
  }

  function Split(s: seq<char>): (parts: seq<seq<char>>)
    ensures parts != []
    decreases |s|
  {
    if s == [] then [[]]
    else
      var init, c := Split(s[..|s| - 1]), s[|s| - 1];
      if c == '.' then init + [[]] else init[|init| - 1 := init[|init| - 1] + [c]]
  }

  predicate AllDigits(s: seq<char>) {
    forall i :: 0 <= i < |s| ==> IsDigit(s[i])
  }

  function Number(s: seq<char>): nat
    decreases |s|
  {
    if s == [] then 0
    else Number(s[..|s| - 1]) * 10 + if IsDigit(s[|s| - 1]) then s[|s| - 1] as int - '0' as int else 0
  }

  /** A non-empty digit string of value at most 255; leading zeros are allowed. */
  predicate IsOctet(s: seq<char>) {
    s != [] && AllDigits(s) && Number(s) <= 255
  }

  ghost predicate IsQuad(parts: seq<seq<char>>) {
    |parts| == 4 && forall k :: 0 <= k < 4 ==> IsOctet(parts[k])
  }

  // ----- extending a prefix

  ghost predicate IsPrefix(a: seq<char>, b: seq<char>) {
    |a| <= |b| && forall i :: 0 <= i < |a| ==> b[i] == a[i]
  }

  /** Further text keeps every finished part and only extends the last one. */
  ghost predicate Extends(parts: seq<seq<char>>, more: seq<seq<char>>) {
    && 0 < |parts| <= |more|
    && (forall k :: 0 <= k < |parts| - 1 ==> more[k] == parts[k])
    && IsPrefix(parts[|parts| - 1], more[|parts| - 1])
  }

  lemma ExtendsOne(parts: seq<seq<char>>, more: seq<seq<char>>, c: char)
    requires Extends(parts, more)
    ensures Extends(parts, more + [[]])
    ensures Extends(parts, more[|more| - 1 := more[|more| - 1] + [c]])
  {
  }

  lemma {:induction false} SplitExtends(s: seq<char>, i: nat)
    requires i <= |s|
    ensures Extends(Split(s[..i]), Split(s))
    decreases |s|
  {
    if i == |s| {
      assert s[..i] == s;
    } else {
      var init := s[..|s| - 1];
      assert init[..i] == s[..i];
      SplitExtends(init, i);
      ExtendsOne(Split(s[..i]), Split(init), s[|s| - 1]);
    }
  }

  lemma {:induction false} NumberGrows(a: seq<char>, b: seq<char>)
    requires IsPrefix(a, b)
    ensures Number(a) <= Number(b)
    decreases |b|
  {
    if |a| == |b| {
      assert a == b;
    } else {
      NumberGrows(a, b[..|b| - 1]);
    }
  }

  /** A part that is too large, or holds something other than a digit, stays wrong whatever follows. */
  lemma BadPartStaysBad(s: seq<char>, i: nat)
    requires i <= |s|
    requires var parts := Split(s[..i]);
             || !AllDigits(parts[|parts| - 1])
             || Number(parts[|parts| - 1]) > 255
             || |parts| > 4
             || exists k :: 0 <= k < |parts| - 1 && parts[k] == []
    ensures !IsQuad(Split(s))
  {
    SplitExtends(s, i);
    var parts, all := Split(s[..i]), Split(s);
    var n := |parts| - 1;
    NumberGrows(parts[n], all[n]);
    if !AllDigits(parts[n]) {
      var m :| 0 <= m < |parts[n]| && !IsDigit(parts[n][m]);
      assert !IsDigit(all[n][m]);
      assert !IsOctet(all[n]);
    } else if k :| 0 <= k < n && parts[k] == [] {
      assert !IsOctet(all[k]);
    } else if Number(parts[n]) > 255 {
      assert !IsOctet(all[n]);
    }
  }

  // ----- the one-pass parser

  lemma {:induction false} StemIsPrefix(s: seq<char>)
    ensures var n := |Stem(s)|;
            && n <= |s| && Stem(s) == s[..n]
            && (forall i :: 0 <= i < n ==> !IsStop(s[i]))
            && (n < |s| ==> IsStop(s[n]))
    decreases |s|
  {
    if s != [] && !IsStop(s[0]) {
      StemIsPrefix(s[1..]);
    }
  }

  /** What the scratch state says of the parts read so far. */
  ghost predicate Holds(parts: seq<seq<char>>, tmp: seq<int>, tp: nat, octets: int, sawDigit: bool) {
    && tp < 4 && |tmp| == 4 && |parts| == tp + 1
    && (forall k :: 0 <= k < tp ==> IsOctet(parts[k]) && tmp[k] == Number(parts[k]))
    && AllDigits(parts[tp]) && tmp[tp] == Number(parts[tp]) <= 255
    && (sawDigit <==> parts[tp] != [])
    && octets == tp + if sawDigit then 1 else 0
  }

  ghost predicate Scanned(text: seq<char>, i: nat, tmp: seq<int>, tp: nat, octets: int, sawDigit: bool) {
    i <= |text| && Holds(Split(text[..i]), tmp, tp, octets, sawDigit)
  }

  lemma AppendDigit(part: seq<char>, c: char)
    requires AllDigits(part) && IsDigit(c)
    ensures AllDigits(part + [c]) && Number(part + [c]) == Number(part) * 10 + (c as int - '0' as int)
  {
    assert (part + [c])[..|part|] == part;
  }

  lemma HoldsDigit(parts: seq<seq<char>>, tmp: seq<int>, tp: nat, octets: int, sawDigit: bool, c: char)
    requires Holds(parts, tmp, tp, octets, sawDigit) && IsDigit(c)
    ensures var part := parts[tp] + [c];
            var n := tmp[tp] * 10 + (c as int - '0' as int);
            && Number(part) == n
            && (n <= 255 ==>
                  Holds(parts[tp := part], tmp[tp := n], tp, if sawDigit then octets else octets + 1, true))
  {
    AppendDigit(parts[tp], c);
  }

  lemma HoldsDot(parts: seq<seq<char>>, tmp: seq<int>, tp: nat, octets: int)
    requires Holds(parts, tmp, tp, octets, true) && octets < 4
    ensures tp < 3 && Holds(parts + [[]], tmp[tp + 1 := 0], tp + 1, octets, false)
  {
    var more := parts + [[]];
    assert forall k :: 0 <= k <= tp ==> more[k] == parts[k];
  }

  lemma SplitNext(text: seq<char>, i: nat)
    requires i < |text|
    ensures var parts := Split(text[..i]);
            Split(text[..i + 1])
            == if text[i] == '.' then parts + [[]] else parts[|parts| - 1 := parts[|parts| - 1] + [text[i]]]
  {
    assert text[..i + 1][..i] == text[..i];
  }

  lemma {:induction false} ScanDigit(text: seq<char>, i: nat, tmp: seq<int>, tp: nat, octets: int, sawDigit: bool)
    requires Scanned(text, i, tmp, tp, octets, sawDigit) && i < |text| && IsDigit(text[i])
    ensures var n := tmp[tp] * 10 + (text[i] as int - '0' as int);
            if n > 255 then !IsQuad(Split(text))
            else Scanned(text, i + 1, tmp[tp := n], tp, if sawDigit then octets else octets + 1, true)
  {
    var parts := Split(text[..i]);
    var more := parts[tp := parts[tp] + [text[i]]];
    SplitNext(text, i);
    assert |parts| == tp + 1 && Split(text[..i + 1]) == more;
    HoldsDigit(parts, tmp, tp, octets, sawDigit, text[i]);
    if Number(more[tp]) > 255 {
      TooLarge(text, i + 1, more);
    }
  }

  lemma TooLarge(text: seq<char>, i: nat, parts: seq<seq<char>>)
    requires i <= |text| && Split(text[..i]) == parts && Number(parts[|parts| - 1]) > 255
    ensures !IsQuad(Split(text))
  {
    BadPartStaysBad(text, i);
  }

  lemma ScanDot(text: seq<char>, i: nat, tmp: seq<int>, tp: nat, octets: int, sawDigit: bool)
    requires Scanned(text, i, tmp, tp, octets, sawDigit) && i < |text| && text[i] == '.'
    ensures if !sawDigit || octets == 4 then !IsQuad(Split(text))
            else tp < 3 && Scanned(text, i + 1, tmp[tp + 1 := 0], tp + 1, octets, false)
  {
    SplitNext(text, i);
    var parts, more := Split(text[..i]), Split(text[..i + 1]);
    assert more == parts + [[]];
    if !sawDigit {
      assert more[tp] == [];
      BadPartStaysBad(text, i + 1);
    } else if octets == 4 {
      BadPartStaysBad(text, i + 1);
    } else {
      HoldsDot(parts, tmp, tp, octets);
    }
  }

  lemma ScanOther(text: seq<char>, i: nat, tmp: seq<int>, tp: nat, octets: int, sawDigit: bool)
    requires Scanned(text, i, tmp, tp, octets, sawDigit) && i < |text| && text[i] != '.' && !IsDigit(text[i])
    ensures !IsQuad(Split(text))
  {
    SplitNext(text, i);
    var last := Split(text[..i + 1])[tp];
    assert !IsDigit(last[|last| - 1]);
    BadPartStaysBad(text, i + 1);
  }

  lemma NotQuad(text: seq<char>, i: nat, tmp: seq<int>, tp: nat, octets: int, sawDigit: bool)
    requires Scanned(text, i, tmp, tp, octets, sawDigit) && i < |text| && !IsDigit(text[i])
    requires text[i] == '.' ==> !sawDigit
    ensures !IsQuad(Split(text))
  {
    if text[i] == '.' {
      ScanDot(text, i, tmp, tp, octets, sawDigit);
    } else {
      ScanOther(text, i, tmp, tp, octets, sawDigit);
    }
  }

  /** One digit: the octet being read, in place. */
  method TakeDigit(tmp: array<int>, ch: char, tp: nat, octets: int, sawDigit: bool, ghost text: seq<char>, ghost i: nat)
    returns (bad: bool, octets': int)
    requires tmp.Length == 4 && Scanned(text, i, tmp[..], tp, octets, sawDigit)
    requires i < |text| && text[i] == ch && IsDigit(ch)
    modifies tmp
    ensures bad ==> !IsQuad(Split(text))
    ensures !bad ==> Scanned(text, i + 1, tmp[..], tp, octets', true)
  {
    ghost var before := tmp[..];
    ScanDigit(text, i, before, tp, octets, sawDigit);
    octets' := octets;
    var n := tmp[tp] * 10 + (ch as int - '0' as int);
    if n > 255 {
      return true, octets';
    }
    tmp[tp] := n;
    assert tmp[..] == before[tp := n];
    bad := false;
    if !sawDigit {
      octets' := octets' + 1;
      bad := octets' > 4;
    }
  }

  /** One dot: the next octet starts. */
  method TakeDot(tmp: array<int>, tp: nat, octets: int, sawDigit: bool, ghost text: seq<char>, ghost i: nat)
    returns (bad: bool, tp': nat)
    requires tmp.Length == 4 && Scanned(text, i, tmp[..], tp, octets, sawDigit)
    requires i < |text| && text[i] == '.' && sawDigit
    modifies tmp
    ensures bad ==> !IsQuad(Split(text))
    ensures !bad ==> Scanned(text, i + 1, tmp[..], tp', octets, false)
  {
    ghost var before := tmp[..];
    ScanDot(text, i, before, tp, octets, sawDigit);
    if octets == 4 {
      return true, tp;
    }
    bad, tp' := false, tp + 1;
    tmp[tp'] := 0;
    assert tmp[..] == before[tp' := 0];
  }

  /** The scanning loop, into a scratch buffer. */
  method Scan(addr: seq<char>) returns (ok: bool, tmp: array<int>)
    ensures fresh(tmp) && tmp.Length == 4
    ensures ok <==> IsQuad(Split(Stem(addr)))
    ensures ok ==> forall k :: 0 <= k < 4 ==> tmp[k] == Number(Split(Stem(addr))[k])
  {
    ghost var text := Stem(addr);
    StemIsPrefix(addr);
    tmp := new int[4](_ => 0);
    var tp, octets, sawDigit, i := 0, 0, false, 0;
    assert text[..0] == [];
    while i < |addr| && !IsStop(addr[i])
      invariant 0 <= i <= |text| && text == addr[..|text|]
      invariant Scanned(text, i, tmp[..], tp, octets, sawDigit)
      decreases |addr| - i
    {
      var ch := addr[i];
      var bad;
      if IsDigit(ch) {
        bad, octets := TakeDigit(tmp, ch, tp, octets, sawDigit, text, i);
        sawDigit := true;
      } else if ch == '.' && sawDigit {
        bad, tp := TakeDot(tmp, tp, octets, sawDigit, text, i);
        sawDigit := false;
      } else {
        NotQuad(text, i, tmp[..], tp, octets, sawDigit);
        bad := true;
      }
      if bad {
        return false, tmp;
      }
      i := i + 1;
    }
    assert text[..i] == text;
    ok := octets >= 4;
  }

  /**
   Accepts exactly four dot-separated octets up to a slash, a dash or the end,
   stores them, and leaves `dst` alone otherwise.
   */
  method InetSton(addr: seq<char>, dst: array<int>) returns (ok: bool)
    requires dst.Length == 4
    modifies dst
    ensures ok <==> IsQuad(Split(Stem(addr)))
    ensures ok ==> forall k :: 0 <= k < 4 ==> dst[k] == Number(Split(Stem(addr))[k])
    ensures !ok ==> dst[..] == old(dst[..])
  {
    var tmp;
    ok, tmp := Scan(addr);
    if ok {
      dst[0], dst[1], dst[2], dst[3] := tmp[0], tmp[1], tmp[2], tmp[3];
    }
  }

  // ----- printing and parsing back

  function Print(v: seq<nat>): seq<char>
    requires |v| == 4
  {
    Digits(v[0]) + ['.'] + Digits(v[1]) + ['.'] + Digits(v[2]) + ['.'] + Digits(v[3])
  }

  lemma {:induction false} SplitWhole(s: seq<char>)
    requires '.' !in s
    ensures Split(s) == [s]
    decreases |s|
  {
    if s != [] {
      SplitWhole(s[..|s| - 1]);
      assert s[..|s| - 1] + [s[|s| - 1]] == s;
    }
  }

  lemma {:induction false} SplitAtDot(a: seq<char>, b: seq<char>)
    requires '.' !in b
    ensures Split(a + ['.'] + b) == Split(a) + [b]
    decreases |b|
  {
    var s := a + ['.'] + b;
    if b == [] {
      assert s[..|s| - 1] == a;
    } else {
      var n := |b| - 1;
      assert s[..|s| - 1] == a + ['.'] + b[..n];
      SplitAtDot(a, b[..n]);
      assert b[..n] + [b[n]] == b;
    }
  }

  lemma {:induction false} NumberOfDigits(n: nat)
    ensures Number(Digits(n)) == n && AllDigits(Digits(n)) && Digits(n) != [] && '.' !in Digits(n)
  {
    if n < 10 {
      assert [DigitOf(n)][..0] == [];
    } else {
      NumberOfDigits(n / 10);
      var s := Digits(n);
      assert s[..|s| - 1] == Digits(n / 10);
    }
  }

  lemma {:induction false} StemUpTo(s: seq<char>, suffix: seq<char>)
    requires forall i :: 0 <= i < |s| ==> !IsStop(s[i])
    requires suffix == [] || IsStop(suffix[0])
    ensures Stem(s + suffix) == s
    decreases |s|
  {
    if s == [] {
      assert s + suffix == suffix;
    } else {
      assert (s + suffix)[1..] == s[1..] + suffix;
      StemUpTo(s[1..], suffix);
    }
  }

  lemma PrintParts(v: seq<nat>)
    requires |v| == 4
    ensures Split(Print(v)) == [Digits(v[0]), Digits(v[1]), Digits(v[2]), Digits(v[3])]
  {
    var a, b, c, d := Digits(v[0]), Digits(v[1]), Digits(v[2]), Digits(v[3]);
    NumberOfDigits(v[0]);
    NumberOfDigits(v[1]);
    NumberOfDigits(v[2]);
    NumberOfDigits(v[3]);
    SplitWhole(a);
    SplitAtDot(a, b);
    SplitAtDot(a + ['.'] + b, c);
    SplitAtDot(a + ['.'] + b + ['.'] + c, d);
  }

  ghost predicate NoStop(s: seq<char>) {
    forall i :: 0 <= i < |s| ==> !IsStop(s[i])
  }

  lemma NoStopConcat(a: seq<char>, b: seq<char>)
    requires NoStop(a) && NoStop(b)
    ensures NoStop(a + ['.'] + b)
  {
  }

  lemma PrintHasNoStop(v: seq<nat>)
    requires |v| == 4
    ensures NoStop(Print(v))
  {
    var a, b, c, d := Digits(v[0]), Digits(v[1]), Digits(v[2]), Digits(v[3]);
    NumberOfDigits(v[0]);
    NumberOfDigits(v[1]);
    NumberOfDigits(v[2]);
    NumberOfDigits(v[3]);
    NoStopConcat(a, b);
    NoStopConcat(a + ['.'] + b, c);
    NoStopConcat(a + ['.'] + b + ['.'] + c, d);
  }

  lemma DigitsAreQuad(v: seq<nat>)
    requires |v| == 4 && forall k :: 0 <= k < 4 ==> v[k] <= 255
    ensures var parts := [Digits(v[0]), Digits(v[1]), Digits(v[2]), Digits(v[3])];
            IsQuad(parts) && forall k :: 0 <= k < 4 ==> Number(parts[k]) == v[k]
  {
    NumberOfDigits(v[0]);
    NumberOfDigits(v[1]);
    NumberOfDigits(v[2]);
    NumberOfDigits(v[3]);
  }

  /** Any address printed in dotted form, with any slash or dash suffix, parses back to itself. */
  lemma PrintThenParse(v: seq<nat>, suffix: seq<char>)
    requires |v| == 4 && forall k :: 0 <= k < 4 ==> v[k] <= 255
    requires suffix == [] || IsStop(suffix[0])
    ensures var parts := Split(Stem(Print(v) + suffix));
            IsQuad(parts) && forall k :: 0 <= k < 4 ==> Number(parts[k]) == v[k]
  {
    PrintParts(v);
    PrintHasNoStop(v);
    StemUpTo(Print(v), suffix);
    DigitsAreQuad(v);
  }

  // ----- what may follow an address

  lemma {:induction false} StemGoesOn(s: seq<char>, suffix: seq<char>)
    requires NoStop(s)
    ensures Stem(s + suffix) == s + Stem(suffix)
    decreases |s|
  {
    if s == [] {
      assert s + suffix == suffix;
    } else {
      assert (s + suffix)[1..] == s[1..] + suffix;
      StemGoesOn(s[1..], suffix);
    }
  }

  lemma PrintGoesOn(v: seq<nat>, c: char, rest: seq<char>)
    requires |v| == 4 && c != '/' && c != '-'
    ensures var text := Stem(Print(v) + ([c] + rest));
            |text| > |Print(v)| && text[..|Print(v)|] == Print(v) && text[|Print(v)|] == c
  {
    PrintHasNoStop(v);
    StemGoesOn(Print(v), [c] + rest);
    assert Stem([c] + rest)[0] == c;
  }

  /** A printed address followed by any byte but a digit, a slash or a dash is refused. */
  lemma OtherSuffixFails(v: seq<nat>, c: char, rest: seq<char>)
    requires |v| == 4 && forall k :: 0 <= k < 4 ==> v[k] <= 255
    requires !('0' <= c <= '9') && c != '/' && c != '-'
    ensures !IsQuad(Split(Stem(Print(v) + ([c] + rest))))
  {
    var text := Stem(Print(v) + ([c] + rest));
    var n := |Print(v)|;
    PrintGoesOn(v, c, rest);
    PrintParts(v);
    SplitNext(text, n);
    var parts := Split(text[..n + 1]);
    if c != '.' {
      assert parts[3] == Digits(v[3]) + [c];
      assert !IsDigit(parts[3][|parts[3]| - 1]);
    }
    BadPartStaysBad(text, n + 1);
  }

  /** The parser on a printed address: alone, or before a slash or a dash and anything. */
  method ParsePrinted(v: seq<nat>, suffix: seq<char>, dst: array<int>) returns (ok: bool)
    requires |v| == 4 && forall k :: 0 <= k < 4 ==> v[k] <= 255
    requires dst.Length == 4
    modifies dst
    ensures suffix == [] || suffix[0] == '/' || suffix[0] == '-' ==> ok && dst[..] == v
    ensures suffix != [] && !('0' <= suffix[0] <= '9') && suffix[0] != '/' && suffix[0] != '-' ==>
              !ok && dst[..] == old(dst[..])
  {
    ok := InetSton(Print(v) + suffix, dst);
    if suffix == [] || suffix[0] == '/' || suffix[0] == '-' {
      PrintThenParse(v, suffix);
    } else if !('0' <= suffix[0] <= '9') {
      OtherSuffixFails(v, suffix[0], suffix[1..]);
      assert [suffix[0]] + suffix[1..] == suffix;
    }
  }
}
