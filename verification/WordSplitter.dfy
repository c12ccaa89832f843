/**
 The splitter itself: it copies runs of ordinary bytes into a buffer with
 strpbrk-style scans and decodes escapes inline. It is shown to compute what
 the automaton computes.
 */
module WordSplitter {
  import opened Common
  import opened WordAutomaton

  /** The byte at offset i of a C string. */
  function At(src: seq<Byte>, i: nat): Byte
    requires i <= |src|
  {
    if i == |src| then NUL else src[i]
  }

  /** strspn(src + from, " \t"), as an offset. */
  method SkipSpace(src: seq<Byte>, from: nat) returns (to: nat)
    requires from <= |src|
    ensures from <= to <= |src|
    ensures forall i :: from <= i < to ==> IsSpace(src[i])
    ensures to < |src| ==> !IsSpace(src[to])
  {
    to := from;
    while to < |src| && IsSpace(src[to])
      invariant from <= to <= |src|
      invariant forall i :: from <= i < to ==> IsSpace(src[i])
    {
      to := to + 1;
    }
  }

  /** strpbrk with the stop set of the current quote, as an offset; the end of the string when nothing is found. */
  method FindSpecial(src: seq<Byte>, from: nat, quote: Quote) returns (to: nat)
    requires from <= |src|
    ensures from <= to <= |src|
    ensures forall i :: from <= i < to ==> !IsSpecial(quote, src[i])
    ensures to < |src| ==> IsSpecial(quote, src[to])
  {
    to := from;
    while to < |src| && !IsSpecial(quote, src[to])
      invariant from <= to <= |src|
      invariant forall i :: from <= i < to ==> !IsSpecial(quote, src[i])
    {
      to := to + 1;
    }
  }

  /** strncpy(opBuf + at, src + from, to - from) for a run without NUL. */
  method CopyRun(opBuf: array<Byte>, at: nat, src: seq<Byte>, from: nat, to: nat)
    requires from <= to <= |src| && at + (to - from) <= opBuf.Length
    modifies opBuf
    ensures opBuf[..at + (to - from)] == old(opBuf[..at]) + src[from..to]
  {
    var i := 0;
    while i < to - from
      invariant 0 <= i <= to - from
      invariant opBuf[..at + i] == old(opBuf[..at]) + src[from..from + i]
    {
      opBuf[at + i] := src[from + i];
      assert opBuf[..at + i + 1] == opBuf[..at + i] + [src[from + i]];
      i := i + 1;
    }
  }

  // ----- runs of bytes in the automaton

  lemma {:induction false} RunOverSpace(words: seq<seq<Byte>>, src: seq<Byte>, from: nat, to: nat)
    requires from <= to <= |src|
    requires forall i :: from <= i < to ==> IsSpace(src[i])
    ensures RunFrom(Gap(words), src, from) == RunFrom(Gap(words), src, to)
    decreases |src| - from
  {
    if from < to {
      RunOverSpace(words, src, from + 1, to);
    }
  }

  lemma {:induction false} RunOverText(st: State, src: seq<Byte>, from: nat, to: nat)
    requires from <= to <= |src| && st.phase.Plain?
    requires forall i :: from <= i < to ==> !IsSpecial(st.quote, src[i])
    ensures RunFrom(st, src, from)
         == RunFrom(st.(word := st.word + src[from..to], phase := if from < to then Plain(true) else st.phase), src, to)
    decreases |src| - from
  {
    if from < to {
      var next := st.(phase := Plain(true), word := st.word + [src[from]]);
      assert Step(st, src[from]) == next;
      RunOverText(next, src, from + 1, to);
      assert next.word + src[from + 1..to] == st.word + src[from..to];
    } else {
      assert st.word + src[from..to] == st.word;
    }
  }

  // ----- escapes

  lemma Distribute(q: nat, r: nat, base: nat)
    ensures (0x100 * q + r) * base == 0x100 * (q * base) + r * base
  {
  }

  lemma HighPart(k: nat, x: nat)
    ensures (0x100 * k + x) % 0x100 == x % 0x100
  {
  }

  /** Shifting a digit into the low byte keeps the low byte of the whole value. */
  lemma ShiftIn(value: nat, base: nat, digit: nat)
    ensures ByteOf(ByteOf(value) as int * base + digit) == ByteOf(value * base + digit)
  {
    var q, r := value / 0x100, value % 0x100;
    Distribute(q, r, base);
    HighPart(q * base, r * base + digit);
    assert value * base + digit == 0x100 * (q * base) + (r * base + digit);
  }

  /** The hexadecimal digits of an escape, however many there are. */
  method ReadHex(src: seq<Byte>, ofs: nat, ghost st: State) returns (opChar: Byte, next: nat)
    requires ofs < |src| && IsHex(src[ofs]) && st.phase == HexStart
    ensures ofs < next <= |src|
    ensures RunFrom(st, src, ofs) == RunFrom(st.Put(opChar), src, next)
  {
    ghost var value: nat := 0;
    opChar, next := NUL, ofs;
    while IsHex(At(src, next))
      invariant ofs <= next <= |src|
      invariant opChar == ByteOf(value)
      invariant RunFrom(st, src, ofs) == RunFrom(st.(phase := Hex(value)), src, next)
      decreases |src| - next
    {
      ShiftIn(value, 16, HexValue(src[next]));
      value := value * 16 + HexValue(src[next]);
      opChar := ByteOf(opChar as int * 16 + HexValue(src[next]));
      next := next + 1;
    }
  }

  /** The digits read so far, one or two of three, as the automaton holds them. */
  ghost predicate OctalSoFar(src: seq<Byte>, ofs: nat, st: State, opChar: Byte, next: nat, value: nat, digits: nat) {
    && ofs < next <= |src| && st.phase == Backslash
    && opChar == ByteOf(value)
    && RunFrom(st, src, ofs) == RunFrom(st.(phase := Octal(value, digits)), src, next)
  }

  /** One more octal digit. */
  method MoreOctal(src: seq<Byte>, opChar: Byte, next: nat, ghost ofs: nat, ghost st: State, ghost value: nat, ghost digits: nat)
    returns (opChar': Byte, next': nat, ghost value': nat)
    requires OctalSoFar(src, ofs, st, opChar, next, value, digits) && digits < 3
    requires next < |src| && IsOctal(src[next])
    ensures OctalSoFar(src, ofs, st, opChar', next', value', digits + 1)
  {
    ShiftIn(value, 8, HexValue(src[next]));
    value' := value * 8 + HexValue(src[next]);
    opChar' := ByteOf(opChar as int * 8 + HexValue(src[next]));
    next' := next + 1;
  }

  /** One to three octal digits. */
  method ReadOctal(src: seq<Byte>, ofs: nat, ghost st: State) returns (opChar: Byte, next: nat)
    requires ofs < |src| && IsOctal(src[ofs]) && st.phase == Backslash
    ensures ofs < next <= |src|
    ensures RunFrom(st, src, ofs) == RunFrom(st.Put(opChar), src, next)
  {
    ghost var value, digits := HexValue(src[ofs]), 1;
    opChar := ByteOf(HexValue(src[ofs]));
    next := ofs + 1;
    assert OctalSoFar(src, ofs, st, opChar, next, value, digits);
    if IsOctal(At(src, next)) {
      opChar, next, value := MoreOctal(src, opChar, next, ofs, st, value, digits);
      digits := 2;
    }
    if IsOctal(At(src, next)) {
      opChar, next, value := MoreOctal(src, opChar, next, ofs, st, value, digits);
      digits := digits + 1;
    }
    EndOctal(st, src, next, value, digits);
  }

  lemma EndOctal(st: State, src: seq<Byte>, i: nat, value: nat, digits: nat)
    requires i <= |src| && (digits == 3 || !IsOctal(At(src, i)))
    ensures RunFrom(st.(phase := Octal(value, digits)), src, i) == RunFrom(st.Put(ByteOf(value)), src, i)
  {
  }

  /** Decodes the escape after a backslash: `opChar` is its byte, `next` the offset after it. */
  method ReadEscape(src: seq<Byte>, ofs: nat, ghost st: State) returns (opChar: Byte, next: nat)
    requires ofs < |src| && st.phase == Backslash
    ensures ofs < next <= |src|
    ensures RunFrom(st, src, ofs) == RunFrom(st.Put(opChar), src, next)
  {
    if src[ofs] == 'x' && IsHex(At(src, ofs + 1)) {
      opChar, next := ReadHex(src, ofs + 1, st.(phase := HexStart));
    } else if IsOctal(src[ofs]) {
      opChar, next := ReadOctal(src, ofs, st);
    } else {
      opChar, next := Letter(src[ofs]), ofs + 1;
    }
  }

  // ----- one word

  /**
   The inner loop. On success the word is `opBuf[..len]` and the scan resumes
   between words at `next`; an offset into the buffer never passes the offset
   into the line, so a buffer longer than the line is never overrun. The quote
   is carried from word to word; it is closed again wherever another word can follow.
   */
  method ReadWord(src: seq<Byte>, opBuf: array<Byte>, start: nat, quote: Quote, ghost words: seq<seq<Byte>>)
    returns (len: nat, next: nat, curQuote: Quote, outcome: Outcome)
    requires NUL !in src && |src| < opBuf.Length
    requires start < |src| && !IsSpace(src[start]) && !IsComment(src[start])
    requires quote == Unquoted
    modifies opBuf
    ensures start < next <= |src| && len <= next - start
    ensures outcome == Done ==> RunFrom(Gap(words), src, start) == RunFrom(Gap(words + [opBuf[..len]]), src, next)
    ensures outcome != Done ==> RunFrom(Gap(words), src, start) == Result(words, outcome)
    ensures outcome == Done && next < |src| ==> curQuote == Unquoted
  {
    len, next, curQuote := 0, start, quote;
    while next < |src|
      invariant start <= next <= |src| && len <= next - start
      invariant next == start ==> curQuote == Unquoted
      invariant RunFrom(Gap(words), src, start) == RunFrom(InWord(curQuote, opBuf[..len], words), src, next)
      decreases |src| - next
    {
      ghost var st := InWord(curQuote, opBuf[..len], words);
      var stop := FindSpecial(src, next, curQuote);
      RunOverText(st, src, next, stop);
      CopyRun(opBuf, len, src, next, stop);
      st := st.(word := opBuf[..len + (stop - next)], phase := Plain(next < stop));
      len, next := len + (stop - next), stop;
      assert RunFrom(Gap(words), src, start) == RunFrom(st, src, next);
      if next == |src| {
        if curQuote != Unquoted {
          outcome := MissingQuote(curQuote);
          return;
        }
        break;
      }
      if src[next] == '\\' {
        next := next + 1;
        if next == |src| {
          outcome := MissingEscape;
          return;
        }
        var opChar;
        st := st.(phase := Backslash);
        opChar, next := ReadEscape(src, next, st);
        opBuf[len] := opChar;
        assert opBuf[..len + 1] == st.word + [opChar];
        len := len + 1;
        continue;
      }
      if curQuote != Unquoted {
        next := next + 1;
        curQuote := Unquoted;
        continue;
      }
      if src[next] == '"' || src[next] == '\'' {
        curQuote := if src[next] == '"' then Double else Single;
        next := next + 1;
        continue;
      }
      break;
    }
    outcome := Done;
  }

  /** The whole splitter: the words it emits, in order, and how it ended. */
  method Tokenize(src: seq<Byte>, maxBuf: nat) returns (words: seq<seq<Byte>>, outcome: Outcome)
    requires NUL !in src && |src| < maxBuf
    ensures Result(words, outcome) == Split(src)
  {
    var opBuf := new Byte[maxBuf](_ => NUL);
    var ofs, curQuote := 0, Unquoted;
    words := [];
    RunFromIsConsume(Gap([]), src, 0);
    assert src[0..] == src;
    while ofs < |src|
      invariant 0 <= ofs <= |src|
      invariant Split(src) == RunFrom(Gap(words), src, ofs)
      invariant ofs < |src| ==> curQuote == Unquoted
    {
      var begin := SkipSpace(src, ofs);
      RunOverSpace(words, src, ofs, begin);
      if begin == |src| {
        break;
      }
      if IsComment(src[begin]) {
        StoppedStays(Gap(words).(phase := Stopped), src, begin + 1);
        outcome := Done;
        return;
      }
      var len;
      len, ofs, curQuote, outcome := ReadWord(src, opBuf, begin, curQuote, words);
      if outcome != Done {
        return;
      }
      words := words + [opBuf[..len]];
    }
    outcome := Done;
  }

  lemma {:induction false} StoppedStays(st: State, src: seq<Byte>, i: nat)
    requires i <= |src| && st.phase == Stopped
    ensures RunFrom(st, src, i) == Result(st.words, Done)
    decreases |src| - i
  {
    if i < |src| {
      StoppedStays(st, src, i + 1);
    }
  }
}
