/**
 A character-at-a-time reference for splitting a configuration line into
 words: two kinds of quote, backslash escapes, and comments.
 */
module WordAutomaton {
  import opened Common

  /** A C `char`, as an unsigned byte. */
  type Byte = c: char | c as int < 0x100

  predicate IsSpace(c: Byte) { c == ' ' || c == '\t' }
  predicate IsComment(c: Byte) { c == '#' || c == '!' }
  predicate IsOctal(c: Byte) { '0' <= c <= '7' }
  predicate IsHex(c: Byte) { '0' <= c <= '9' || 'A' <= c <= 'F' || 'a' <= c <= 'f' }

  function HexValue(c: Byte): (v: nat)
    requires IsHex(c)
    ensures v < 16
  {
    if '0' <= c <= '9' then c as int - '0' as int
    else if 'A' <= c <= 'F' then 10 + c as int - 'A' as int
    else 10 + c as int - 'a' as int
  }

  function ByteOf(v: nat): Byte {
    (v % 0x100) as char
  }

  /** What a backslash followed by `c` stands for, outside the hexadecimal and octal forms. */
  function Letter(c: Byte): Byte {
    match c
    case 'a' => 7 as char
    case 'b' => 8 as char
    case 'f' => 12 as char
    case 'n' => '\n'
    case 'r' => '\r'
    case 't' => '\t'
    case 'v' => 11 as char
    case _ => c
  }

  datatype Quote = Unquoted | Single | Double {
    /** The byte that closes the quote. */
    function Mark(): Byte {
      match this
      case Unquoted => NUL
      case Single => '\''
      case Double => '"'
    }
  }

  /** A byte that is not simply copied into the word. */
  predicate IsSpecial(quote: Quote, c: Byte) {
    c == '\\' ||
    match quote
    case Unquoted => IsSpace(c) || IsComment(c) || c == '\'' || c == '"'
    case Single => c == '\''
    case Double => c == '"'
  }

  /**
   Where the automaton stands. `Plain(text)` is inside a word; `text` tells
   whether a copied byte has followed the last quote mark or escape.
   */
  datatype Phase =
    | Between
    | Plain(text: bool)
    | Backslash
    | HexStart
    | Hex(value: nat)
    | Octal(value: nat, digits: nat)
    | Stopped

  datatype State = State(phase: Phase, quote: Quote, word: seq<Byte>, words: seq<seq<Byte>>) {
    function Put(c: Byte): State {
      this.(phase := Plain(false), word := word + [c])
    }

    function EndWord(next: Phase): State {
      State(next, Unquoted, [], words + [word])
    }
  }

  datatype Outcome = Done | MissingQuote(quote: Quote) | MissingEscape

  datatype Result = Result(words: seq<seq<Byte>>, outcome: Outcome)

  function Gap(words: seq<seq<Byte>>): State {
    State(Between, Unquoted, [], words)
  }

  function InWord(quote: Quote, word: seq<Byte>, words: seq<seq<Byte>>): State {
    State(Plain(false), quote, word, words)
  }

  function PlainStep(st: State, c: Byte): State {
    if c == '\\' then
      st.(phase := Backslash)
    else if !IsSpecial(st.quote, c) then
      st.(phase := Plain(true), word := st.word + [c])
    else if st.quote != Unquoted then
      st.(phase := Plain(false), quote := Unquoted)
    else if c == '"' then
      st.(phase := Plain(false), quote := Double)
    else if c == '\'' then
      st.(phase := Plain(false), quote := Single)
    else if IsSpace(c) then
      st.EndWord(Between)
    else
      st.EndWord(Stopped)
  }

  function Step(st: State, c: Byte): State {
    match st.phase
    case Between =>
      if IsSpace(c) then st
      else if IsComment(c) then st.(phase := Stopped)
      else PlainStep(st, c)
    case Plain(_) => PlainStep(st, c)
    case Backslash =>
      if c == 'x' then st.(phase := HexStart)
      else if IsOctal(c) then st.(phase := Octal(HexValue(c), 1))
      else st.Put(Letter(c))
    case HexStart =>
      if IsHex(c) then st.(phase := Hex(HexValue(c))) else PlainStep(st.Put('x'), c)
    case Hex(value) =>
      if IsHex(c) then st.(phase := Hex(value * 16 + HexValue(c))) else PlainStep(st.Put(ByteOf(value)), c)
    case Octal(value, digits) =>
      if IsOctal(c) && digits < 3 then st.(phase := Octal(value * 8 + HexValue(c), digits + 1))
      else PlainStep(st.Put(ByteOf(value)), c)
    case Stopped => st
  }

  /** At the end of the input. An open quote is noticed only when text follows the last mark or escape. */
  function Finish(st: State): Result {
    match st.phase
    case Between => Result(st.words, Done)
    case Plain(text) =>
      if st.quote != Unquoted && text then Result(st.words, MissingQuote(st.quote))
      else Result(st.words + [st.word], Done)
    case Backslash => Result(st.words, MissingEscape)
    case HexStart => Result(st.words + [st.word + ['x']], Done)
    case Hex(value) => Result(st.words + [st.word + [ByteOf(value)]], Done)
    case Octal(value, _) => Result(st.words + [st.word + [ByteOf(value)]], Done)
    case Stopped => Result(st.words, Done)
  }

  function Consume(st: State, s: seq<Byte>): State
    decreases |s|
  {
    if s == [] then st else Consume(Step(st, s[0]), s[1..])
  }

  /** The words of a line, and how the scan ended. */
  function Split(s: seq<Byte>): Result {
    Finish(Consume(Gap([]), s))
  }

  lemma {:induction false} ConsumeConcat(st: State, a: seq<Byte>, b: seq<Byte>)
    ensures Consume(st, a + b) == Consume(Consume(st, a), b)
    decreases |a|
  {
    if a == [] {
      assert a + b == b;
    } else {
      assert (a + b)[1..] == a[1..] + b;
      ConsumeConcat(Step(st, a[0]), a[1..], b);
    }
  }

  /** The automaton run on the rest of the line from position i. */
  function RunFrom(st: State, s: seq<Byte>, i: nat): Result
    requires i <= |s|
    decreases |s| - i
  {
    if i == |s| then Finish(st) else RunFrom(Step(st, s[i]), s, i + 1)
  }

  lemma {:induction false} RunFromIsConsume(st: State, s: seq<Byte>, i: nat)
    requires i <= |s|
    ensures RunFrom(st, s, i) == Finish(Consume(st, s[i..]))
    decreases |s| - i
  {
    if i < |s| {
      assert s[i..][0] == s[i] && s[i..][1..] == s[i + 1..];
      RunFromIsConsume(Step(st, s[i]), s, i + 1);
    }
  }

  // ----- what the automaton accepts

  /** The byte belongs to the escape being read, whatever it is outside one. */
  predicate InEscape(phase: Phase, c: Byte) {
    match phase
    case Backslash => true
    case HexStart => IsHex(c)
    case Hex(_) => IsHex(c)
    case Octal(_, digits) => IsOctal(c) && digits < 3
    case _ => false
  }

  /** A quote is open only inside a word. */
  ghost predicate QuoteInWord(st: State) {
    st.phase.Between? || st.phase.Stopped? ==> st.quote == Unquoted
  }

  lemma {:induction false} ConsumeKeepsQuoteInWord(st: State, s: seq<Byte>)
    requires QuoteInWord(st)
    ensures QuoteInWord(Consume(st, s))
    decreases |s|
  {
    if s != [] {
      ConsumeKeepsQuoteInWord(Step(st, s[0]), s[1..]);
    }
  }

  lemma LastByte(s: seq<Byte>, c: Byte)
    ensures Split(s + [c]) == Finish(Step(Consume(Gap([]), s), c))
    ensures QuoteInWord(Consume(Gap([]), s))
  {
    ConsumeConcat(Gap([]), s, [c]);
    assert [c][1..] == [];
    ConsumeKeepsQuoteInWord(Gap([]), s);
  }

  /**
   For every line: a missing closing quote is reported exactly when the quote
   is open and the last byte is ordinary text, neither a mark, a backslash nor
   part of an escape. The empty line is accepted.
   */
  lemma UnterminatedQuote(s: seq<Byte>, c: Byte)
    ensures var st := Consume(Gap([]), s);
            Split(s + [c]).outcome.MissingQuote? <==>
              st.quote != Unquoted && !IsSpecial(st.quote, c) && !InEscape(st.phase, c)
    ensures Split(s + [c]).outcome.MissingQuote? ==> Split(s + [c]).outcome.quote == Consume(Gap([]), s).quote
    ensures Split([]).outcome == Done
  {
    LastByte(s, c);
  }

  /** For every line: a missing escape is reported exactly when the last byte is a backslash that no escape or comment covers. */
  lemma UnterminatedEscape(s: seq<Byte>, c: Byte)
    ensures var st := Consume(Gap([]), s);
            Split(s + [c]).outcome.MissingEscape? <==> c == '\\' && !st.phase.Stopped? && !InEscape(st.phase, c)
  {
    LastByte(s, c);
  }

  /** A lone double quote is accepted as one empty word. */
  lemma LoneQuoteAccepted()
    ensures Split(['"']) == Result([[]], Done)
    ensures Split(['"', 'a']) == Result([], MissingQuote(Double))
  {
    assert ['"'][1..] == [] && ['"', 'a'][1..] == ['a'] && ['a'][1..] == [];
  }
}
