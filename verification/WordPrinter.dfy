/** Printing a list of arbitrary words as one line, each in a style of its own, undone by the splitter. */
module WordPrinter {
  import opened Common
  import opened WordAutomaton
  import opened WordSpelling

  /**
   Bare words are written as they are; in `WithLetters` control bytes become
   letters, other special bytes follow a backslash; the rest escape every byte.
   */
  datatype Style =
    | Bare
    | InQuotes(quote: Quote)
    | WithLetters
    | LongOctal
    | ShortOctal
    | InHexDigits(upper: bool)

  ghost predicate Spellable(style: Style, word: seq<Byte>) {
    match style
    case Bare => word != [] && forall i :: 0 <= i < |word| ==> Ordinary(Unquoted, word[i])
    case InQuotes(q) => q != Unquoted && NUL !in word
    case _ => word != []
  }

  function SpellByte(style: Style, c: Byte): Piece {
    var v := c as int;
    match style
    case Bare => Copied(c)
    case InQuotes(q) => if c == MarkOf(q) || c == '\\' then Escaped(c) else Copied(c)
    case WithLetters =>
      if 7 <= v <= 13 then Lettered(c)
      else if Ordinary(Unquoted, c) then Copied(c)
      else if c == NUL then InOctal([0, 0, 0])
      else Escaped(c)
    case LongOctal => InOctal([v / 64, v / 8 % 8, v % 8])
    case ShortOctal =>
      if v < 8 then InOctal([v]) else if v < 64 then InOctal([v / 8, v % 8]) else InOctal([v / 64, v / 8 % 8, v % 8])
    case InHexDigits(upper) => InHex([HexDigit(v / 16, upper), HexDigit(v % 16, upper)])
  }

  function SpellBytes(style: Style, word: seq<Byte>): seq<Piece> {
    if word == [] then [] else [SpellByte(style, word[0])] + SpellBytes(style, word[1..])
  }

  function SpellWord(style: Style, word: seq<Byte>): seq<Piece> {
    match style
    case InQuotes(q) => [OpenMark(q)] + (SpellBytes(style, word) + [CloseMark(q)])
    case _ => SpellBytes(style, word)
  }

  // ----- each byte is spelled, and stands for itself

  lemma ThreeDigits(a: nat, b: nat, c: nat)
    ensures OctalNumber(0, [a, b, c]) == (a * 8 + b) * 8 + c
  {
    assert [a, b, c][1..] == [b, c] && [b, c][1..] == [c] && [c][1..] == [];
    assert OctalNumber(0, [a, b, c]) == OctalNumber(a, [b, c]) == OctalNumber(a * 8 + b, [c]);
  }

  lemma LongNumeral(v: nat)
    requires v < 256
    ensures OctalNumber(0, [v / 64, v / 8 % 8, v % 8]) == v
  {
    ThreeDigits(v / 64, v / 8 % 8, v % 8);
    assert v / 64 * 8 + v / 8 % 8 == v / 8;
  }

  lemma ShortNumeral(v: nat)
    requires v < 64
    ensures OctalNumber(0, [v / 8, v % 8]) == v
    ensures v < 8 ==> OctalNumber(0, [v]) == v
  {
    var a, b := v / 8, v % 8;
    assert [a, b][1..] == [b] && [b][1..] == [] && [v][1..] == [];
    assert OctalNumber(0, [a, b]) == OctalNumber(a, [b]) == a * 8 + b;
  }

  lemma HexNumeral(v: nat, upper: bool)
    requires v < 256
    ensures HexNumber(0, [HexDigit(v / 16, upper), HexDigit(v % 16, upper)]) == v
  {
    var a, b := HexDigit(v / 16, upper), HexDigit(v % 16, upper);
    assert [a, b][1..] == [b] && [b][1..] == [];
    assert HexNumber(0, [a, b]) == HexNumber(a.value, [b]) == a.value * 16 + b.value;
  }

  lemma OctalStandsForItself(v: nat)
    requires v < 256
    ensures PieceBytes(InOctal([v / 64, v / 8 % 8, v % 8])) == [v as char]
    ensures v < 64 ==> PieceBytes(InOctal([v / 8, v % 8])) == [v as char]
    ensures v < 8 ==> PieceBytes(InOctal([v])) == [v as char]
  {
    LongNumeral(v);
    if v < 64 {
      ShortNumeral(v);
    }
  }

  lemma StandsForItself(style: Style, c: Byte)
    ensures PieceBytes(SpellByte(style, c)) == [c]
  {
    match style
    case InHexDigits(upper) => HexNumeral(c as int, upper);
    case LongOctal => OctalStandsForItself(c as int);
    case ShortOctal => OctalStandsForItself(c as int);
    case WithLetters => OctalStandsForItself(0);
    case _ =>
  }

  /** What may follow an escaped byte: another backslash, or the end of the word. */
  predicate AfterEscape(s: seq<Byte>) {
    EndsWord(s) || s[0] == '\\'
  }

  function QuoteOf(style: Style): Quote {
    match style
    case InQuotes(q) => q
    case _ => Unquoted
  }

  /** The styles in which every byte is an escape with digits. */
  predicate AllDigits(style: Style) {
    style.LongOctal? || style.ShortOctal? || style.InHexDigits?
  }

  lemma ByteFits(style: Style, c: Byte, s: seq<Byte>)
    requires style == Bare ==> Ordinary(Unquoted, c)
    requires style.InQuotes? ==> style.quote != Unquoted && c != NUL
    requires AllDigits(style) ==> AfterEscape(s)
    ensures Fits(SpellByte(style, c), QuoteOf(style), s)
    ensures QuoteAfter(SpellByte(style, c), QuoteOf(style)) == QuoteOf(style)
    ensures AllDigits(style) ==> PieceText(SpellByte(style, c))[0] == '\\'
  {
  }

  /** The style can spell the bytes, up to what stands after them. */
  ghost predicate CanSpell(style: Style, word: seq<Byte>) {
    && (style == Bare ==> forall i :: 0 <= i < |word| ==> Ordinary(Unquoted, word[i]))
    && (style.InQuotes? ==> style.quote != Unquoted && NUL !in word)
  }

  lemma CanSpellTail(style: Style, word: seq<Byte>)
    requires CanSpell(style, word) && word != []
    ensures CanSpell(style, [word[0]]) && CanSpell(style, word[1..])
  {
    var rest := word[1..];
    assert word[0] in word && forall i :: 0 <= i < |rest| ==> rest[i] == word[i + 1];
  }

  /** A spelling of the word, followed by s, in the quote of the style. */
  ghost predicate Good(style: Style, ps: seq<Piece>, word: seq<Byte>, s: seq<Byte>) {
    && Spells(ps, QuoteOf(style), s)
    && Bytes(ps) == word
    && (AllDigits(style) ==> AfterEscape(PiecesText(ps) + s))
  }

  lemma ConsPiece(p: Piece, ps: seq<Piece>, s: seq<Byte>)
    ensures ([p] + ps)[1..] == ps
    ensures Bytes([p] + ps) == PieceBytes(p) + Bytes(ps)
    ensures PiecesText([p] + ps) + s == PieceText(p) + (PiecesText(ps) + s)
  {
    assert ([p] + ps)[1..] == ps;
    Assoc(PieceText(p), PiecesText(ps), s);
  }

  lemma GoodCons(style: Style, c: Byte, ps: seq<Piece>, word: seq<Byte>, s: seq<Byte>)
    requires CanSpell(style, [c]) && Good(style, ps, word, s)
    ensures Good(style, [SpellByte(style, c)] + ps, [c] + word, s)
  {
    var p := SpellByte(style, c);
    assert [c][0] == c && (style.InQuotes? ==> c != NUL);
    ByteFits(style, c, PiecesText(ps) + s);
    StandsForItself(style, c);
    ConsPiece(p, ps, s);
  }

  lemma SpellStep(style: Style, word: seq<Byte>, tail: seq<Piece>)
    requires word != []
    ensures SpellBytes(style, word) + tail == [SpellByte(style, word[0])] + (SpellBytes(style, word[1..]) + tail)
  {
    Assoc([SpellByte(style, word[0])], SpellBytes(style, word[1..]), tail);
  }

  lemma HeadOf<T>(s: seq<T>, more: seq<T>)
    requires s != []
    ensures s + more == [s[0]] + (s[1..] + more)
  {
  }

  lemma {:induction false} BytesSpell(style: Style, word: seq<Byte>, tail: seq<Piece>, more: seq<Byte>, s: seq<Byte>)
    requires CanSpell(style, word) && Good(style, tail, more, s)
    ensures Good(style, SpellBytes(style, word) + tail, word + more, s)
    decreases |word|
  {
    if word == [] {
      assert SpellBytes(style, word) + tail == tail && word + more == more;
    } else {
      var c, rest := word[0], word[1..];
      CanSpellTail(style, word);
      BytesSpell(style, rest, tail, more, s);
      GoodCons(style, c, SpellBytes(style, rest) + tail, rest + more, s);
      SpellStep(style, word, tail);
      HeadOf(word, more);
    }
  }

  lemma ClosingMark(q: Quote, s: seq<Byte>)
    requires q != Unquoted
    ensures Good(InQuotes(q), [CloseMark(q)], [], s)
  {
    assert [CloseMark(q)][1..] == [];
    assert Spells([], Unquoted, s);
  }

  lemma OpeningMark(q: Quote, ps: seq<Piece>, word: seq<Byte>, s: seq<Byte>)
    requires q != Unquoted && Good(InQuotes(q), ps, word, s)
    ensures Spells([OpenMark(q)] + ps, Unquoted, s) && Bytes([OpenMark(q)] + ps) == word
  {
    ConsPiece(OpenMark(q), ps, s);
    assert [] + word == word;
  }

  /** In every style a word is spelled, and its spelling stands for it. */
  lemma WordSpells(style: Style, word: seq<Byte>, s: seq<Byte>)
    requires Spellable(style, word) && EndsWord(s)
    ensures SpellWord(style, word) != []
    ensures Spells(SpellWord(style, word), Unquoted, s)
    ensures Bytes(SpellWord(style, word)) == word
  {
    if style.InQuotes? {
      var q := style.quote;
      ClosingMark(q, s);
      BytesSpell(style, word, [CloseMark(q)], [], s);
      assert word + [] == word;
      OpeningMark(q, SpellBytes(style, word) + [CloseMark(q)], word, s);
    } else {
      assert PiecesText([]) + s == s;
      BytesSpell(style, word, [], [], s);
      assert SpellBytes(style, word) + [] == SpellBytes(style, word) && word + [] == word;
    }
  }

  // ----- whole lines

  /** A word, its style, and the blanks after it. */
  datatype Entry = Entry(word: seq<Byte>, style: Style, blanks: seq<Byte>)

  function Print(entries: seq<Entry>): seq<Item> {
    seq(|entries|, i requires 0 <= i < |entries| => Item(SpellWord(entries[i].style, entries[i].word), entries[i].blanks))
  }

  function Listed(entries: seq<Entry>): seq<seq<Byte>> {
    seq(|entries|, i requires 0 <= i < |entries| => entries[i].word)
  }

  /** Words are separated by at least one blank; the last may end the line. */
  ghost predicate Printable(entries: seq<Entry>) {
    && (forall i :: 0 <= i < |entries| ==> Spellable(entries[i].style, entries[i].word) && IsBlank(entries[i].blanks))
    && (forall i :: 0 <= i < |entries| - 1 ==> entries[i].blanks != [])
  }

  lemma PrintableTail(entries: seq<Entry>)
    requires Printable(entries) && entries != []
    ensures Printable(entries[1..]) && Spellable(entries[0].style, entries[0].word) && IsBlank(entries[0].blanks)
    ensures entries[1..] != [] ==> entries[0].blanks != []
  {
    var rest := entries[1..];
    assert forall i :: 0 <= i < |rest| ==> rest[i] == entries[i + 1];
  }

  lemma PrintTail(entries: seq<Entry>)
    requires entries != []
    ensures Print(entries)[0] == Item(SpellWord(entries[0].style, entries[0].word), entries[0].blanks)
    ensures Print(entries)[1..] == Print(entries[1..])
    ensures Listed(entries) == [entries[0].word] + Listed(entries[1..])
  {
  }

  lemma {:induction false} PrintIsWritten(entries: seq<Entry>, remark: seq<Byte>)
    requires Printable(entries) && IsRemark(remark)
    ensures Written(Print(entries), remark) && Words(Print(entries)) == Listed(entries)
    decreases |entries|
  {
    if entries != [] {
      var e, rest := entries[0], entries[1..];
      PrintableTail(entries);
      PrintIsWritten(rest, remark);
      PrintTail(entries);
      FollowsWord(e.blanks, Print(rest), remark);
      WordSpells(e.style, e.word, e.blanks + (Line(Print(rest)) + remark));
    }
  }

  /** Round trip: splitting a printed line gives back the words, in whatever style each was printed. */
  lemma PrintThenSplit(lead: seq<Byte>, entries: seq<Entry>, remark: seq<Byte>)
    requires IsBlank(lead) && Printable(entries) && IsRemark(remark)
    ensures Split(lead + (Line(Print(entries)) + remark)) == Result(Listed(entries), Done)
  {
    PrintIsWritten(entries, remark);
    SpellThenSplit(lead, Print(entries), remark);
  }

  // ----- a printed line is a C string

  lemma {:induction false} OctalTextHasNoNul(digits: seq<nat>)
    ensures NUL !in OctalText(digits)
    decreases |digits|
  {
    if digits != [] {
      OctalTextHasNoNul(digits[1..]);
    }
  }

  lemma {:induction false} HexTextHasNoNul(digits: seq<HexDigit>)
    ensures NUL !in HexText(digits)
    decreases |digits|
  {
    if digits != [] {
      HexTextHasNoNul(digits[1..]);
    }
  }

  lemma PieceHasNoNul(p: Piece, q: Quote, s: seq<Byte>)
    requires Fits(p, q, s)
    ensures NUL !in PieceText(p)
  {
    if p.InOctal? {
      OctalTextHasNoNul(p.octal);
    } else if p.InHex? {
      HexTextHasNoNul(p.hex);
    }
  }

  lemma {:induction false} PiecesHaveNoNul(ps: seq<Piece>, q: Quote, s: seq<Byte>)
    requires Spells(ps, q, s)
    ensures NUL !in PiecesText(ps)
    decreases |ps|
  {
    if ps != [] {
      PieceHasNoNul(ps[0], q, PiecesText(ps[1..]) + s);
      PiecesHaveNoNul(ps[1..], QuoteAfter(ps[0], q), s);
    }
  }

  /** Every line of the grammar can be given to the splitter as a C string. */
  lemma {:induction false} LineHasNoNul(items: seq<Item>, remark: seq<Byte>)
    requires Written(items, remark)
    ensures NUL !in Line(items)
    decreases |items|
  {
    if items != [] {
      var it, rest := items[0], items[1..];
      PiecesHaveNoNul(it.pieces, Unquoted, it.blanks + (Line(rest) + remark));
      LineHasNoNul(rest, remark);
      assert NUL !in it.blanks;
    }
  }
}
