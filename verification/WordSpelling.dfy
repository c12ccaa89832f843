/**
 A grammar of lines: every way of spelling a word byte by byte, in and out of
 quotes, with every form of escape. The splitter reads each spelling back.
 Nothing here is defined through the splitter's own character classes.
 */
module WordSpelling {
  import opened Common
  import opened WordAutomaton

  /** A hexadecimal digit as written. */
  datatype HexDigit = HexDigit(value: nat, upper: bool)

  /** One piece of a word: a quote mark, or one byte in one of its spellings. */
  datatype Piece =
    | Copied(byte: Byte)
    | OpenMark(quote: Quote)
    | CloseMark(quote: Quote)
    | Lettered(byte: Byte)
    | Escaped(byte: Byte)
    | InOctal(octal: seq<nat>)
    | InHex(hex: seq<HexDigit>)

  // ----- how a piece is written

  function MarkOf(q: Quote): Byte {
    if q == Double then '"' else '\''
  }

  function OctalChar(v: nat): Byte {
    ('0' as int + v % 8) as char
  }

  function HexChar(d: HexDigit): Byte {
    var v := d.value % 16;
    if v < 10 then ('0' as int + v) as char
    else if d.upper then ('A' as int + v - 10) as char
    else ('a' as int + v - 10) as char
  }

  function OctalText(digits: seq<nat>): seq<Byte> {
    if digits == [] then [] else [OctalChar(digits[0])] + OctalText(digits[1..])
  }

  function HexText(digits: seq<HexDigit>): seq<Byte> {
    if digits == [] then [] else [HexChar(digits[0])] + HexText(digits[1..])
  }

  /** The letter that stands for a control byte after a backslash. */
  function LetterOf(c: Byte): Byte {
    match c as int
    case 7 => 'a'
    case 8 => 'b'
    case 9 => 't'
    case 10 => 'n'
    case 11 => 'v'
    case 12 => 'f'
    case _ => 'r'
  }

  function PieceText(p: Piece): (s: seq<Byte>)
    ensures s != []
  {
    match p
    case Copied(c) => [c]
    case OpenMark(q) => [MarkOf(q)]
    case CloseMark(q) => [MarkOf(q)]
    case Lettered(c) => ['\\', LetterOf(c)]
    case Escaped(c) => ['\\', c]
    case InOctal(digits) => ['\\'] + OctalText(digits)
    case InHex(digits) => ['\\', 'x'] + HexText(digits)
  }

  function PiecesText(ps: seq<Piece>): seq<Byte> {
    if ps == [] then [] else PieceText(ps[0]) + PiecesText(ps[1..])
  }

  // ----- what a piece stands for

  function OctalNumber(acc: nat, digits: seq<nat>): nat
    decreases |digits|
  {
    if digits == [] then acc else OctalNumber(acc * 8 + digits[0], digits[1..])
  }

  function HexNumber(acc: nat, digits: seq<HexDigit>): nat
    decreases |digits|
  {
    if digits == [] then acc else HexNumber(acc * 16 + digits[0].value, digits[1..])
  }

  function PieceBytes(p: Piece): seq<Byte> {
    match p
    case Copied(c) => [c]
    case OpenMark(_) => []
    case CloseMark(_) => []
    case Lettered(c) => [c]
    case Escaped(c) => [c]
    case InOctal(digits) => [(OctalNumber(0, digits) % 256) as char]
    case InHex(digits) => [(HexNumber(0, digits) % 256) as char]
  }

  function Bytes(ps: seq<Piece>): seq<Byte> {
    if ps == [] then [] else PieceBytes(ps[0]) + Bytes(ps[1..])
  }

  // ----- which pieces may stand where

  predicate StartsOctal(s: seq<Byte>) {
    s != [] && '0' <= s[0] <= '7'
  }

  predicate StartsHex(s: seq<Byte>) {
    s != [] && ('0' <= s[0] <= '9' || 'a' <= s[0] <= 'f' || 'A' <= s[0] <= 'F')
  }

  /** A byte that can be written as itself. */
  predicate Ordinary(q: Quote, c: Byte) {
    && c != NUL && c != '\\'
    && match q
       case Unquoted => c != ' ' && c != '\t' && c != '#' && c != '!' && c != '\'' && c != '"'
       case Single => c != '\''
       case Double => c != '"'
  }

  /** A byte that a backslash before it does not change; x only before something other than a hexadecimal digit. */
  predicate EscapesToSelf(c: Byte) {
    && c != NUL && !('0' <= c <= '7')
    && c != 'a' && c != 'b' && c != 'f' && c != 'n' && c != 'r' && c != 't' && c != 'v'
  }

  /** The piece may be written inside quote q with `following` after it. */
  ghost predicate Fits(p: Piece, q: Quote, following: seq<Byte>) {
    match p
    case Copied(c) => Ordinary(q, c)
    case OpenMark(x) => q == Unquoted && x != Unquoted
    case CloseMark(x) => q == x && x != Unquoted
    case Lettered(c) => 7 <= c as int <= 13
    case Escaped(c) => EscapesToSelf(c) && (c == 'x' ==> !StartsHex(following))
    case InOctal(digits) =>
      && 1 <= |digits| <= 3 && (forall i :: 0 <= i < |digits| ==> digits[i] < 8)
      && (|digits| < 3 ==> !StartsOctal(following))
    case InHex(digits) =>
      && 1 <= |digits| && (forall i :: 0 <= i < |digits| ==> digits[i].value < 16)
      && !StartsHex(following)
  }

  function QuoteAfter(p: Piece, q: Quote): Quote {
    match p
    case OpenMark(x) => x
    case CloseMark(_) => Unquoted
    case _ => q
  }

  /** A spelling that starts inside quote q and ends outside quotes. */
  ghost predicate Spells(ps: seq<Piece>, q: Quote, following: seq<Byte>)
    decreases |ps|
  {
    if ps == [] then q == Unquoted
    else
      && Fits(ps[0], q, PiecesText(ps[1..]) + following)
      && Spells(ps[1..], QuoteAfter(ps[0], q), following)
  }

  // ----- reading one piece

  /** The result of scanning the rest of a line. */
  function Scan(st: State, s: seq<Byte>): Result {
    Finish(Consume(st, s))
  }

  lemma ScanCons(st: State, c: Byte, s: seq<Byte>)
    ensures Scan(st, [c] + s) == Scan(Step(st, c), s)
  {
    assert ([c] + s)[1..] == s;
  }

  lemma ScanTwo(st: State, a: Byte, b: Byte, s: seq<Byte>)
    ensures Scan(st, [a, b] + s) == Scan(Step(Step(st, a), b), s)
  {
    assert [a, b] + s == [a] + ([b] + s);
    ScanCons(st, a, [b] + s);
    ScanCons(Step(st, a), b, s);
  }

  /** Inside a word, whatever came last: only an unterminated quote could tell. */
  ghost predicate Inside(st: State, q: Quote, word: seq<Byte>, words: seq<seq<Byte>>) {
    exists text :: st == State(Plain(text), q, word, words)
  }

  /** After a finished escape the scan goes on as inside the word. */
  function Put(q: Quote, word: seq<Byte>, words: seq<seq<Byte>>): State {
    State(Plain(false), q, word, words)
  }

  lemma BackslashStarts(st: State, q: Quote, word: seq<Byte>, words: seq<seq<Byte>>)
    requires Inside(st, q, word, words)
    ensures Step(st, '\\') == State(Backslash, q, word, words)
  {
  }

  lemma ReadCopied(st: State, q: Quote, word: seq<Byte>, words: seq<seq<Byte>>, c: Byte)
    requires Inside(st, q, word, words) && Ordinary(q, c)
    ensures Inside(Step(st, c), q, word + [c], words)
  {
    assert Step(st, c) == State(Plain(true), q, word + [c], words);
  }

  lemma ReadOpenMark(st: State, x: Quote, word: seq<Byte>, words: seq<seq<Byte>>)
    requires Inside(st, Unquoted, word, words) && x != Unquoted
    ensures Step(st, MarkOf(x)) == Put(x, word, words)
  {
  }

  lemma ReadCloseMark(st: State, q: Quote, word: seq<Byte>, words: seq<seq<Byte>>)
    requires Inside(st, q, word, words) && q != Unquoted
    ensures Step(st, MarkOf(q)) == Put(Unquoted, word, words)
  {
  }

  lemma ReadLetter(q: Quote, word: seq<Byte>, words: seq<seq<Byte>>, c: Byte)
    requires 7 <= c as int <= 13
    ensures Step(State(Backslash, q, word, words), LetterOf(c)) == Put(q, word + [c], words)
  {
    assert Letter(LetterOf(c)) as int == c as int;
  }

  lemma ReadSelf(q: Quote, word: seq<Byte>, words: seq<seq<Byte>>, c: Byte)
    requires EscapesToSelf(c) && c != 'x'
    ensures Step(State(Backslash, q, word, words), c) == Put(q, word + [c], words)
  {
  }

  /** A backslash and x before anything but a hexadecimal digit is an x. */
  lemma ReadSelfX(q: Quote, word: seq<Byte>, words: seq<seq<Byte>>, s: seq<Byte>)
    requires !StartsHex(s)
    ensures Scan(State(HexStart, q, word, words), s) == Scan(Put(q, word + ['x'], words), s)
  {
  }

  lemma HexCharIsHex(d: HexDigit)
    requires d.value < 16
    ensures IsHex(HexChar(d)) && HexValue(HexChar(d)) == d.value
  {
  }

  lemma OctalCharIsOctal(v: nat)
    requires v < 8
    ensures IsOctal(OctalChar(v)) && HexValue(OctalChar(v)) == v
  {
  }

  lemma EndHex(q: Quote, word: seq<Byte>, words: seq<seq<Byte>>, value: nat, s: seq<Byte>)
    requires !StartsHex(s)
    ensures Scan(State(Hex(value), q, word, words), s) == Scan(Put(q, word + [(value % 256) as char], words), s)
  {
  }

  lemma EndOctal(q: Quote, word: seq<Byte>, words: seq<seq<Byte>>, value: nat, digits: nat, s: seq<Byte>)
    requires digits == 3 || !StartsOctal(s)
    ensures Scan(State(Octal(value, digits), q, word, words), s) == Scan(Put(q, word + [(value % 256) as char], words), s)
  {
  }

  lemma {:induction false} ReadHexDigits(q: Quote, word: seq<Byte>, words: seq<seq<Byte>>, value: nat,
                                         digits: seq<HexDigit>, s: seq<Byte>)
    requires forall i :: 0 <= i < |digits| ==> digits[i].value < 16
    requires !StartsHex(s)
    ensures Scan(State(Hex(value), q, word, words), HexText(digits) + s)
         == Scan(Put(q, word + [(HexNumber(value, digits) % 256) as char], words), s)
    decreases |digits|
  {
    if digits == [] {
      assert HexText(digits) + s == s;
      EndHex(q, word, words, value, s);
    } else {
      var d, rest := digits[0], digits[1..];
      HexCharIsHex(d);
      Assoc([HexChar(d)], HexText(rest), s);
      ScanCons(State(Hex(value), q, word, words), HexChar(d), HexText(rest) + s);
      ReadHexDigits(q, word, words, value * 16 + d.value, rest, s);
    }
  }

  lemma {:induction false} ReadOctalDigits(q: Quote, word: seq<Byte>, words: seq<seq<Byte>>, value: nat, count: nat,
                                           digits: seq<nat>, s: seq<Byte>)
    requires forall i :: 0 <= i < |digits| ==> digits[i] < 8
    requires count + |digits| <= 3 && (count + |digits| < 3 ==> !StartsOctal(s))
    ensures Scan(State(Octal(value, count), q, word, words), OctalText(digits) + s)
         == Scan(Put(q, word + [(OctalNumber(value, digits) % 256) as char], words), s)
    decreases |digits|
  {
    if digits == [] {
      assert OctalText(digits) + s == s;
      EndOctal(q, word, words, value, count, s);
    } else {
      var d, rest := digits[0], digits[1..];
      OctalCharIsOctal(d);
      Assoc([OctalChar(d)], OctalText(rest), s);
      ScanCons(State(Octal(value, count), q, word, words), OctalChar(d), OctalText(rest) + s);
      ReadOctalDigits(q, word, words, value * 8 + d, count + 1, rest, s);
    }
  }

  lemma ReadHexPiece(st: State, q: Quote, word: seq<Byte>, words: seq<seq<Byte>>, digits: seq<HexDigit>, s: seq<Byte>)
    requires Inside(st, q, word, words) && Fits(InHex(digits), q, s)
    ensures Scan(st, PieceText(InHex(digits)) + s) == Scan(Put(q, word + PieceBytes(InHex(digits)), words), s)
  {
    var d, rest := digits[0], digits[1..];
    BackslashStarts(st, q, word, words);
    HexCharIsHex(d);
    Assoc(['\\', 'x'], HexText(digits), s);
    ScanTwo(st, '\\', 'x', HexText(digits) + s);
    Assoc([HexChar(d)], HexText(rest), s);
    ScanCons(State(HexStart, q, word, words), HexChar(d), HexText(rest) + s);
    ReadHexDigits(q, word, words, d.value, rest, s);
  }

  lemma ReadOctalPiece(st: State, q: Quote, word: seq<Byte>, words: seq<seq<Byte>>, digits: seq<nat>, s: seq<Byte>)
    requires Inside(st, q, word, words) && Fits(InOctal(digits), q, s)
    ensures Scan(st, PieceText(InOctal(digits)) + s) == Scan(Put(q, word + PieceBytes(InOctal(digits)), words), s)
  {
    var d, rest := digits[0], digits[1..];
    BackslashStarts(st, q, word, words);
    OctalCharIsOctal(d);
    Assoc(['\\'], OctalText(digits), s);
    ScanCons(st, '\\', OctalText(digits) + s);
    Assoc([OctalChar(d)], OctalText(rest), s);
    ScanCons(State(Backslash, q, word, words), OctalChar(d), OctalText(rest) + s);
    ReadOctalDigits(q, word, words, d, 1, rest, s);
  }

  lemma ReadEscapedPiece(st: State, q: Quote, word: seq<Byte>, words: seq<seq<Byte>>, c: Byte, s: seq<Byte>)
    requires Inside(st, q, word, words) && Fits(Escaped(c), q, s)
    ensures Scan(st, ['\\', c] + s) == Scan(Put(q, word + [c], words), s)
  {
    BackslashStarts(st, q, word, words);
    ScanTwo(st, '\\', c, s);
    if c == 'x' {
      ReadSelfX(q, word, words, s);
    } else {
      ReadSelf(q, word, words, c);
    }
  }

  lemma ReadLetteredPiece(st: State, q: Quote, word: seq<Byte>, words: seq<seq<Byte>>, c: Byte, s: seq<Byte>)
    requires Inside(st, q, word, words) && 7 <= c as int <= 13
    ensures Scan(st, ['\\', LetterOf(c)] + s) == Scan(Put(q, word + [c], words), s)
  {
    BackslashStarts(st, q, word, words);
    ScanTwo(st, '\\', LetterOf(c), s);
    ReadLetter(q, word, words, c);
  }

  lemma PutIsInside(q: Quote, word: seq<Byte>, words: seq<seq<Byte>>)
    ensures Inside(Put(q, word, words), q, word, words)
  {
  }

  /** Reading a piece that fits appends its bytes to the word and moves the quote. */
  lemma ReadPiece(st: State, q: Quote, word: seq<Byte>, words: seq<seq<Byte>>, p: Piece, s: seq<Byte>) returns (st': State)
    requires Inside(st, q, word, words) && Fits(p, q, s)
    ensures Inside(st', QuoteAfter(p, q), word + PieceBytes(p), words)
    ensures Scan(st, PieceText(p) + s) == Scan(st', s)
  {
    st' := Put(QuoteAfter(p, q), word + PieceBytes(p), words);
    PutIsInside(QuoteAfter(p, q), word + PieceBytes(p), words);
    match p {
      case Copied(c) =>
        ReadCopied(st, q, word, words, c);
        ScanCons(st, c, s);
        st' := Step(st, c);
      case OpenMark(x) =>
        ReadOpenMark(st, x, word, words);
        ScanCons(st, MarkOf(x), s);
        assert word + [] == word;
      case CloseMark(x) =>
        ReadCloseMark(st, q, word, words);
        ScanCons(st, MarkOf(x), s);
        assert word + [] == word;
      case Lettered(c) => ReadLetteredPiece(st, q, word, words, c, s);
      case Escaped(c) => ReadEscapedPiece(st, q, word, words, c, s);
      case InOctal(digits) => ReadOctalPiece(st, q, word, words, digits, s);
      case InHex(digits) => ReadHexPiece(st, q, word, words, digits, s);
    }
  }

  // ----- reading a word

  lemma {:induction false} ReadPieces(st: State, q: Quote, word: seq<Byte>, words: seq<seq<Byte>>, ps: seq<Piece>, s: seq<Byte>)
    returns (st': State)
    requires Inside(st, q, word, words) && Spells(ps, q, s)
    ensures Inside(st', Unquoted, word + Bytes(ps), words)
    ensures Scan(st, PiecesText(ps) + s) == Scan(st', s)
    decreases |ps|
  {
    if ps == [] {
      st' := st;
      assert PiecesText(ps) + s == s && word + Bytes(ps) == word;
    } else {
      var p, rest := ps[0], ps[1..];
      Assoc(PieceText(p), PiecesText(rest), s);
      var mid := ReadPiece(st, q, word, words, p, PiecesText(rest) + s);
      Assoc(word, PieceBytes(p), Bytes(rest));
      st' := ReadPieces(mid, QuoteAfter(p, q), word + PieceBytes(p), words, rest, s);
    }
  }

  /** What ends a word: the end of the line, a blank or a comment. */
  predicate EndsWord(s: seq<Byte>) {
    s == [] || s[0] == ' ' || s[0] == '\t' || s[0] == '#' || s[0] == '!'
  }

  lemma {:induction false} StoppedScans(st: State, s: seq<Byte>)
    requires st.phase == Stopped
    ensures Scan(st, s) == Result(st.words, Done)
    decreases |s|
  {
    if s != [] {
      StoppedScans(st, s[1..]);
    }
  }

  /** The rest of the line after a finished word is scanned as between words. */
  lemma AfterWord(st: State, word: seq<Byte>, words: seq<seq<Byte>>, s: seq<Byte>)
    requires Inside(st, Unquoted, word, words) && EndsWord(s)
    ensures Scan(st, s) == Scan(Gap(words + [word]), s)
  {
    if s != [] && (s[0] == '#' || s[0] == '!') {
      StoppedScans(State(Stopped, Unquoted, [], words + [word]), s[1..]);
    }
  }

  lemma FirstOfPieces(p: Piece, s: seq<Byte>)
    requires Fits(p, Unquoted, s)
    ensures !IsSpace(PieceText(p)[0]) && !IsComment(PieceText(p)[0])
  {
  }

  /** Between words a byte that is neither a blank nor a comment starts the next word. */
  lemma StartWord(words: seq<seq<Byte>>, s: seq<Byte>)
    requires s != [] && !IsSpace(s[0]) && !IsComment(s[0])
    ensures Scan(Gap(words), s) == Scan(Put(Unquoted, [], words), s)
  {
    assert Step(Gap(words), s[0]) == Step(Put(Unquoted, [], words), s[0]);
  }

  /** A spelled word is read as its bytes. */
  lemma ReadSpelledWord(words: seq<seq<Byte>>, ps: seq<Piece>, s: seq<Byte>)
    requires ps != [] && Spells(ps, Unquoted, s) && EndsWord(s)
    ensures Scan(Gap(words), PiecesText(ps) + s) == Scan(Gap(words + [Bytes(ps)]), s)
  {
    FirstOfPieces(ps[0], PiecesText(ps[1..]) + s);
    assert (PiecesText(ps) + s)[0] == PieceText(ps[0])[0];
    StartWord(words, PiecesText(ps) + s);
    PutIsInside(Unquoted, [], words);
    var st := ReadPieces(Put(Unquoted, [], words), Unquoted, [], words, ps, s);
    assert [] + Bytes(ps) == Bytes(ps);
    AfterWord(st, Bytes(ps), words, s);
  }

  // ----- reading a line

  /** A spelled word and the blanks after it. */
  datatype Item = Item(pieces: seq<Piece>, blanks: seq<Byte>)

  ghost predicate IsBlank(s: seq<Byte>) {
    forall i :: 0 <= i < |s| ==> s[i] == ' ' || s[i] == '\t'
  }

  predicate IsRemark(s: seq<Byte>) {
    s == [] || s[0] == '#' || s[0] == '!'
  }

  function Line(items: seq<Item>): seq<Byte> {
    if items == [] then [] else PiecesText(items[0].pieces) + items[0].blanks + Line(items[1..])
  }

  function Words(items: seq<Item>): seq<seq<Byte>> {
    if items == [] then [] else [Bytes(items[0].pieces)] + Words(items[1..])
  }

  /** Every word is spelled and set off by blanks; the last may end the line or meet the comment. */
  ghost predicate Written(items: seq<Item>, remark: seq<Byte>)
    decreases |items|
  {
    items == [] ||
    (var it, rest := items[0], items[1..];
     && it.pieces != [] && IsBlank(it.blanks) && (rest != [] ==> it.blanks != [])
     && Spells(it.pieces, Unquoted, it.blanks + (Line(rest) + remark))
     && Written(rest, remark))
  }

  lemma {:induction false} ScanBlank(words: seq<seq<Byte>>, blanks: seq<Byte>, s: seq<Byte>)
    requires IsBlank(blanks)
    ensures Scan(Gap(words), blanks + s) == Scan(Gap(words), s)
    decreases |blanks|
  {
    if blanks == [] {
      assert blanks + s == s;
    } else {
      var rest := blanks[1..];
      assert forall i :: 0 <= i < |rest| ==> rest[i] == blanks[i + 1];
      assert blanks + s == [blanks[0]] + (rest + s);
      ScanCons(Gap(words), blanks[0], rest + s);
      ScanBlank(words, rest, s);
    }
  }

  lemma ScanRemark(words: seq<seq<Byte>>, remark: seq<Byte>)
    requires IsRemark(remark)
    ensures Scan(Gap(words), remark) == Result(words, Done)
  {
    if remark != [] {
      StoppedScans(Gap(words).(phase := Stopped), remark[1..]);
    }
  }

  lemma FollowsWord(blanks: seq<Byte>, rest: seq<Item>, remark: seq<Byte>)
    requires IsBlank(blanks) && (rest != [] ==> blanks != []) && IsRemark(remark)
    ensures EndsWord(blanks + (Line(rest) + remark))
  {
    if blanks == [] {
      assert blanks + (Line(rest) + remark) == remark;
    }
  }

  lemma RegroupLine(a: seq<Byte>, b: seq<Byte>, c: seq<Byte>, d: seq<Byte>)
    ensures a + b + c + d == a + (b + (c + d))
  {
  }

  lemma {:induction false} ScanLine(words: seq<seq<Byte>>, items: seq<Item>, remark: seq<Byte>)
    requires Written(items, remark) && IsRemark(remark)
    ensures Scan(Gap(words), Line(items) + remark) == Result(words + Words(items), Done)
    decreases |items|
  {
    if items == [] {
      assert Line(items) + remark == remark && words + Words(items) == words;
      ScanRemark(words, remark);
    } else {
      var it, rest := items[0], items[1..];
      var tail := Line(rest) + remark;
      RegroupLine(PiecesText(it.pieces), it.blanks, Line(rest), remark);
      FollowsWord(it.blanks, rest, remark);
      ReadSpelledWord(words, it.pieces, it.blanks + tail);
      ScanBlank(words + [Bytes(it.pieces)], it.blanks, tail);
      Assoc(words, [Bytes(it.pieces)], Words(rest));
      ScanLine(words + [Bytes(it.pieces)], rest, remark);
    }
  }

  /**
   Main result: a line of spelled words between blanks, with or without a
   comment after it, is split into the bytes the spellings stand for.
   */
  lemma SpellThenSplit(lead: seq<Byte>, items: seq<Item>, remark: seq<Byte>)
    requires IsBlank(lead) && Written(items, remark) && IsRemark(remark)
    ensures Split(lead + (Line(items) + remark)) == Result(Words(items), Done)
  {
    ScanBlank([], lead, Line(items) + remark);
    ScanLine([], items, remark);
    assert [] + Words(items) == Words(items);
  }

  // ----- comments after any line

  /** Outside quotes and not after a backslash, a comment changes neither the words before it nor the outcome. */
  lemma CommentIsIgnored(s: seq<Byte>, c: Byte, rest: seq<Byte>)
    requires c == '#' || c == '!'
    requires Consume(Gap([]), s).quote == Unquoted && Consume(Gap([]), s).phase != Backslash
    ensures Split(s + ([c] + rest)) == Split(s)
  {
    var st := Consume(Gap([]), s);
    ConsumeConcat(Gap([]), s, [c] + rest);
    ScanCons(st, c, rest);
    assert Step(st, c).phase == Stopped && Step(st, c).words == Finish(st).words;
    StoppedScans(Step(st, c), rest);
  }
}
