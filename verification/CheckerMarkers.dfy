/** Both markers by name: what a file must hold for the stripper to remove something, or nothing. */
module CheckerMarkers {
  import opened Common
  import opened CheckerFilter
  import opened CheckerTheorems
  import opened LineBuffers
  import opened ConfigTree

  /** The word stands somewhere in the text. */
  ghost predicate Appears(s: string, word: string) {
    exists before, after :: s == before + word + after
  }

  lemma ContainsIff(s: string, word: string)
    ensures Contains(s, word) <==> Appears(s, word)
  {
    if Contains(s, word) {
      var i :| 0 <= i <= |s| - |word| && MatchesAt(s, word, i);
      assert s == s[..i] + word + s[i + |word|..];
    }
    if Appears(s, word) {
      var before, after :| s == before + word + after;
      assert s[|before|..|before| + |word|] == word;
      assert MatchesAt(s, word, |before|);
    }
  }

  /** A buffer starts a checker exactly when TCP_CHECK or HTTP_GET stands in it. */
  lemma MarkersByName(buf: string)
    ensures HasMarker(buf) <==> Appears(buf, "TCP_CHECK") || Appears(buf, "HTTP_GET")
  {
    ContainsIff(buf, "TCP_CHECK");
    ContainsIff(buf, "HTTP_GET");
  }

  /** The file is printed unchanged exactly when it has no NUL and neither name stands in any buffer of it. */
  lemma UnchangedByNameIff(s: string)
    ensures Filter(s) == s <==>
              && NUL !in s
              && forall i :: 0 <= i < |Chunks(s)| ==> !Appears(Chunks(s)[i], "TCP_CHECK") && !Appears(Chunks(s)[i], "HTTP_GET")
  {
    FixedPoints(s);
    forall i | 0 <= i < |Chunks(s)|
      ensures HasMarker(Chunks(s)[i]) <==> Appears(Chunks(s)[i], "TCP_CHECK") || Appears(Chunks(s)[i], "HTTP_GET")
    {
      MarkersByName(Chunks(s)[i]);
    }
  }

  // ----- a checker named either way is removed

  /** The lines of a block whose brace stands on its title line. */
  ghost predicate IsBlock(title: string, body: Config, close: string) {
    && IsLine(title) && IsEnded(title) && |title| <= 255 && '{' in title && '}' !in title
    && BraceFormed(body) && TidyBraces(body) && 1 + Height(body) <= 0x1_0000_0000
    && IsText(Render(body)) && AllEnded(Render(body))
    && IsLine(close) && '}' in close && '{' !in close && Tidy(Chunks(close)) && ClosedAtLast(close)
  }

  lemma BlockLines(title: string, body: Config, close: string)
    ensures Render(Block([], title, body, close, End)) == [title] + Render(body) + [close]
  {
    assert Render(End) == [] && [] + [title] == [title];
    assert [title] + Render(body) + [close] + [] == [title] + Render(body) + [close];
  }

  lemma BlockText(title: string, body: Config, close: string)
    ensures Text(Block([], title, body, close, End)) == title + Text(body) + close
  {
    BlockLines(title, body, close);
    ConcatAppend([title] + Render(body), [close]);
    ConcatAppend([title], Render(body));
    assert Concat([title]) == title && Concat([close]) == close;
  }

  lemma BlockIsText(title: string, body: Config, close: string)
    requires IsBlock(title, body, close)
    ensures IsText(Render(Block([], title, body, close, End)))
  {
    BlockLines(title, body, close);
    EndedConcat([title], Render(body));
    TextConcat([title], Render(body));
    TextConcat([title] + Render(body), [close]);
  }

  lemma BlockIsDropped(title: string, body: Config, close: string)
    requires IsBlock(title, body, close) && HasMarker(title)
    ensures Drops(START, Chunks(title + Text(body) + close), START)
  {
    var c := Block([], title, body, close, End);
    ShortLine(title);
    BlockIsText(title, body, close);
    BlockText(title, body, close);
    ReadConfig(c);
    DropCheckerBlock(c);
    BuffersOfFirst(c);
    assert Buffers(End) == [] && CheckerBuffers(c) + [] == CheckerBuffers(c);
  }

  /** A text that is dropped whole leaves the rest of the file to be filtered from the start. */
  lemma DroppedInFront(block: string, rest: string)
    requires Drops(START, Chunks(block), START)
    requires rest != [] ==> IsEnded(block)
    ensures Filter(block + rest) == Filter(rest)
  {
    if rest == [] {
      assert block + rest == block;
      assert Chunks(rest) == [] && Kept(START, []) == [];
    } else {
      ChunksAfterNewline(block, rest);
      FilterConcat(START, Chunks(block), Chunks(rest));
      assert [] + Kept(START, Chunks(rest)) == Kept(START, Chunks(rest));
    }
  }

  lemma EndsAsLastLine(front: string, close: string)
    requires IsEnded(close)
    ensures IsEnded(front + close)
  {
  }

  /** The block's title names a checker. */
  lemma TitleNames(before: string, name: string, after: string)
    requires name == "TCP_CHECK" || name == "HTTP_GET"
    ensures HasMarker(before + name + after)
  {
    assert Appears(before + name + after, name);
    MarkersByName(before + name + after);
  }

  /**
   A block whose title names TCP_CHECK or HTTP_GET is removed, whatever its
   body within the counter's range, and the filter goes on with what follows.
   */
  lemma NamedCheckerIsRemoved(before: string, name: string, after: string, body: Config, close: string, rest: string)
    requires name == "TCP_CHECK" || name == "HTTP_GET"
    requires IsBlock(before + name + after, body, close)
    requires rest != [] ==> IsEnded(close)
    ensures Filter((before + name + after) + Text(body) + close + rest) == Filter(rest)
  {
    TitleNames(before, name, after);
    var title := before + name + after;
    BlockIsDropped(title, body, close);
    if rest != [] {
      EndsAsLastLine(title + Text(body), close);
    }
    DroppedInFront(title + Text(body) + close, rest);
  }

  lemma BareBlock(title: string, close: string)
    requires title == "HTTP_GET {\n" && close == "}\n"
    ensures IsBlock(title, End, close) && title == [] + "HTTP_GET" + " {\n"
  {
    assert title[9] == '{' && close[0] == '}';
    ShortLine(close);
    assert Render(End) == [] && Height(End) == 0;
  }

  /** The smallest HTTP_GET block prints nothing. */
  lemma HttpGetIsRemoved()
    ensures Filter("HTTP_GET {\n" + "}\n") == []
  {
    BareBlock("HTTP_GET {\n", "}\n");
    NamedCheckerIsRemoved([], "HTTP_GET", " {\n", End, "}\n", []);
    assert [] + "HTTP_GET" + " {\n" + Text(End) + "}\n" + [] == "HTTP_GET {\n" + "}\n";
    assert Filter([]) == [];
  }
}
