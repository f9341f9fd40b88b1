/** Printing messages and reading them back, as the build does
    (war/gulpfile.js:151-170). */
module TranslationRoundTrip {
  import opened Wrappers
  import opened TextLines
  import opened TranslationFormat

  /** An entry whose printed id reads as one: a word character first, and neither an equals
      sign nor a line break. */
  predicate Printable(ident: Ident) {
    && Complete(ident)
    && var id := Identifier(ident.id.value);
       id != "" && IsWord(id[0]) && '=' !in id && '\n' !in id
  }

  predicate PrintableAll(idents: seq<Ident>) {
    forall i | 0 <= i < |idents| :: Printable(idents[i])
  }

  // ----- what comes back -----

  /** Every line of the description gets one leading space. */
  function Spaced(description: string): Option<string> {
    if description == "" then None else Some(Join(Prefixed(" ", SplitBreaks(description)), "\n"))
  }

  /** The first line loses its leading space, the others are dropped when they are blank. */
  function Canonical(message: string): string {
    var lines := SplitBreaks(message);
    Join([TrimLeft(lines[0])] + NonBlank(lines[1..]), "\n")
  }

  function Reparsed(ident: Ident): Ident
    requires Complete(ident)
  {
    Ident(Some(TrimRight(Identifier(ident.id.value))), Spaced(DescriptionText(ident)),
          Some(Canonical(ident.message.value)))
  }

  function ReparsedAll(idents: seq<Ident>): seq<Ident>
    requires CompleteAll(idents)
  {
    seq(|idents|, i requires 0 <= i < |idents| => Reparsed(idents[i]))
  }

  // ----- the printed lines -----

  function CommentLines(description: string): seq<string> {
    if description == "" then [] else Prefixed("# ", SplitBreaks(description))
  }

  function MessageLines(id: string, message: string): seq<string> {
    var lines := SplitBreaks(message);
    [Identifier(id) + " = " + lines[0]] + Prefixed("\t", lines[1..])
  }

  function EntryLines(ident: Ident): seq<string>
    requires Complete(ident)
  {
    CommentLines(DescriptionText(ident)) + MessageLines(ident.id.value, ident.message.value)
  }

  lemma {:induction false} MessagePrinted(id: string, message: string)
    ensures Identifier(id) + " = " + Join(SplitBreaks(message), "\n\t") + "\n" == Unlines(MessageLines(id, message))
  {
    var lines := SplitBreaks(message);
    var head := Identifier(id) + " = ";
    var rest := lines[1..];
    assert MessageLines(id, message)[1..] == Prefixed("\t", rest);
    if |lines| > 1 {
      JoinPrefixed("\t", rest);
      var j := Join(rest, "\n\t");
      assert "\n" + "\t" == "\n\t";
      assert head + (lines[0] + "\n\t" + j) + "\n" == (head + lines[0]) + "\n" + ("\t" + j + "\n");
    } else {
      assert Unlines(Prefixed("\t", rest)) == "";
    }
  }

  lemma {:induction false} CommentPrinted(description: string)
    ensures var text := Join(SplitBreaks(description), "\n# ");
            (if text != "" then "# " + text + "\n" else "") == Unlines(CommentLines(description))
  {
    var lines := SplitBreaks(description);
    if description != "" {
      JoinSplitBreaks(description);
      JoinPrefixed("# ", lines);
      assert "\n" + "# " == "\n# ";
    }
  }

  lemma {:induction false} EntryPrinted(ident: Ident)
    requires Complete(ident)
    ensures PrintOne(ident) == Unlines(EntryLines(ident))
  {
    hide Join, SplitBreaks, Identifier, Unlines, CommentLines, MessageLines;
    var d, id, m := DescriptionText(ident), ident.id.value, ident.message.value;
    CommentPrinted(d);
    MessagePrinted(id, m);
    UnlinesConcat(CommentLines(d), MessageLines(id, m));
    var front, translation := Unlines(CommentLines(d)), Join(SplitBreaks(m), "\n\t");
    assert front + Identifier(id) + " = " + translation + "\n" == front + (Identifier(id) + " = " + translation + "\n");
  }

  function AllLines(idents: seq<Ident>): seq<string>
    requires CompleteAll(idents)
  {
    if idents == [] then [] else AllLines(idents[..|idents| - 1]) + EntryLines(idents[|idents| - 1])
  }

  lemma {:induction false} AllPrinted(idents: seq<Ident>)
    requires CompleteAll(idents)
    ensures Print(idents) == Unlines(AllLines(idents))
    decreases |idents|
  {
    if idents != [] {
      AllPrinted(idents[..|idents| - 1]);
      EntryPrinted(idents[|idents| - 1]);
      UnlinesConcat(AllLines(idents[..|idents| - 1]), EntryLines(idents[|idents| - 1]));
    }
  }

  lemma {:induction false} LinesHaveNoBreak(idents: seq<Ident>)
    requires CompleteAll(idents) && PrintableAll(idents)
    ensures forall l | l in AllLines(idents) :: '\n' !in l
    decreases |idents|
  {
    if idents != [] {
      LinesHaveNoBreak(idents[..|idents| - 1]);
      EntryHasNoBreak(idents[|idents| - 1]);
    }
  }

  lemma {:induction false} EntryHasNoBreak(ident: Ident)
    requires Printable(ident)
    ensures forall l | l in EntryLines(ident) :: '\n' !in l
  {
    hide Identifier, SplitBreaks;
  }

  // ----- their tokens -----

  function Values(lines: seq<string>): seq<Token> {
    seq(|lines|, i requires 0 <= i < |lines| => Token(Value, lines[i]))
  }

  function Comments(lines: seq<string>): seq<Token> {
    seq(|lines|, i requires 0 <= i < |lines| => Token(Comment, " " + lines[i]))
  }

  function CommentTokens(description: string): seq<Token> {
    if description == "" then [] else Comments(SplitBreaks(description))
  }

  function MessageTokens(id: string, message: string): seq<Token> {
    var lines := SplitBreaks(message);
    [Token(Key, TrimRight(Identifier(id))), Token(Value, TrimLeft(lines[0]))] + Values(NonBlank(lines[1..]))
  }

  function EntryTokens(ident: Ident): seq<Token>
    requires Complete(ident)
  {
    CommentTokens(DescriptionText(ident)) + MessageTokens(ident.id.value, ident.message.value)
  }

  lemma {:induction false} CommentsTokenized(state: State, lines: seq<string>, rest: seq<string>)
    ensures Tokens(state, Prefixed("# ", lines) + rest) == Prepend(Comments(lines), Tokens(state, rest))
    decreases |lines|
  {
    var all := Prefixed("# ", lines) + rest;
    if lines == [] {
      assert all == rest && Comments(lines) == [];
      PrependNothing(Tokens(state, rest));
    } else {
      assert all[1..] == Prefixed("# ", lines[1..]) + rest;
      CommentsTokenized(state, lines[1..], rest);
      var t := Token(Comment, " " + lines[0]);
      assert all[0] == "# " + lines[0] && all[0][0] == '#' && !IsSpace('#');
      assert all[0][1..] == " " + lines[0];
      assert LineTokens(state, all[0]) == Some(([t], state));
      PrependTwice([t], Comments(lines[1..]), Tokens(state, rest));
      assert [t] + Comments(lines[1..]) == Comments(lines);
    }
  }

  lemma {:induction false} ValuesTokenized(lines: seq<string>, rest: seq<string>)
    ensures Tokens(AfterValue, Prefixed("\t", lines) + rest)
         == Prepend(Values(NonBlank(lines)), Tokens(AfterValue, rest))
    decreases |lines|
  {
    var all := Prefixed("\t", lines) + rest;
    if lines == [] {
      assert all == rest && Values(NonBlank(lines)) == [];
      PrependNothing(Tokens(AfterValue, rest));
    } else {
      var l, more := lines[0], NonBlank(lines[1..]);
      assert all[1..] == Prefixed("\t", lines[1..]) + rest && all[0] == "\t" + l;
      ValuesTokenized(lines[1..], rest);
      TabbedLine(l);
      PrependNothing(Tokens(AfterValue, all[1..]));
      PrependTwice([Token(Value, l)], Values(more), Tokens(AfterValue, rest));
      ValuesOneMore(l, more);
      hide LineTokens, Prefixed, Values, Blank, Prepend;
      assert LineTokens(AfterValue, all[0]) == Some((if Blank(l) then [] else [Token(Value, l)], AfterValue));
      assert Tokens(AfterValue, all)
          == Prepend(if Blank(l) then [] else [Token(Value, l)], Tokens(AfterValue, all[1..]));
    }
  }

  lemma {:induction false} ValuesOneMore(l: string, lines: seq<string>)
    ensures [Token(Value, l)] + Values(lines) == Values([l] + lines)
  {
    var left, right := [Token(Value, l)] + Values(lines), Values([l] + lines);
    assert |left| == |right|;
    assert forall i | 0 <= i < |right| :: left[i] == right[i];
  }

  lemma {:induction false} TabbedLine(l: string)
    ensures LineTokens(AfterValue, "\t" + l) == Some((if Blank(l) then [] else [Token(Value, l)], AfterValue))
  {
    var line := "\t" + l;
    assert line[1..] == l;
    assert Blank(line) <==> Blank(l) by {
      if Blank(line) {
        forall i | 0 <= i < |l| ensures IsSpace(l[i]) {
          assert l[i] == line[i + 1];
        }
      }
    }
  }

  lemma {:induction false} FirstIndex(s: string, c: char, i: nat)
    requires i < |s| && s[i] == c && c !in s[..i]
    ensures IndexOf(s, c) == i
  {}

  lemma {:induction false} KeyLine(state: State, id: string, first: string)
    requires id != "" && IsWord(id[0]) && '=' !in id
    ensures LineTokens(state, id + " = " + first)
         == Some(([Token(Key, TrimRight(id)), Token(Value, TrimLeft(first))], AfterValue))
  {
    var line := id + " = " + first;
    var i := |id| + 1;
    KeyLineParts(id, first);
    FirstIndex(line, '=', i);
    TrimmedKey(id);
    hide TrimRight, TrimLeft, IndexOf, Trim;
    assert !Blank(line) && '=' in line;
  }

  lemma {:induction false} KeyLineParts(id: string, first: string)
    requires id != "" && IsWord(id[0]) && '=' !in id
    ensures var line, i := id + " = " + first, |id| + 1;
      && i < |line| && line[0] == id[0] && line[i] == '=' && '=' !in line[..i]
      && line[..i] == id + " " && line[i + 1..] == " " + first && TrimLeft(" " + first) == TrimLeft(first)
  {
    hide TrimLeft;
    var line, i := id + " = " + first, |id| + 1;
    assert line[..i] == id + " " && line[i + 1..] == " " + first;
    SpaceTrimmed(first);
  }

  lemma {:induction false} SpaceTrimmed(first: string)
    ensures TrimLeft(" " + first) == TrimLeft(first)
  {
    assert (" " + first)[1..] == first;
  }

  lemma {:induction false} TrimmedKey(id: string)
    requires id != "" && IsWord(id[0])
    ensures Trim(id + " ") == TrimRight(id)
  {
    assert (id + " ")[..|id|] == id && (id + " ")[0] == id[0];
  }

  lemma {:induction false} MessageTokenized(state: State, id: string, message: string, rest: seq<string>)
    requires Identifier(id) != "" && IsWord(Identifier(id)[0]) && '=' !in Identifier(id)
    ensures Tokens(state, MessageLines(id, message) + rest)
         == Prepend(MessageTokens(id, message), Tokens(AfterValue, rest))
  {
    var lines, all := SplitBreaks(message), MessageLines(id, message) + rest;
    hide SplitBreaks, Identifier, LineTokens, TrimLeft, TrimRight;
    var key := [Token(Key, TrimRight(Identifier(id))), Token(Value, TrimLeft(lines[0]))];
    KeyLine(state, Identifier(id), lines[0]);
    assert all[1..] == Prefixed("\t", lines[1..]) + rest;
    assert all[0] == Identifier(id) + " = " + lines[0];
    ValuesTokenized(lines[1..], rest);
    PrependTwice(key, Values(NonBlank(lines[1..])), Tokens(AfterValue, rest));
  }

  lemma {:induction false} EntryTokenized(state: State, ident: Ident, rest: seq<string>)
    requires Complete(ident) && Printable(ident)
    ensures Tokens(state, EntryLines(ident) + rest) == Prepend(EntryTokens(ident), Tokens(AfterValue, rest))
  {
    hide Tokens, MessageLines, MessageTokens, CommentLines, CommentTokens, Identifier;
    var d, id, message := DescriptionText(ident), ident.id.value, ident.message.value;
    MessageTokenized(state, id, message, rest);
    CommentsBefore(state, d, MessageLines(id, message) + rest);
    assert EntryLines(ident) + rest == CommentLines(d) + (MessageLines(id, message) + rest);
    PrependTwice(CommentTokens(d), MessageTokens(id, message), Tokens(AfterValue, rest));
  }

  lemma {:induction false} CommentsBefore(state: State, description: string, rest: seq<string>)
    ensures Tokens(state, CommentLines(description) + rest) == Prepend(CommentTokens(description), Tokens(state, rest))
  {
    if description == "" {
      assert CommentLines(description) + rest == rest;
      PrependNothing(Tokens(state, rest));
    } else {
      CommentsTokenized(state, SplitBreaks(description), rest);
    }
  }

  // ----- what the parser makes of them -----

  lemma {:induction false} FeedAllConcat(p: Parser, a: seq<Token>, b: seq<Token>)
    ensures FeedAll(p, a + b) == FeedAll(FeedAll(p, a), b)
    decreases a
  {
    if a == [] {
      assert a + b == b;
    } else {
      assert (a + b)[1..] == a[1..] + b;
      FeedAllConcat(Feed(p, a[0]), a[1..], b);
    }
  }

  lemma {:induction false} FeedOneMore(p: Parser, a: seq<Token>, t: Token)
    ensures FeedAll(p, a + [t]) == Feed(FeedAll(p, a), t)
  {
    FeedAllConcat(p, a, [t]);
    assert [t][1..] == [];
  }

  /** Between two entries. */
  predicate Ready(p: Parser) {
    p.current == BLANK || p.current.message.Some?
  }

  lemma {:induction false} CommentsFed(p: Parser, lines: seq<string>)
    requires Ready(p) && lines != []
    ensures FeedAll(p, Comments(lines))
         == Parser(p.done + Done(p.current), BLANK.(description := Some(Join(Prefixed(" ", lines), "\n"))))
    decreases |lines|
  {
    var n := |lines| - 1;
    var front, l := lines[..n], " " + lines[n];
    var t := Token(Comment, l);
    CommentsSplit(front, lines[n]);
    assert front + [lines[n]] == lines;
    FeedOneMore(p, Comments(front), t);
    if n > 0 {
      CommentsFed(p, front);
      hide FeedAll, Join, Comments, Done, Prefixed;
      JoinOneMore(Prefixed(" ", front), l, "\n");
    } else {
      assert Comments(front) == [] && Prefixed(" ", front) == [];
      assert p.done + [] == p.done;
    }
  }

  lemma {:induction false} CommentsSplit(front: seq<string>, l: string)
    ensures Comments(front + [l]) == Comments(front) + [Token(Comment, " " + l)]
    ensures Prefixed(" ", front + [l]) == Prefixed(" ", front) + [" " + l]
  {}

  lemma {:induction false} ValuesFed(p: Parser, lines: seq<string>)
    requires p.current.message.Some?
    ensures FeedAll(p, Values(lines))
         == p.(current := p.current.(message := Some(Join([p.current.message.value] + lines, "\n"))))
    decreases |lines|
  {
    var message := p.current.message.value;
    if lines == [] {
      assert [message] + lines == [message];
    } else {
      var n := |lines| - 1;
      var front, t := lines[..n], Token(Value, lines[n]);
      hide FeedAll, Join, Values;
      ValuesLast(front, lines[n]);
      assert lines == front + [lines[n]];
      FeedOneMore(p, Values(front), t);
      ValuesFed(p, front);
      JoinOneMore([message] + front, lines[n], "\n");
      assert ([message] + front) + [lines[n]] == [message] + lines;
    }
  }

  lemma {:induction false} ValuesLast(lines: seq<string>, l: string)
    ensures Values(lines + [l]) == Values(lines) + [Token(Value, l)]
  {}

  /** The message part, with or without comments before it. */
  lemma {:induction false} MessageFed(p: Parser, id: string, message: string)
    requires p.current.message.Some? || p.current.id.None?
    ensures FeedAll(p, MessageTokens(id, message))
         == Parser(Next(p).done,
                   Next(p).current.(id := Some(TrimRight(Identifier(id))), message := Some(Canonical(message))))
  {
    var lines := SplitBreaks(message);
    hide SplitBreaks, Identifier, TrimLeft, TrimRight, Join;
    var key, first := Token(Key, TrimRight(Identifier(id))), Token(Value, TrimLeft(lines[0]));
    var p1 := Feed(p, key);
    var p2 := Feed(p1, first);
    var tokens := [key, first] + Values(NonBlank(lines[1..]));
    assert tokens[1..][0] == first && tokens[1..][1..] == Values(NonBlank(lines[1..]));
    assert FeedAll(p, tokens) == FeedAll(p1, tokens[1..]) == FeedAll(p2, Values(NonBlank(lines[1..])));
    ValuesFed(p2, NonBlank(lines[1..]));
  }

  lemma {:induction false} EntryFed(p: Parser, ident: Ident)
    requires Ready(p) && Complete(ident)
    ensures FeedAll(p, EntryTokens(ident)) == Parser(p.done + Done(p.current), Reparsed(ident))
  {
    hide Canonical, Identifier, TrimRight, MessageTokens;
    var d, id, message := DescriptionText(ident), ident.id.value, ident.message.value;
    FeedAllConcat(p, CommentTokens(d), MessageTokens(id, message));
    assert p.done + [] == p.done;
    if d != "" {
      CommentsFed(p, SplitBreaks(d));
    }
    MessageFed(FeedAll(p, CommentTokens(d)), id, message);
  }

  // ----- the whole file -----

  function AllTokens(idents: seq<Ident>): seq<Token>
    requires CompleteAll(idents)
  {
    if idents == [] then [] else AllTokens(idents[..|idents| - 1]) + EntryTokens(idents[|idents| - 1])
  }

  lemma {:induction false} LastEntry(idents: seq<Ident>, rest: seq<string>)
    requires CompleteAll(idents) && idents != []
    ensures var front, ident := idents[..|idents| - 1], idents[|idents| - 1];
      && AllLines(idents) + rest == AllLines(front) + (EntryLines(ident) + rest)
      && AllTokens(idents) == AllTokens(front) + EntryTokens(ident)
  {
    hide EntryLines, EntryTokens;
  }

  lemma {:induction false} AllTokenized(idents: seq<Ident>, rest: seq<string>)
    requires CompleteAll(idents) && PrintableAll(idents)
    ensures Tokens(Start, AllLines(idents) + rest)
         == Prepend(AllTokens(idents), Tokens(if idents == [] then Start else AfterValue, rest))
    decreases |idents|
  {
    if idents == [] {
      assert AllLines(idents) + rest == rest;
      PrependNothing(Tokens(Start, rest));
    } else {
      var front, ident := idents[..|idents| - 1], idents[|idents| - 1];
      assert Complete(ident) && Printable(ident);
      LastEntry(idents, rest);
      hide Tokens, EntryLines, EntryTokens, Printable, Prepend, AllLines, AllTokens, Complete;
      AllTokenized(front, EntryLines(ident) + rest);
      var state := if front == [] then Start else AfterValue;
      EntryTokenized(state, ident, rest);
      PrependTwice(AllTokens(front), EntryTokens(ident), Tokens(AfterValue, rest));
    }
  }

  /** The parser behind all entries: the last one is still in its hands. */
  function ParserBehind(idents: seq<Ident>): Parser
    requires CompleteAll(idents)
  {
    if idents == [] then Parser([], BLANK)
    else Parser(ReparsedAll(idents[..|idents| - 1]), Reparsed(idents[|idents| - 1]))
  }

  lemma {:induction false} BehindAll(idents: seq<Ident>)
    requires CompleteAll(idents)
    ensures Ready(ParserBehind(idents))
    ensures ParserBehind(idents).done + Done(ParserBehind(idents).current) == ReparsedAll(idents)
  {
    hide Spaced, Canonical;
    if idents != [] {
      var n := |idents| - 1;
      assert ReparsedAll(idents[..n]) + [Reparsed(idents[n])] == ReparsedAll(idents);
    }
  }

  lemma {:induction false} AllFed(idents: seq<Ident>)
    requires CompleteAll(idents)
    ensures FeedAll(Parser([], BLANK), AllTokens(idents)) == ParserBehind(idents)
    decreases |idents|
  {
    if idents != [] {
      var front, ident := idents[..|idents| - 1], idents[|idents| - 1];
      hide EntryTokens, Reparsed, Ready, Feed, ReparsedAll, Done;
      AllFed(front);
      BehindAll(front);
      FeedAllConcat(Parser([], BLANK), AllTokens(front), EntryTokens(ident));
      EntryFed(ParserBehind(front), ident);
    }
  }

  /** What comes back from any list of printable entries: each entry in its place, except
      that a last entry whose message comes back empty is lost. */
  lemma {:induction false} PrintedReadsBack(idents: seq<Ident>)
    requires CompleteAll(idents) && PrintableAll(idents)
    ensures ReadBack(Print(idents)) == Some(ReparsedAll(
              if idents != [] && Canonical(idents[|idents| - 1].message.value) == ""
              then idents[..|idents| - 1] else idents))
  {
    PrintedTokens(idents);
    AllFed(idents);
    BehindAll(idents);
    hide Canonical, PrintableAll, CompleteAll, AllTokens, Tokens, Split, Print, FeedAll, Spaced;
  }

  lemma {:induction false} PrintedTokens(idents: seq<Ident>)
    requires CompleteAll(idents) && PrintableAll(idents)
    ensures Tokens(Start, Split(Print(idents))) == Some(AllTokens(idents))
  {
    AllPrinted(idents);
    LinesHaveNoBreak(idents);
    SplitUnlines(AllLines(idents));
    AllTokenized(idents, [""]);
    hide AllTokens, Tokens, Split, Print;
    LastLineEmpty(if idents == [] then Start else AfterValue);
    assert AllTokens(idents) + [] == AllTokens(idents);
  }

  lemma {:induction false} LastLineEmpty(state: State)
    ensures Tokens(state, [""]) == Some([])
  {
    assert [""][1..] == [];
    assert LineTokens(state, "") == Some(([], state));
    PrependNothing(Tokens(state, []));
  }

  // ----- exactly when nothing but the description changes -----

  /** No carriage return at a line break, no leading space, no blank line but the first. */
  predicate CleanMessage(message: string) {
    && PlainBreaks(message)
    && var lines := Split(message);
       && (lines[0] != "" ==> !IsSpace(lines[0][0]))
       && forall i | 0 < i < |lines| :: !Blank(lines[i])
  }

  lemma {:induction false} NonBlankKeeps(lines: seq<string>)
    ensures NonBlank(lines) == lines <==> forall i | 0 <= i < |lines| :: !Blank(lines[i])
    ensures |NonBlank(lines)| == |lines| ==> NonBlank(lines) == lines
  {
    if lines != [] {
      NonBlankKeeps(lines[1..]);
      assert forall i | 0 < i < |lines| :: lines[i] == lines[1..][i - 1];
      assert lines == [lines[0]] + lines[1..];
    }
  }

  function Total(lines: seq<string>): nat {
    if lines == [] then 0 else |lines[0]| + 1 + Total(lines[1..])
  }

  lemma {:induction false} JoinLength(lines: seq<string>)
    requires lines != []
    ensures |Join(lines, "\n")| == Total(lines) - 1
  {
    if |lines| > 1 {
      JoinLength(lines[1..]);
    } else {
      assert lines[1..] == [];
    }
  }

  lemma {:induction false} NonBlankShrinks(lines: seq<string>)
    ensures Total(NonBlank(lines)) <= Total(lines)
    ensures Total(NonBlank(lines)) == Total(lines) ==> NonBlank(lines) == lines
  {
    if lines != [] {
      NonBlankShrinks(lines[1..]);
      var r := [lines[0]] + NonBlank(lines[1..]);
      assert r[1..] == NonBlank(lines[1..]);
      assert lines == [lines[0]] + lines[1..];
    }
  }

  lemma {:induction false} CanonicalExactly(message: string)
    ensures Canonical(message) == message <==> CleanMessage(message)
  {
    hide Join, SplitBreaks, Split, PlainBreaks, NonBlank, TrimLeft;
    var lines := SplitBreaks(message);
    var rest, kept := lines[1..], [TrimLeft(lines[0])] + NonBlank(lines[1..]);
    JoinSplitBreaks(message);
    JoinSplit(message);
    JoinLength(lines);
    JoinLength(kept);
    assert kept[1..] == NonBlank(rest);
    NonBlankShrinks(rest);
    NonBlankKeeps(rest);
    assert [lines[0]] + rest == lines;
    assert forall i | 0 < i < |lines| :: lines[i] == rest[i - 1];
    assert forall i | 0 <= i < |rest| :: rest[i] == lines[i + 1];
    TrimLeftExactly(lines[0]);
  }

  lemma {:induction false} TrimLeftExactly(s: string)
    ensures TrimLeft(s) == s <==> (s != "" ==> !IsSpace(s[0]))
  {}

  lemma {:induction false} IdentifierExactly(id: string)
    ensures |Identifier(id)| == if '=' in id then |id| - 1 else |id|
    ensures '=' !in id ==> Identifier(id) == id
  {
    if id != "" && id[0] != '=' {
      IdentifierExactly(id[1..]);
      assert '=' in id <==> '=' in id[1..];
      assert id == [id[0]] + id[1..];
    }
  }

  /** Nothing in the entry changes but the description. */
  predicate Faithful(ident: Ident)
    requires Complete(ident)
  {
    var id := ident.id.value;
    '=' !in id && (id != "" ==> !IsSpace(id[|id| - 1])) && CleanMessage(ident.message.value)
  }

  function WithSpaces(ident: Ident): Ident {
    ident.(description := Spaced(DescriptionText(ident)))
  }

  lemma {:induction false} FaithfulExactly(ident: Ident)
    requires Complete(ident)
    ensures Reparsed(ident) == WithSpaces(ident) <==> Faithful(ident)
  {
    var id := ident.id.value;
    hide Identifier, TrimRight, CleanMessage, Canonical;
    IdentifierExactly(id);
    CanonicalExactly(ident.message.value);
    assert TrimRight(Identifier(id)) == id ==> |Identifier(id)| >= |id|;
  }

  function WithSpacesAll(idents: seq<Ident>): seq<Ident> {
    seq(|idents|, i requires 0 <= i < |idents| => WithSpaces(idents[i]))
  }

  lemma {:induction false} AllFaithfulExactly(idents: seq<Ident>)
    requires CompleteAll(idents)
    ensures ReparsedAll(idents) == WithSpacesAll(idents) <==> forall i | 0 <= i < |idents| :: Faithful(idents[i])
  {
    hide Faithful, Reparsed, WithSpaces;
    forall i | 0 <= i < |idents| ensures ReparsedAll(idents)[i] == WithSpacesAll(idents)[i] <==> Faithful(idents[i]) {
      FaithfulExactly(idents[i]);
    }
    if forall i | 0 <= i < |idents| :: Faithful(idents[i]) {
      assert ReparsedAll(idents) == WithSpacesAll(idents);
    }
  }

  /** The round trip changes nothing but the leading space of every description line exactly
      when every entry is faithful and the last message is not empty. */
  lemma {:induction false} RoundTripExactly(idents: seq<Ident>)
    requires CompleteAll(idents) && PrintableAll(idents)
    ensures ReadBack(Print(idents)) == Some(WithSpacesAll(idents))
       <==> (forall i | 0 <= i < |idents| :: Faithful(idents[i]))
            && (idents != [] ==> idents[|idents| - 1].message.value != "")
  {
    hide Canonical, Printable, Faithful, Reparsed, WithSpaces, ReadBack, Print;
    PrintedReadsBack(idents);
    AllFaithfulExactly(idents);
    if idents != [] {
      LastMessage(idents[|idents| - 1]);
    }
  }

  lemma {:induction false} LastMessage(ident: Ident)
    requires Complete(ident)
    ensures Faithful(ident) ==> Canonical(ident.message.value) == ident.message.value
    ensures ident.message.value == "" ==> Canonical(ident.message.value) == ""
  {
    CanonicalExactly(ident.message.value);
    hide Canonical, CleanMessage;
    EmptyCanonical();
  }

  lemma {:induction false} EmptyCanonical()
    ensures Canonical("") == ""
  {}
}
