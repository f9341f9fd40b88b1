/** Reading any text as a translation file (localization/translationFile/format.js:3-69): which
    lines are refused, what each line means, and what is gathered from it. */
module TranslationReading {
  import opened Wrappers
  import opened TextLines
  import opened TranslationFormat

  // ----- lines -----

  /** The line begins an entry. */
  predicate BeginsEntry(line: string) {
    line != "" && IsWord(line[0])
  }

  /** A line fits when it is blank or starts with a number sign, a word character or white space. */
  predicate FitsRule(line: string) {
    Blank(line) || line[0] == '#' || IsWord(line[0]) || IsSpace(line[0])
  }

  /** A text is refused exactly when it has a line that fits no rule, wherever that is. */
  lemma {:induction false} RefusedExactly(state: State, lines: seq<string>)
    ensures Tokens(state, lines).None? <==> exists i | 0 <= i < |lines| :: !FitsRule(lines[i])
    decreases lines
  {
    if lines != [] {
      LineFits(state, lines[0]);
      hide LineTokens, FitsRule;
      if LineTokens(state, lines[0]).Some? {
        RefusedExactly(LineTokens(state, lines[0]).value.1, lines[1..]);
      }
      assert forall i | 0 < i < |lines| :: lines[i] == lines[1..][i - 1];
      assert forall i | 0 <= i < |lines[1..]| :: lines[1..][i] == lines[i + 1];
    }
  }

  lemma {:induction false} LineFits(state: State, line: string)
    ensures LineTokens(state, line).Some? <==> FitsRule(line)
  {}

  lemma {:induction false} ReadFailsExactly(content: string)
    ensures ReadBack(content).None? <==> exists line | line in Split(content) :: !FitsRule(line)
  {
    RefusedExactly(Start, Split(content));
    hide FitsRule;
  }

  /** What a line means depends on the last line before it that began an entry: whether there was
      one, and whether it had an equals sign. */
  ghost predicate StateBefore(lines: seq<string>, n: nat, state: State)
    requires n <= |lines|
  {
    match state
    case Start => forall i | 0 <= i < n :: !BeginsEntry(lines[i])
    case AfterValue => exists i | 0 <= i < n :: LastEntryAt(lines, n, i) && '=' in lines[i]
    case Undefined => exists i | 0 <= i < n :: LastEntryAt(lines, n, i) && '=' !in lines[i]
  }

  predicate LastEntryAt(lines: seq<string>, n: nat, i: nat)
    requires i < n <= |lines|
  {
    BeginsEntry(lines[i]) && forall j | i < j < n :: !BeginsEntry(lines[j])
  }

  /** What a line says: nothing, a comment, a key, a key and a value, or more of either. */
  ghost predicate Says(line: string, state: State, tokens: seq<Token>)
    requires FitsRule(line)
  {
    if Blank(line) then tokens == []
    else if line[0] == '#' then tokens == [Token(Comment, line[1..])]
    else if BeginsEntry(line) then
      if '=' in line then
        exists i | 0 <= i < |line| :: EqualsAt(line, i)
          && tokens == [Token(Key, Trim(line[..i])), Token(Value, TrimLeft(line[i + 1..]))]
      else tokens == [Token(Key, Trim(line))]
    else match state
      case Start => tokens == [Token(Key, line[1..])]
      case AfterValue => tokens == [Token(Value, line[1..])]
      case Undefined => tokens == []
  }

  predicate EqualsAt(line: string, i: nat)
    requires i < |line|
  {
    line[i] == '=' && '=' !in line[..i]
  }

  function Flat(parts: seq<seq<Token>>): seq<Token> {
    if parts == [] then [] else parts[0] + Flat(parts[1..])
  }

  lemma {:induction false} LineSays(state: State, line: string)
    requires FitsRule(line)
    ensures LineTokens(state, line).Some?
    ensures var (tokens, next) := LineTokens(state, line).value;
      && Says(line, state, tokens)
      && next == if !BeginsEntry(line) then state else if '=' in line then AfterValue else Undefined
  {
    if BeginsEntry(line) && '=' in line {
      assert EqualsAt(line, IndexOf(line, '='));
    }
    assert BeginsEntry(line) ==> !Blank(line) && line[0] != '#';
  }

  lemma {:induction false} StateMovesOn(lines: seq<string>, n: nat, state: State)
    requires n < |lines| && StateBefore(lines, n, state)
    ensures StateBefore(lines, n + 1,
              if !BeginsEntry(lines[n]) then state else if '=' in lines[n] then AfterValue else Undefined)
  {
    if BeginsEntry(lines[n]) {
      assert LastEntryAt(lines, n + 1, n);
    } else if !state.Start? {
      var i :| 0 <= i < n && LastEntryAt(lines, n, i) && ('=' in lines[i] <==> state.AfterValue?);
      assert LastEntryAt(lines, n + 1, i);
    }
  }

  /** From line n on, the tokens are what each line says in the state that the lines before it have
      left. */
  ghost predicate LineByLine(lines: seq<string>, n: nat, parts: seq<seq<Token>>, states: seq<State>)
    requires n <= |lines| && forall i | 0 <= i < |lines| :: FitsRule(lines[i])
    decreases |lines| - n
  {
    && |parts| == |states| == |lines| - n
    && (n < |lines| ==>
          && StateBefore(lines, n, states[0]) && Says(lines[n], states[0], parts[0])
          && LineByLine(lines, n + 1, parts[1..], states[1..]))
  }

  lemma {:induction false} OneMoreLine(lines: seq<string>, n: nat, tokens: seq<Token>, state: State,
      parts: seq<seq<Token>>, states: seq<State>)
    requires n < |lines| && (forall i | 0 <= i < |lines| :: FitsRule(lines[i]))
    requires StateBefore(lines, n, state) && Says(lines[n], state, tokens) && LineByLine(lines, n + 1, parts, states)
    ensures LineByLine(lines, n, [tokens] + parts, [state] + states)
  {
    hide StateBefore, Says, FitsRule;
    assert ([state] + states)[1..] == states && ([tokens] + parts)[1..] == parts;
  }

  /** The tokens of a text that is not refused: line by line what each line says. */
  lemma {:induction false} TokensExactly(lines: seq<string>, n: nat, state: State)
    returns (parts: seq<seq<Token>>, states: seq<State>)
    requires n <= |lines| && StateBefore(lines, n, state) && forall i | 0 <= i < |lines| :: FitsRule(lines[i])
    ensures LineByLine(lines, n, parts, states)
    ensures Tokens(state, lines[n..]) == Some(Flat(parts))
    decreases |lines| - n
  {
    if n == |lines| {
      parts, states := [], [];
    } else {
      LineSays(state, lines[n]);
      StateMovesOn(lines, n, state);
      var (tokens, next) := LineTokens(state, lines[n]).value;
      hide LineTokens, StateBefore, Says, FitsRule, BeginsEntry, LineByLine;
      var parts', states' := TokensExactly(lines, n + 1, next);
      OneMoreLine(lines, n, tokens, state, parts', states');
      parts, states := [tokens] + parts', [state] + states';
      assert lines[n..][1..] == lines[n + 1..] && parts[1..] == parts';
    }
  }

  // ----- messages -----

  /** The values of the tokens of one kind. */
  function Of(kind: Kind, tokens: seq<Token>): seq<string> {
    if tokens == [] then []
    else if tokens[0].kind == kind then [tokens[0].value] + Of(kind, tokens[1..])
    else Of(kind, tokens[1..])
  }

  function Joined(texts: seq<string>, separator: string): Option<string> {
    if texts == [] then None else Some(Join(texts, separator))
  }

  /** The message that comments and keys, and the values behind them, make up: the keys as one id,
      the comments and the values as lines. */
  function Gathered(heads: seq<Token>, values: seq<Token>): Ident {
    Ident(Joined(Of(Key, heads), ""), Joined(Of(Comment, heads), "\n"), Joined(Of(Value, values), "\n"))
  }

  predicate AllHeads(tokens: seq<Token>) {
    forall t | t in tokens :: !t.kind.Value?
  }

  predicate AllValues(tokens: seq<Token>) {
    forall t | t in tokens :: t.kind.Value?
  }

  lemma {:induction false} OfOneMore(kind: Kind, tokens: seq<Token>, t: Token)
    ensures Of(kind, tokens + [t]) == Of(kind, tokens) + if t.kind == kind then [t.value] else []
  {
    if tokens == [] {
      assert tokens + [t] == [t] && [t][1..] == [];
    } else {
      assert (tokens + [t])[1..] == tokens[1..] + [t];
      OfOneMore(kind, tokens[1..], t);
    }
  }

  lemma {:induction false} JoinedOneMore(texts: seq<string>, text: string, separator: string)
    ensures Joined(texts + [text], separator) == Appended(Joined(texts, separator), separator, text)
  {
    if texts != [] {
      JoinOneMore(texts, text, separator);
    }
  }

  lemma {:induction false} FeedOneMore(p: Parser, tokens: seq<Token>, t: Token)
    ensures FeedAll(p, tokens + [t]) == Feed(FeedAll(p, tokens), t)
    decreases tokens
  {
    if tokens == [] {
      assert tokens + [t] == [t] && [t][1..] == [];
    } else {
      assert (tokens + [t])[1..] == tokens[1..] + [t];
      FeedOneMore(Feed(p, tokens[0]), tokens[1..], t);
    }
  }

  /** One more comment or key for the message that is being begun. */
  lemma {:induction false} HeadFed(q: Parser, front: seq<Token>, t: Token)
    requires !t.kind.Value? && q.current == Gathered(front, [])
    ensures Feed(q, t) == Parser(q.done, Gathered(front + [t], []))
  {
    NothingGathered();
    OfOneMore(Key, front, t);
    OfOneMore(Comment, front, t);
    JoinedOneMore(Of(Key, front), t.value, "");
    JoinedOneMore(Of(Comment, front), t.value, "\n");
    hide Of, Joined, Appended;
    assert Of(Key, front) + [] == Of(Key, front) && Of(Comment, front) + [] == Of(Comment, front);
  }

  lemma {:induction false} NextBegins(p: Parser, t: Token)
    requires !t.kind.Value? && (p.current.message.None? ==> p.current == BLANK)
    ensures Feed(p, t) == Feed(Parser(p.done + Done(p.current), BLANK), t)
  {
    assert p.done + [] == p.done;
  }

  /** Comments and keys behind a message, or at the beginning, begin the next one. */
  lemma {:induction false} HeadsFed(p: Parser, heads: seq<Token>)
    requires AllHeads(heads) && heads != [] && (p.current.message.None? ==> p.current == BLANK)
    ensures FeedAll(p, heads) == Parser(p.done + Done(p.current), Gathered(heads, []))
    decreases |heads|
  {
    var front, t := heads[..|heads| - 1], heads[|heads| - 1];
    assert heads == front + [t] && !t.kind.Value?;
    FeedOneMore(p, front, t);
    NothingFed(p);
    hide Gathered, FeedAll, Feed, Done;
    if front == [] {
      NextBegins(p, t);
      HeadFed(Parser(p.done + Done(p.current), BLANK), [], t);
    } else {
      HeadsFed(p, front);
      HeadFed(FeedAll(p, front), front, t);
    }
  }

  lemma {:induction false} NothingFed(p: Parser)
    ensures FeedAll(p, []) == p && Gathered([], []) == BLANK
    ensures Of(Key, []) == Of(Comment, []) == [] && Joined([], "") == Joined([], "\n") == None
    ensures forall kind :: Of(kind, []) == []
  {}

  lemma {:induction false} NothingGathered()
    ensures Joined(Of(Value, []), "\n") == None
  {}

  /** Values go to the message that is being read. */
  lemma {:induction false} ValuesFed(p: Parser, heads: seq<Token>, values: seq<Token>)
    requires AllValues(values) && p.current == Gathered(heads, [])
    ensures FeedAll(p, values) == Parser(p.done, Gathered(heads, values))
    decreases |values|
  {
    if values == [] {
      NothingFed(p);
    } else {
      var front, t := values[..|values| - 1], values[|values| - 1];
      assert values == front + [t] && t.kind.Value?;
      FeedOneMore(p, front, t);
      OfOneMore(Value, front, t);
      JoinedOneMore(Of(Value, front), t.value, "\n");
      hide Of, Joined, FeedAll;
      ValuesFed(p, heads, front);
    }
  }

  /** Any tokens: comments and keys, and the values behind them, are one message; a message ends
      where the next comment or key comes. */
  lemma {:induction false} GroupFed(p: Parser, heads: seq<Token>, values: seq<Token>)
    requires AllHeads(heads) && heads != [] && AllValues(values)
    requires p.current.message.None? ==> p.current == BLANK
    ensures FeedAll(p, heads + values) == Parser(p.done + Done(p.current), Gathered(heads, values))
  {
    HeadsFed(p, heads);
    FedInTwo(p, heads, values);
    ValuesFed(FeedAll(p, heads), heads, values);
  }

  lemma {:induction false} FedInTwo(p: Parser, a: seq<Token>, b: seq<Token>)
    ensures FeedAll(p, a + b) == FeedAll(FeedAll(p, a), b)
    decreases a
  {
    if a == [] {
      assert a + b == b;
    } else {
      assert (a + b)[1..] == a[1..] + b;
      FedInTwo(Feed(p, a[0]), a[1..], b);
    }
  }

  /** At the end, comments and keys without a value are lost, and so is a last message that is
      empty; one that is empty before another is not. */
  lemma {:induction false} EndsExactly(p: Parser, heads: seq<Token>, values: seq<Token>)
    requires AllHeads(heads) && heads != [] && AllValues(values)
    requires p.current.message.None? ==> p.current == BLANK
    ensures Finish(FeedAll(p, heads + values)) == p.done + Done(p.current) +
      if values == [] || Join(Of(Value, values), "\n") == "" then [] else [Gathered(heads, values)]
  {
    GroupFed(p, heads, values);
    AllOfKind(values);
    if values == [] {
      NothingGathered();
    }
    hide Of, FeedAll, Join;
  }

  lemma {:induction false} AllOfKind(values: seq<Token>)
    requires AllValues(values)
    ensures |Of(Value, values)| == |values|
  {
    if values != [] {
      AllOfKind(values[1..]);
    }
  }

  // ----- printing -----

  /** An entry without line breaks as it is printed. */
  lemma {:induction false} SimplePrint(id: string, description: string, message: string)
    requires '=' !in id && '\n' !in description && '\n' !in message && description != ""
    ensures PrintOne(Ident(Some(id), None, Some(message))) == id + " = " + message + "\n"
    ensures PrintOne(Ident(Some(id), Some(description), Some(message)))
         == "# " + description + "\n" + id + " = " + message + "\n"
  {
    OneLine(description);
    OneLine(message);
    OneLine("");
    KeptId(id);
    hide SplitBreaks, Identifier;
    assert "" + id == id;
  }

  lemma {:induction false} OneLine(s: string)
    requires '\n' !in s
    ensures SplitBreaks(s) == [s]
  {
    if s != "" {
      OneLine(s[1..]);
      assert [s[0]] + s[1..] == s;
    }
  }

  lemma {:induction false} KeptId(id: string)
    requires '=' !in id
    ensures Identifier(id) == id
  {
    if id != "" {
      KeptId(id[1..]);
      assert [id[0]] + id[1..] == id;
    }
  }

  lemma {:induction false} CutBehindFirst(s: string, j: nat)
    requires j + 1 < |s|
    ensures s[..j + 1] == [s[0]] + s[1..][..j] && s[j + 2..] == s[1..][j + 1..] && s[j + 1] == s[1..][j]
    ensures [s[0]] + (s[1..][..j] + s[1..][j + 1..]) == s[..j + 1] + s[j + 2..]
  {}

  /** Of an id the first equals sign is left out. */
  lemma {:induction false} IdentifierMeans(id: string) returns (k: nat)
    requires '=' in id
    ensures k < |id| && EqualsAt(id, k) && Identifier(id) == id[..k] + id[k + 1..]
  {
    if id[0] == '=' {
      k := 0;
    } else {
      var j := IdentifierMeans(id[1..]);
      k := j + 1;
      assert Identifier(id) == [id[0]] + Identifier(id[1..]);
      hide Identifier;
      CutBehindFirst(id, j);
    }
  }
}
