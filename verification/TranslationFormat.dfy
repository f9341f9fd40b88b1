/** The translation file format: printer (localization/translationFile/index.js:4-26),
    tokenizer and parser (localization/translationFile/format.js:3-69). */
module TranslationFormat {
  import opened Wrappers
  import opened TextLines

  /** A message; what the file did not say is None. */
  datatype Ident = Ident(id: Option<string>, description: Option<string>, message: Option<string>)

  const BLANK: Ident := Ident(None, None, None)

  // ----- the printer -----

  /** Printing reads the id and the message. */
  predicate Complete(ident: Ident) {
    ident.id.Some? && ident.message.Some?
  }

  predicate CompleteAll(idents: seq<Ident>) {
    forall i | 0 <= i < |idents| :: Complete(idents[i])
  }

  /** The id without its first equals sign. */
  function Identifier(id: string): string {
    if id == "" then ""
    else if id[0] == '=' then id[1..]
    else [id[0]] + Identifier(id[1..])
  }

  function DescriptionText(ident: Ident): string {
    if ident.description.Some? then ident.description.value else ""
  }

  function PrintOne(ident: Ident): string
    requires Complete(ident)
  {
    var description := Join(SplitBreaks(DescriptionText(ident)), "\n# ");
    var translation := Join(SplitBreaks(ident.message.value), "\n\t");
    var comments := if description != "" then "# " + description + "\n" else "";
    comments + Identifier(ident.id.value) + " = " + translation + "\n"
  }

  function Print(idents: seq<Ident>): string
    requires CompleteAll(idents)
  {
    if idents == [] then "" else Print(idents[..|idents| - 1]) + PrintOne(idents[|idents| - 1])
  }

  lemma {:induction false} PrintOneMore(idents: seq<Ident>, n: nat)
    requires n < |idents| && CompleteAll(idents)
    ensures Print(idents[..n + 1]) == Print(idents[..n]) + PrintOne(idents[n])
  {
    assert idents[..n + 1][..n] == idents[..n];
  }

  // ----- the tokenizer -----

  datatype Kind = Comment | Key | Value
  datatype Token = Token(kind: Kind, value: string)

  /** After a line that holds only a key the state is neither of the two that the source
      defines, since it assigns an undefined constant. */
  datatype State = Start | Undefined | AfterValue

  function IndexOf(s: string, c: char): (i: nat)
    requires c in s
    ensures i < |s| && s[i] == c && c !in s[..i]
  {
    if s[0] == c then 0 else 1 + IndexOf(s[1..], c)
  }

  /** The tokens of one line and the state behind it; None is a syntax error. */
  function LineTokens(state: State, line: string): Option<(seq<Token>, State)> {
    if Blank(line) then Some(([], state))
    else if line[0] == '#' then Some(([Token(Comment, line[1..])], state))
    else if IsWord(line[0]) then
      if '=' !in line then Some(([Token(Key, Trim(line))], Undefined))
      else
        var i := IndexOf(line, '=');
        Some(([Token(Key, Trim(line[..i])), Token(Value, TrimLeft(line[i + 1..]))], AfterValue))
    else if IsSpace(line[0]) then
      var trimmed := line[1..];
      if state == Start then Some(([Token(Key, trimmed)], state))
      else if state == AfterValue then Some(([Token(Value, trimmed)], state))
      else Some(([], state))
    else None
  }

  function Tokens(state: State, lines: seq<string>): Option<seq<Token>>
    decreases lines
  {
    if lines == [] then Some([])
    else match LineTokens(state, lines[0])
      case None => None
      case Some((tokens, next)) => Prepend(tokens, Tokens(next, lines[1..]))
  }

  function Prepend(tokens: seq<Token>, rest: Option<seq<Token>>): Option<seq<Token>> {
    if rest.Some? then Some(tokens + rest.value) else None
  }

  method Tokenize(lines: seq<string>) returns (tokens: Option<seq<Token>>)
    ensures tokens == Tokens(Start, lines)
  {
    var state, done := Start, [];
    assert lines[0..] == lines;
    PrependNothing(Tokens(Start, lines));
    for n := 0 to |lines|
      invariant Tokens(Start, lines) == Prepend(done, Tokens(state, lines[n..]))
    {
      assert lines[n..][1..] == lines[n + 1..];
      var line := lines[n];
      if Blank(line) {
        PrependNothing(Tokens(state, lines[n + 1..]));
        continue;
      }
      ghost var was, before := done, state;
      if line[0] == '#' {
        done := done + [Token(Comment, line[1..])];
      } else if IsWord(line[0]) && '=' !in line {
        done := done + [Token(Key, Trim(line))];
        state := Undefined;
      } else if IsWord(line[0]) {
        var i := IndexOf(line, '=');
        done := done + [Token(Key, Trim(line[..i]))];
        done := done + [Token(Value, TrimLeft(line[i + 1..]))];
        state := AfterValue;
      } else if IsSpace(line[0]) {
        var trimmed := line[1..];
        if |trimmed| == 0 {
          continue;
        }
        if state == Start {
          done := done + [Token(Key, trimmed)];
        } else if state == AfterValue {
          done := done + [Token(Value, trimmed)];
        }
      } else {
        return None;
      }
      var tokens' := LineTokens(before, line).value.0;
      assert done == was + tokens' && state == LineTokens(before, line).value.1;
      PrependTwice(was, tokens', Tokens(state, lines[n + 1..]));
    }
    tokens := Some(done);
    assert lines[|lines|..] == [] && done + [] == done;
  }

  lemma {:induction false} PrependNothing(rest: Option<seq<Token>>)
    ensures Prepend([], rest) == rest
  {
    if rest.Some? {
      assert [] + rest.value == rest.value;
    }
  }

  lemma {:induction false} PrependTwice(a: seq<Token>, b: seq<Token>, rest: Option<seq<Token>>)
    ensures Prepend(a, Prepend(b, rest)) == Prepend(a + b, rest)
  {
    if rest.Some? {
      assert a + (b + rest.value) == (a + b) + rest.value;
    }
  }

  // ----- the parser -----

  /** What was yielded, and the message that is being read. */
  datatype Parser = Parser(done: seq<Ident>, current: Ident)

  function Done(current: Ident): seq<Ident> {
    if current.message.Some? then [current] else []
  }

  /** A comment or a key behind a message starts the next one. */
  function Next(p: Parser): Parser {
    if p.current.message.Some? then Parser(p.done + [p.current], BLANK) else p
  }

  function Appended(text: Option<string>, separator: string, more: string): Option<string> {
    Some(if text.Some? then text.value + separator + more else more)
  }

  function Feed(p: Parser, t: Token): Parser {
    match t.kind
    case Comment =>
      var q := Next(p);
      q.(current := q.current.(description := Appended(q.current.description, "\n", t.value)))
    case Key =>
      var q := Next(p);
      q.(current := q.current.(id := Appended(q.current.id, "", t.value)))
    case Value => p.(current := p.current.(message := Appended(p.current.message, "\n", t.value)))
  }

  function FeedAll(p: Parser, tokens: seq<Token>): Parser
    decreases tokens
  {
    if tokens == [] then p else FeedAll(Feed(p, tokens[0]), tokens[1..])
  }

  /** At the end an empty message counts as none. */
  function Finish(p: Parser): seq<Ident> {
    if p.current.message.Some? && p.current.message.value != "" then p.done + [p.current] else p.done
  }

  method Parse(tokens: seq<Token>) returns (idents: seq<Ident>)
    ensures idents == Finish(FeedAll(Parser([], BLANK), tokens))
  {
    var current := BLANK;
    idents := [];
    assert tokens[0..] == tokens;
    for n := 0 to |tokens|
      invariant FeedAll(Parser(idents, current), tokens[n..]) == FeedAll(Parser([], BLANK), tokens)
    {
      assert tokens[n..][1..] == tokens[n + 1..];
      var t := tokens[n];
      match t.kind {
        case Comment =>
          if current.message.Some? {
            idents := idents + [current];
            current := BLANK;
          }
          if current.description.None? {
            current := current.(description := Some(t.value));
          } else {
            current := current.(description := Some(current.description.value + "\n" + t.value));
          }
        case Key =>
          if current.message.Some? {
            idents := idents + [current];
            current := BLANK;
          }
          if current.id.None? {
            current := current.(id := Some(t.value));
          } else {
            assert current.id.value + "" == current.id.value;
            current := current.(id := Some(current.id.value + t.value));
          }
        case Value =>
          if current.message.None? {
            current := current.(message := Some(t.value));
          } else {
            current := current.(message := Some(current.message.value + "\n" + t.value));
          }
      }
    }
    if current.message.Some? && current.message.value != "" {
      idents := idents + [current];
    }
  }

  /** What reading a file gives; None is a syntax error. */
  function ReadBack(content: string): Option<seq<Ident>> {
    match Tokens(Start, Split(content))
    case None => None
    case Some(tokens) => Some(Finish(FeedAll(Parser([], BLANK), tokens)))
  }

  // ----- the file object -----

  /** A translation file made from messages or from content; the other one is computed when
      asked for, and kept. */
  class TranslationFile {
    var idents: Option<seq<Ident>>
    var content: Option<string>

    constructor FromMessageIdentList(list: seq<Ident>)
      ensures idents == Some(list) && content == None
    {
      idents, content := Some(list), None;
    }

    constructor FromContent(text: string)
      ensures idents == None && content == Some(text)
    {
      idents, content := None, Some(text);
    }

    method Source() returns (text: string)
      requires content.None? ==> idents.Some? && CompleteAll(idents.value)
      modifies this`content
      ensures content == Some(text)
      ensures text == if old(content).Some? then old(content).value else Print(idents.value)
    {
      hide Join, SplitBreaks, Identifier;
      if content.Some? {
        return content.value;
      }
      text := "";
      for n := 0 to |idents.value|
        invariant content.None? && text == Print(idents.value[..n])
      {
        var ident := idents.value[n];
        PrintOneMore(idents.value, n);
        var identifier := Identifier(ident.id.value);
        var description := Join(SplitBreaks(DescriptionText(ident)), "\n# ");
        var translation := Join(SplitBreaks(ident.message.value), "\n\t");
        if |description| > 0 {
          text := text + ("# " + description + "\n" + identifier + " = " + translation + "\n");
        } else {
          text := text + (identifier + " = " + translation + "\n");
        }
      }
      assert idents.value[..|idents.value|] == idents.value;
      content := Some(text);
    }

    /** Fails when the content has a line that fits no rule; then nothing is kept. */
    method GetMessageIdents() returns (list: Option<seq<Ident>>)
      requires idents.None? ==> content.Some?
      modifies this`idents
      ensures idents == list || (list.None? && idents == old(idents))
      ensures list == if old(idents).Some? then old(idents) else ReadBack(content.value)
    {
      if idents.Some? {
        return idents;
      }
      var tokens := Tokenize(Split(content.value));
      if tokens.None? {
        return None;
      }
      var parsed := Parse(tokens.value);
      idents := Some(parsed);
      list := idents;
    }
  }
}
