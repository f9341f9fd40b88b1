/** Splitting text into lines and joining lines, as the translation files use it. White space
    is a small fixed set of characters. */
module TextLines {

  predicate IsSpace(c: char) {
    c == ' ' || c == '\t' || c == '\n' || c == '\r'
  }

  predicate IsWord(c: char) {
    'a' <= c <= 'z' || 'A' <= c <= 'Z' || '0' <= c <= '9' || c == '_'
  }

  /** Nothing is left after trimming. */
  predicate Blank(s: string) {
    forall i | 0 <= i < |s| :: IsSpace(s[i])
  }

  function TrimLeft(s: string): (r: string)
    ensures |r| <= |s|
    ensures |r| == |s| ==> r == s
    ensures r != "" ==> !IsSpace(r[0])
  {
    if s != "" && IsSpace(s[0]) then TrimLeft(s[1..]) else s
  }

  function TrimRight(s: string): (r: string)
    ensures |r| <= |s| && r == s[..|r|]
    ensures r != "" ==> !IsSpace(r[|r| - 1])
  {
    if s != "" && IsSpace(s[|s| - 1]) then TrimRight(s[..|s| - 1]) else s
  }

  function Trim(s: string): string {
    TrimRight(TrimLeft(s))
  }

  function Split(s: string): (lines: seq<string>)
    ensures lines != [] && forall l | l in lines :: '\n' !in l
  {
    if s == "" then [""]
    else
      var rest := Split(s[1..]);
      if s[0] == '\n' then [""] + rest else [[s[0]] + rest[0]] + rest[1..]
  }

  /** The length of the line break at the start, with the carriage returns around it. */
  function BreakAt(s: string): (n: nat)
    ensures n <= |s|
  {
    if s != "" && s[0] == '\n' then (if |s| > 1 && s[1] == '\r' then 2 else 1)
    else if |s| > 1 && s[0] == '\r' && s[1] == '\n' then (if |s| > 2 && s[2] == '\r' then 3 else 2)
    else 0
  }

  /** Splits at every line break with its carriage returns. */
  function SplitBreaks(s: string): (lines: seq<string>)
    ensures lines != [] && forall l | l in lines :: '\n' !in l
  {
    if s == "" then [""]
    else if BreakAt(s) > 0 then [""] + SplitBreaks(s[BreakAt(s)..])
    else
      var rest := SplitBreaks(s[1..]);
      [[s[0]] + rest[0]] + rest[1..]
  }

  function Join(lines: seq<string>, separator: string): string
    requires lines != []
  {
    if |lines| == 1 then lines[0] else lines[0] + separator + Join(lines[1..], separator)
  }

  /** Every line ended by a line break. */
  function Unlines(lines: seq<string>): string {
    if lines == [] then "" else lines[0] + "\n" + Unlines(lines[1..])
  }

  function Prefixed(prefix: string, lines: seq<string>): seq<string> {
    seq(|lines|, i requires 0 <= i < |lines| => prefix + lines[i])
  }

  function NonBlank(lines: seq<string>): (r: seq<string>)
    ensures |r| <= |lines| && forall l | l in r :: l in lines && !Blank(l)
  {
    if lines == [] then []
    else if Blank(lines[0]) then NonBlank(lines[1..])
    else [lines[0]] + NonBlank(lines[1..])
  }

  // ----- laws -----

  /** The white space and the word characters, by their codes. */
  lemma {:induction false} CharacterClasses(c: char)
    ensures IsSpace(c) <==> c as int in {9, 10, 13, 32}
    ensures IsWord(c) <==>
      (var n := c as int; 48 <= n <= 57 || 65 <= n <= 90 || n == 95 || 97 <= n <= 122)
  {}

  /** Trimming takes away white space, and nothing else. */
  lemma {:induction false} TrimsLeft(s: string)
    ensures var r := TrimLeft(s); r == s[|s| - |r|..] && forall i | 0 <= i < |s| - |r| :: IsSpace(s[i])
  {
    if s != "" && IsSpace(s[0]) {
      TrimsLeft(s[1..]);
      assert forall i | 0 < i < |s| :: s[i] == s[1..][i - 1];
    }
  }

  lemma {:induction false} TrimsRight(s: string)
    ensures var r := TrimRight(s); r == s[..|r|] && forall i | |r| <= i < |s| :: IsSpace(s[i])
  {
    if s != "" && IsSpace(s[|s| - 1]) {
      TrimsRight(s[..|s| - 1]);
    }
  }

  /** Lines with what separates them. */
  function Woven(lines: seq<string>, breaks: seq<string>): string
    requires |lines| == |breaks| + 1
  {
    if breaks == [] then lines[0] else lines[0] + breaks[0] + Woven(lines[1..], breaks[1..])
  }

  /** What comes first in the text. */
  predicate StartsWithReturn(lines: seq<string>, breaks: seq<string>)
    requires |lines| == |breaks| + 1
  {
    if lines[0] != "" then lines[0][0] == '\r' else breaks != [] && breaks[0] != "" && breaks[0][0] == '\r'
  }

  /** A line feed with a carriage return before it and one behind it, if they are there. */
  predicate Separates(lines: seq<string>, breaks: seq<string>)
    requires |lines| == |breaks| + 1
    decreases |breaks|
  {
    breaks != [] ==>
      && breaks[0] in {"\n", "\r\n", "\n\r", "\r\n\r"}
      && (breaks[0][0] == '\n' && lines[0] != "" ==> lines[0][|lines[0]| - 1] != '\r')
      && (breaks[0][|breaks[0]| - 1] == '\n' ==> !StartsWithReturn(lines[1..], breaks[1..]))
      && Separates(lines[1..], breaks[1..])
  }

  lemma {:induction false} WovenHead(x: string, lines: seq<string>, breaks: seq<string>)
    requires |lines| == |breaks| + 1
    ensures Woven([x + lines[0]] + lines[1..], breaks) == x + Woven(lines, breaks)
  {
    assert ([x + lines[0]] + lines[1..])[1..] == lines[1..];
  }

  lemma {:induction false} WovenStart(lines: seq<string>, breaks: seq<string>)
    requires |lines| == |breaks| + 1 && forall b | b in breaks :: b != ""
    ensures StartsWithReturn(lines, breaks) <==> Woven(lines, breaks) != "" && Woven(lines, breaks)[0] == '\r'
  {
    if lines[0] == "" && breaks != [] {
      assert breaks[0] in breaks;
      assert Woven(lines, breaks) == breaks[0] + Woven(lines[1..], breaks[1..]);
    }
  }

  ghost predicate Splits(s: string, lines: seq<string>, breaks: seq<string>) {
    && |lines| == |breaks| + 1 && Woven(lines, breaks) == s && Separates(lines, breaks)
    && forall b | b in breaks :: b != ""
  }

  lemma {:induction false} BreakInFront(s: string, lines: seq<string>, breaks: seq<string>)
    requires s != "" && BreakAt(s) > 0 && Splits(s[BreakAt(s)..], lines, breaks)
    ensures Splits(s, [""] + lines, [s[..BreakAt(s)]] + breaks)
  {
    var n := BreakAt(s);
    var lines', breaks' := [""] + lines, [s[..n]] + breaks;
    assert lines'[1..] == lines && breaks'[1..] == breaks;
    WovenStart(lines, breaks);
    BreakMeans(s);
    hide BreakAt;
    assert "" + s[..n] + s[n..] == s;
  }

  lemma {:induction false} CharInFront(s: string, lines: seq<string>, breaks: seq<string>)
    requires s != "" && BreakAt(s) == 0 && Splits(s[1..], lines, breaks)
    ensures Splits(s, [[s[0]] + lines[0]] + lines[1..], breaks)
  {
    var first := [s[0]] + lines[0];
    var lines' := [first] + lines[1..];
    assert lines'[1..] == lines[1..] && lines'[0] == first;
    WovenHead([s[0]], lines, breaks);
    assert [s[0]] + s[1..] == s;
    if breaks != [] && lines[0] == "" {
      assert s[1..] == "" + breaks[0] + Woven(lines[1..], breaks[1..]) && s[1] == breaks[0][0];
      assert first[|first| - 1] == s[0];
    } else if breaks != [] {
      assert first[|first| - 1] == lines[0][|lines[0]| - 1];
    }
  }

  /** The lines and their breaks make up the text, each break as long as it can be. */
  lemma {:induction false} SplitBreaksExactly(s: string) returns (breaks: seq<string>)
    ensures Splits(s, SplitBreaks(s), breaks)
  {
    hide Splits;
    if s == "" {
      breaks := [];
      NothingSplits();
    } else if BreakAt(s) > 0 {
      var rest := SplitBreaksExactly(s[BreakAt(s)..]);
      breaks := [s[..BreakAt(s)]] + rest;
      BreakInFront(s, SplitBreaks(s[BreakAt(s)..]), rest);
    } else {
      breaks := SplitBreaksExactly(s[1..]);
      CharInFront(s, SplitBreaks(s[1..]), breaks);
    }
  }

  lemma {:induction false} NothingSplits()
    ensures Splits("", [""], [])
  {}

  lemma {:induction false} BreakMeans(s: string)
    requires BreakAt(s) > 0
    ensures var n := BreakAt(s);
      && s[..n] in {"\n", "\r\n", "\n\r", "\r\n\r"}
      && (s[n - 1] == '\n' ==> !(n < |s| && s[n] == '\r'))
  {
    var n := BreakAt(s);
    if n == 1 {
      assert s[..n] == "\n";
    } else if n == 3 {
      assert s[..n] == "\r\n\r";
    } else if s[0] == '\n' {
      assert s[..n] == "\n\r";
    } else {
      assert s[..n] == "\r\n";
    }
  }

  lemma {:induction false} UnlinesConcat(a: seq<string>, b: seq<string>)
    ensures Unlines(a + b) == Unlines(a) + Unlines(b)
  {
    if a == [] {
      assert a + b == b;
    } else {
      UnlinesConcat(a[1..], b);
      assert (a + b)[1..] == a[1..] + b;
      var l, u, v := a[0] + "\n", Unlines(a[1..]), Unlines(b);
      assert l + (u + v) == (l + u) + v;
    }
  }

  lemma {:induction false} SplitFirst(l: string, rest: string)
    requires '\n' !in l
    ensures Split(l + "\n" + rest) == [l] + Split(rest)
  {
    var s := l + "\n" + rest;
    if l == "" {
      assert s[1..] == rest;
    } else {
      SplitFirst(l[1..], rest);
      assert s[1..] == l[1..] + "\n" + rest && s[0] == l[0] && l[0] in l;
      assert [l[0]] + l[1..] == l;
    }
  }

  /** Splitting undoes ending every line. */
  lemma {:induction false} SplitUnlines(lines: seq<string>)
    requires forall l | l in lines :: '\n' !in l
    ensures Split(Unlines(lines)) == lines + [""]
  {
    if lines != [] {
      SplitUnlines(lines[1..]);
      SplitFirst(lines[0], Unlines(lines[1..]));
      assert [lines[0]] + (lines[1..] + [""]) == lines + [""];
    }
  }

  lemma {:induction false} JoinPrefixed(prefix: string, lines: seq<string>)
    requires lines != []
    ensures prefix + Join(lines, "\n" + prefix) + "\n" == Unlines(Prefixed(prefix, lines))
  {
    var sep := "\n" + prefix;
    var rest := lines[1..];
    assert Prefixed(prefix, lines)[1..] == Prefixed(prefix, rest);
    assert Unlines(Prefixed(prefix, lines)) == (prefix + lines[0]) + "\n" + Unlines(Prefixed(prefix, rest));
    if |lines| > 1 {
      JoinPrefixed(prefix, rest);
      var j := Join(rest, sep);
      assert prefix + (lines[0] + sep + j) + "\n" == (prefix + lines[0]) + "\n" + (prefix + j + "\n");
    } else {
      assert Unlines(Prefixed(prefix, rest)) == "";
    }
  }

  lemma {:induction false} JoinOneMore(lines: seq<string>, l: string, separator: string)
    requires lines != []
    ensures Join(lines + [l], separator) == Join(lines, separator) + separator + l
  {
    var all := lines + [l];
    assert all[1..] == lines[1..] + [l];
    if |lines| > 1 {
      JoinOneMore(lines[1..], l, separator);
      var j := Join(lines[1..], separator);
      assert lines[0] + separator + (j + separator + l) == (lines[0] + separator + j) + separator + l;
    } else {
      assert lines[1..] + [l] == [l];
    }
  }

  lemma {:induction false} JoinHead(x: string, lines: seq<string>, separator: string)
    requires lines != []
    ensures Join([x + lines[0]] + lines[1..], separator) == x + Join(lines, separator)
  {
    var all := [x + lines[0]] + lines[1..];
    assert all[1..] == lines[1..];
    if |lines| > 1 {
      var j := Join(lines[1..], separator);
      assert (x + lines[0]) + separator + j == x + (lines[0] + separator + j);
    }
  }

  lemma {:induction false} JoinSplit(s: string)
    ensures Join(Split(s), "\n") == s
  {
    if s != "" {
      JoinSplit(s[1..]);
      var rest := Split(s[1..]);
      assert [s[0]] + s[1..] == s;
      if s[0] == '\n' {
        assert ([""] + rest)[1..] == rest;
        assert "" + "\n" + s[1..] == s;
      } else {
        JoinHead([s[0]], rest, "\n");
      }
    }
  }

  /** No line break has a carriage return beside it. */
  predicate PlainBreaks(s: string) {
    forall i | 0 < i < |s| :: !(s[i - 1] == '\r' && s[i] == '\n') && !(s[i - 1] == '\n' && s[i] == '\r')
  }

  /** Rejoining the lines takes out the carriage returns at line breaks, and nothing else. */
  lemma {:induction false} JoinSplitBreaks(s: string)
    ensures |Join(SplitBreaks(s), "\n")| <= |s|
    ensures |Join(SplitBreaks(s), "\n")| == |s| <==> PlainBreaks(s)
    ensures PlainBreaks(s) ==> SplitBreaks(s) == Split(s)
    ensures s != "" ==> Join(SplitBreaks(s), "\n") != ""
  {
    if s != "" {
      var n := if BreakAt(s) > 0 then BreakAt(s) else 1;
      var rest := SplitBreaks(s[n..]);
      JoinSplitBreaks(s[n..]);
      if BreakAt(s) > 0 {
        assert ([""] + rest)[1..] == rest;
        if n == 1 {
          PlainTail(s);
        } else {
          assert !PlainBreaks(s) by {
            assert s[0] == '\n' ==> s[1 - 1] == '\n' && s[1] == '\r';
            assert s[0] == '\r' ==> s[1 - 1] == '\r' && s[1] == '\n';
          }
        }
      } else {
        JoinHead([s[0]], rest, "\n");
        PlainTail(s);
      }
    }
  }

  lemma {:induction false} PlainTail(s: string)
    requires s != "" && (|s| > 1 ==> !(s[0] == '\r' && s[1] == '\n') && !(s[0] == '\n' && s[1] == '\r'))
    ensures PlainBreaks(s) <==> PlainBreaks(s[1..])
  {
    var t := s[1..];
    if PlainBreaks(s) {
      forall i | 0 < i < |t| ensures !(t[i - 1] == '\r' && t[i] == '\n') && !(t[i - 1] == '\n' && t[i] == '\r') {
        assert t[i] == s[i + 1] && t[i - 1] == s[i + 1 - 1];
      }
    }
    if PlainBreaks(t) {
      forall i | 0 < i < |s| ensures !(s[i - 1] == '\r' && s[i] == '\n') && !(s[i - 1] == '\n' && s[i] == '\r') {
        if i > 1 {
          assert s[i] == t[i - 1] && s[i - 1] == t[i - 1 - 1];
        }
      }
    }
  }
}
