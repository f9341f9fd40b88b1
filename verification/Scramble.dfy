/** scrambleIdent (localization/webpack/util.js:6-24): a text is turned round, braces stay
    opening and closing ones, and what stands in braces is not turned round. */
module Scramble {
  import opened Wrappers

  predicate IsBrace(c: char) {
    c == '{' || c == '}'
  }

  predicate NoBrace(s: string) {
    forall i | 0 <= i < |s| :: !IsBrace(s[i])
  }

  function Reverse(s: string): (r: string)
    ensures |r| == |s| && forall i | 0 <= i < |s| :: r[i] == s[|s| - 1 - i]
  {
    seq(|s|, i requires 0 <= i < |s| => s[|s| - 1 - i])
  }

  // ----- parts -----

  function AppendLast(parts: seq<string>, t: string): seq<string>
    requires parts != []
  {
    parts[..|parts| - 1] + [parts[|parts| - 1] + t]
  }

  /** The text split at its braces: texts without braces at the even places, braces between. */
  function Parts(s: string): (parts: seq<string>)
    ensures parts != []
  {
    if s == "" then [""]
    else
      var before, c := Parts(s[..|s| - 1]), s[|s| - 1];
      if IsBrace(c) then before + [[c], ""] else AppendLast(before, [c])
  }

  predicate BracePart(p: string) {
    p == "{" || p == "}"
  }

  /** Texts without braces and single braces in turn, texts at both ends. */
  predicate Alternating(parts: seq<string>) {
    && parts != [] && NoBrace(parts[0]) && NoBrace(parts[|parts| - 1])
    && (forall i | 0 <= i < |parts| :: NoBrace(parts[i]) || BracePart(parts[i]))
    && (forall i | 0 <= i < |parts| - 1 :: BracePart(parts[i]) != BracePart(parts[i + 1]))
  }

  lemma {:induction false} Kinds(p: string)
    requires NoBrace(p) || BracePart(p)
    ensures ('{' in p <==> p == "{") && ('}' in p <==> p == "}")
    ensures NoBrace(p) <==> !BracePart(p)
  {
    if BracePart(p) {
      assert IsBrace(p[0]);
    }
  }

  lemma {:induction false} NoBracesIn(parts: seq<string>)
    requires Alternating(parts)
    ensures forall i | 0 <= i < |parts| :: NoBrace(parts[i]) <==> !BracePart(parts[i])
  {
    forall i | 0 <= i < |parts| ensures NoBrace(parts[i]) <==> !BracePart(parts[i]) {
      Kinds(parts[i]);
    }
  }

  lemma {:induction false} AlternatingMore(front: seq<string>, c: char, text: string)
    requires Alternating(front) && IsBrace(c) && NoBrace(text)
    ensures Alternating(front + [[c], text])
  {
    Kinds(text);
    Kinds([c]);
    NoBracesIn(front);
    hide NoBrace, BracePart;
  }

  lemma {:induction false} AlternatingAppend(parts: seq<string>, t: string)
    requires Alternating(parts) && NoBrace(t)
    ensures Alternating(AppendLast(parts, t))
  {
    var p := parts[|parts| - 1];
    assert NoBrace(p + t);
    Kinds(p + t);
    NoBracesIn(parts);
    hide NoBrace, BracePart;
  }

  lemma {:induction false} AlternatingFront(parts: seq<string>)
    requires Alternating(parts) && |parts| > 1
    ensures |parts| > 2 && BracePart(parts[|parts| - 2]) && Alternating(parts[..|parts| - 2])
  {
    NoBracesIn(parts);
    hide NoBrace, BracePart;
    var n := |parts|;
    assert BracePart(parts[n - 2]) != BracePart(parts[n - 2 + 1]);
    assert n > 2 ==> BracePart(parts[n - 3]) != BracePart(parts[n - 3 + 1]);
  }

  function Concat(parts: seq<string>): string {
    if parts == [] then "" else Concat(parts[..|parts| - 1]) + parts[|parts| - 1]
  }

  lemma {:induction false} ConcatLast(parts: seq<string>, p: string)
    ensures Concat(parts + [p]) == Concat(parts) + p
  {
    assert (parts + [p])[..|parts|] == parts;
  }

  lemma {:induction false} ConcatAppendLast(parts: seq<string>, t: string)
    requires parts != []
    ensures Concat(AppendLast(parts, t)) == Concat(parts) + t
  {
    var front, p := parts[..|parts| - 1], parts[|parts| - 1];
    ConcatLast(front, p + t);
    assert Concat(front) + (p + t) == (Concat(front) + p) + t;
  }

  /** Every text is split that way. */
  lemma {:induction false} PartsMean(s: string)
    ensures Alternating(Parts(s)) && Concat(Parts(s)) == s
  {
    if s == "" {
      assert [""][..0] == [];
    } else {
      var before, c := Parts(s[..|s| - 1]), s[|s| - 1];
      PartsMean(s[..|s| - 1]);
      hide Alternating, AppendLast, Concat;
      assert s == s[..|s| - 1] + [c];
      if IsBrace(c) {
        AlternatingMore(before, c, "");
        ConcatTwo(before, [c], "");
      } else {
        AlternatingAppend(before, [c]);
        ConcatAppendLast(before, [c]);
      }
    }
  }

  lemma {:induction false} ConcatTwo(front: seq<string>, p: string, q: string)
    ensures Concat(front + [p, q]) == Concat(front) + p + q
  {
    ConcatLast(front, p);
    ConcatLast(front + [p], q);
    assert front + [p] + [q] == front + [p, q];
  }

  lemma {:induction false} AppendLastTwice(parts: seq<string>, t: string, t': string)
    requires parts != []
    ensures AppendLast(AppendLast(parts, t), t') == AppendLast(parts, t + t')
  {
    var p := parts[|parts| - 1];
    assert (p + t) + t' == p + (t + t');
  }

  lemma {:induction false} AppendNothing(parts: seq<string>)
    requires parts != []
    ensures AppendLast(parts, "") == parts
  {
    assert parts[|parts| - 1] + "" == parts[|parts| - 1];
  }

  lemma {:induction false} PartsAppend(s: string, t: string)
    requires NoBrace(t)
    ensures Parts(s + t) == AppendLast(Parts(s), t)
  {
    hide AppendLast;
    if t == "" {
      assert s + t == s;
      AppendNothing(Parts(s));
    } else {
      var t', c := t[..|t| - 1], t[|t| - 1];
      PartsAppend(s, t');
      assert (s + t)[..|s + t| - 1] == s + t';
      AppendLastTwice(Parts(s), t', [c]);
      assert t' + [c] == t;
    }
  }

  /** The text has only one such split. */
  lemma {:induction false} PartsOfConcat(parts: seq<string>)
    requires Alternating(parts)
    ensures Parts(Concat(parts)) == parts
    decreases |parts|
  {
    var n := |parts|;
    var text := parts[n - 1];
    if n == 1 {
      assert parts == [text] && Concat([]) == "";
      assert parts[..0] == [];
      PartsAppend("", text);
      assert "" + text == text && Parts("") == [""];
    } else {
      AlternatingFront(parts);
      hide Alternating;
      var front, brace := parts[..n - 2], parts[n - 2];
      PartsOfConcat(front);
      OneMoreBrace(front, brace[0], text);
      assert [brace[0]] == brace && parts == front + [brace, text];
    }
  }

  lemma {:induction false} OneMoreBrace(front: seq<string>, brace: char, text: string)
    requires Parts(Concat(front)) == front && front != [] && IsBrace(brace) && NoBrace(text)
    ensures Parts(Concat(front + [[brace], text])) == front + [[brace], text]
  {
    var s := Concat(front) + [brace];
    assert s[..|s| - 1] == Concat(front);
    assert Parts(s) == front + [[brace], ""];
    hide Parts, Concat, AppendLast;
    ConcatTwo(front, [brace], text);
    PartsAppend(s, text);
    FillLast(front, [brace], text);
  }

  lemma {:induction false} FillLast(front: seq<string>, brace: string, text: string)
    ensures AppendLast(front + [brace, ""], text) == front + [brace, text]
  {
    assert "" + text == text;
  }

  // ----- the scrambled parts -----

  /** The counter in front of part n: braces open there, where a closing brace too many
      counts as none. */
  function Counter(parts: seq<string>, n: nat): nat
    requires n <= |parts|
  {
    if n == 0 then 0
    else
      var c := Counter(parts, n - 1);
      if '{' in parts[n - 1] then c + 1
      else if '}' in parts[n - 1] && c > 0 then c - 1
      else c
  }

  function NewPart(parts: seq<string>, i: nat): string
    requires i < |parts|
  {
    if '{' in parts[i] then "}"
    else if '}' in parts[i] then "{"
    else if Counter(parts, i) == 0 then Reverse(parts[i])
    else parts[i]
  }

  function NewParts(parts: seq<string>): seq<string> {
    seq(|parts|, j requires 0 <= j < |parts| => NewPart(parts, |parts| - 1 - j))
  }

  function Scrambled(value: string): string {
    Concat(NewParts(Parts(value)))
  }

  /** Without a key the value stays. */
  method ScrambleIdent(key: Option<string>, value: string) returns (r: string)
    ensures r == if key.None? || key.value == "" then value else Scrambled(value)
  {
    if key.None? || key.value == "" {
      return value;
    }
    var was := Parts(value);
    var parts := new string[|was|](i requires 0 <= i < |was| => was[i]);
    assert parts[..] == was;
    TurnInPlace(parts);
    ReverseInPlace(parts);
    assert parts[..] == NewParts(was);
    r := Concat(parts[..]);
  }

  method TurnInPlace(parts: array<string>)
    modifies parts
    ensures forall k | 0 <= k < parts.Length :: parts[k] == NewPart(old(parts[..]), k)
  {
    ghost var was := parts[..];
    var counter := 0;
    for i := 0 to parts.Length
      invariant counter == Counter(was, i)
      invariant forall k | 0 <= k < i :: parts[k] == NewPart(was, k)
      invariant forall k | i <= k < parts.Length :: parts[k] == was[k]
    {
      var part := parts[i];
      if '{' in part {
        counter := counter + 1;
        parts[i] := "}";
      } else if '}' in part {
        if counter > 0 {
          counter := counter - 1;
        }
        parts[i] := "{";
      } else if counter == 0 {
        parts[i] := Reverse(part);
      }
    }
  }

  method ReverseInPlace(a: array<string>)
    modifies a
    ensures forall k | 0 <= k < a.Length :: a[k] == old(a[a.Length - 1 - k])
  {
    var n := a.Length;
    for i := 0 to n / 2
      invariant forall k | 0 <= k < i :: a[k] == old(a[n - 1 - k]) && a[n - 1 - k] == old(a[k])
      invariant forall k | i <= k < n - i :: a[k] == old(a[k])
    {
      a[i], a[n - 1 - i] := a[n - 1 - i], a[i];
    }
  }

  lemma {:induction false} NewPartsAlternate(parts: seq<string>)
    requires Alternating(parts)
    ensures Alternating(NewParts(parts))
  {
    var n, mid := |parts|, NewParts(parts);
    forall j | 0 <= j < n
      ensures NoBrace(mid[j]) || BracePart(mid[j])
      ensures BracePart(mid[j]) == BracePart(parts[n - 1 - j])
    {
      NewPartKind(parts, n - 1 - j);
    }
    NoBracesIn(parts);
    Kinds(mid[0]);
    Kinds(mid[n - 1]);
    hide NewPart, NoBrace, BracePart;
    forall j | 0 <= j < n - 1 ensures BracePart(mid[j]) != BracePart(mid[j + 1]) {
      var i := n - 2 - j;
      assert BracePart(parts[i]) != BracePart(parts[i + 1]);
    }
  }

  lemma {:induction false} NewPartKind(parts: seq<string>, i: nat)
    requires Alternating(parts) && i < |parts|
    ensures |NewPart(parts, i)| == |parts[i]|
    ensures NoBrace(NewPart(parts, i)) || BracePart(NewPart(parts, i))
    ensures BracePart(NewPart(parts, i)) == BracePart(parts[i])
    ensures NewPart(parts, i) == if parts[i] == "{" then "}" else if parts[i] == "}" then "{"
                                 else if Counter(parts, i) == 0 then Reverse(parts[i]) else parts[i]
  {
    Kinds(parts[i]);
    hide Counter, Alternating;
    Kinds(NewPart(parts, i));
  }

  /** The parts of the scrambled text are the new parts, from the last to the first. */
  lemma {:induction false} ScrambledParts(value: string)
    ensures Parts(Scrambled(value)) == NewParts(Parts(value))
  {
    PartsMean(value);
    NewPartsAlternate(Parts(value));
    PartsOfConcat(NewParts(Parts(value)));
  }

  // ----- balanced texts -----

  /** Opening minus closing braces. */
  function Level(s: string): int {
    if s == "" then 0
    else Level(s[..|s| - 1]) + (if s[|s| - 1] == '{' then 1 else if s[|s| - 1] == '}' then -1 else 0)
  }

  predicate Balanced(s: string) {
    Level(s) == 0 && forall i | 0 <= i <= |s| :: Level(s[..i]) >= 0
  }

  lemma {:induction false} LevelConcat(a: string, b: string)
    ensures Level(a + b) == Level(a) + Level(b)
    decreases |b|
  {
    if b == "" {
      assert a + b == a;
    } else {
      assert (a + b)[..|a + b| - 1] == a + b[..|b| - 1];
      LevelConcat(a, b[..|b| - 1]);
    }
  }

  lemma {:induction false} LevelNoBrace(s: string)
    requires NoBrace(s)
    ensures Level(s) == 0
  {
    if s != "" {
      LevelNoBrace(s[..|s| - 1]);
    }
  }

  function PartLevel(p: string): int {
    if '{' in p then 1 else if '}' in p then -1 else 0
  }

  lemma {:induction false} LevelOfPart(p: string)
    requires NoBrace(p) || BracePart(p)
    ensures Level(p) == PartLevel(p)
  {
    Kinds(p);
    if NoBrace(p) {
      LevelNoBrace(p);
    } else {
      assert p == [p[0]];
    }
  }

  function LevelBefore(parts: seq<string>, n: nat): int
    requires n <= |parts|
  {
    if n == 0 then 0 else LevelBefore(parts, n - 1) + PartLevel(parts[n - 1])
  }

  lemma {:induction false} LevelOfParts(parts: seq<string>, n: nat)
    requires Alternating(parts) && n <= |parts|
    ensures Level(Concat(parts[..n])) == LevelBefore(parts, n)
  {
    if n > 0 {
      LevelOfParts(parts, n - 1);
      LevelOfPart(parts[n - 1]);
      assert parts[..n] == parts[..n - 1] + [parts[n - 1]];
      ConcatLast(parts[..n - 1], parts[n - 1]);
      LevelConcat(Concat(parts[..n - 1]), parts[n - 1]);
    }
  }

  lemma {:induction false} ConcatPrefix(parts: seq<string>, n: nat)
    requires n <= |parts|
    ensures Concat(parts[..n]) <= Concat(parts)
    decreases |parts| - n
  {
    if n < |parts| {
      ConcatPrefix(parts, n + 1);
      assert parts[..n + 1] == parts[..n] + [parts[n]];
      ConcatLast(parts[..n], parts[n]);
    } else {
      assert parts[..n] == parts;
    }
  }

  /** Balance of the text is balance of its parts. */
  predicate BalancedParts(parts: seq<string>) {
    LevelBefore(parts, |parts|) == 0 && forall n | 0 <= n <= |parts| :: LevelBefore(parts, n) >= 0
  }

  lemma {:induction false} PartsBalanced(parts: seq<string>)
    requires Alternating(parts) && Balanced(Concat(parts))
    ensures BalancedParts(parts)
  {
    var s := Concat(parts);
    forall n | 0 <= n <= |parts| ensures LevelBefore(parts, n) >= 0 {
      LevelOfParts(parts, n);
      ConcatPrefix(parts, n);
      assert Concat(parts[..n]) == s[..|Concat(parts[..n])|];
    }
    LevelOfParts(parts, |parts|);
    assert parts[..|parts|] == parts;
  }

  lemma {:induction false} PrefixLevel(parts: seq<string>, n: nat, i: nat)
    requires Alternating(parts) && BalancedParts(parts) && n <= |parts| && i <= |Concat(parts[..n])|
    ensures Level(Concat(parts[..n])[..i]) >= 0
    decreases n
  {
    var s := Concat(parts[..n]);
    if i == |s| {
      assert s[..i] == s;
      LevelOfParts(parts, n);
    } else {
      var front, p := Concat(parts[..n - 1]), parts[n - 1];
      assert parts[..n] == parts[..n - 1] + [p];
      ConcatLast(parts[..n - 1], p);
      if i <= |front| {
        hide Level, LevelBefore, Alternating;
        assert s[..i] == front[..i];
        PrefixLevel(parts, n - 1, i);
      } else {
        LevelOfParts(parts, n - 1);
        assert |p| > 1 && (NoBrace(p) || BracePart(p));
        LevelInText(front, p, i - |front|);
        hide Level, LevelBefore, Alternating;
        assert s[..i] == front + p[..i - |front|];
      }
    }
  }

  lemma {:induction false} LevelInText(front: string, p: string, k: nat)
    requires k <= |p| && |p| > 1 && (NoBrace(p) || BracePart(p))
    ensures Level(front + p[..k]) == Level(front)
  {
    LevelNoBrace(p[..k]);
    LevelConcat(front, p[..k]);
  }

  lemma {:induction false} TextBalanced(parts: seq<string>)
    requires Alternating(parts) && BalancedParts(parts)
    ensures Balanced(Concat(parts))
  {
    assert parts[..|parts|] == parts;
    LevelOfParts(parts, |parts|);
    forall i | 0 <= i <= |Concat(parts)| ensures Level(Concat(parts)[..i]) >= 0 {
      PrefixLevel(parts, |parts|, i);
    }
  }

  /** In balanced texts the counter is the number of open braces. */
  lemma {:induction false} CounterCounts(parts: seq<string>, n: nat)
    requires Alternating(parts) && BalancedParts(parts) && n <= |parts|
    ensures Counter(parts, n) == LevelBefore(parts, n)
  {
    if n > 0 {
      CounterCounts(parts, n - 1);
      assert LevelBefore(parts, n) >= 0;
    }
  }

  lemma {:induction false} NewPartLevel(parts: seq<string>, i: nat)
    requires Alternating(parts) && i < |parts|
    ensures PartLevel(NewPart(parts, i)) == -PartLevel(parts[i])
  {
    NewPartKind(parts, i);
  }

  /** As many braces are open from the left in the new parts as from the right in the old. */
  lemma {:induction false} Mirrored(parts: seq<string>, n: nat)
    requires Alternating(parts) && BalancedParts(parts) && n <= |parts|
    ensures LevelBefore(NewParts(parts), n) == LevelBefore(parts, |parts| - n)
  {
    if n > 0 {
      var i := |parts| - n;
      Mirrored(parts, n - 1);
      NewPartLevel(parts, i);
      hide Alternating, BalancedParts, PartLevel, NewPart;
      assert NewParts(parts)[n - 1] == NewPart(parts, i);
      assert LevelBefore(parts, i + 1) == LevelBefore(parts, i) + PartLevel(parts[i]);
    }
  }

  lemma {:induction false} NewPartsBalanced(parts: seq<string>)
    requires Alternating(parts) && BalancedParts(parts)
    ensures BalancedParts(NewParts(parts))
  {
    forall n | 0 <= n <= |parts| ensures LevelBefore(NewParts(parts), n) >= 0 {
      Mirrored(parts, n);
    }
    Mirrored(parts, |parts|);
  }

  /** A text has open braces around it in the new parts exactly if it has in the old. */
  lemma {:induction false} SameShield(parts: seq<string>, i: nat)
    requires Alternating(parts) && BalancedParts(parts) && i < |parts| && !BracePart(parts[i])
    requires Alternating(NewParts(parts)) && BalancedParts(NewParts(parts))
    ensures Counter(NewParts(parts), |parts| - 1 - i) == Counter(parts, i)
  {
    var j := |parts| - 1 - i;
    CounterCounts(parts, i);
    CounterCounts(NewParts(parts), j);
    Mirrored(parts, j);
    Kinds(parts[i]);
    assert LevelBefore(parts, i + 1) == LevelBefore(parts, i);
  }

  // ----- the scrambling, twice -----

  /** The counter from the right in front of part n, with the braces exchanged: braces closed
      there, where an opening brace too many counts as none. */
  function FromRight(parts: seq<string>, n: nat): nat
    requires n <= |parts|
    decreases |parts| - n
  {
    if n == |parts| then 0
    else
      var c := FromRight(parts, n + 1);
      if '}' in parts[n] then c + 1
      else if '{' in parts[n] && c > 0 then c - 1
      else c
  }

  lemma {:induction false} CountedFromRight(parts: seq<string>, n: nat)
    requires Alternating(parts) && n <= |parts|
    ensures Counter(NewParts(parts), n) == FromRight(parts, |parts| - n)
  {
    if n > 0 {
      var i := |parts| - n;
      CountedFromRight(parts, n - 1);
      NewPartKind(parts, i);
      Kinds(parts[i]);
      Kinds(NewPart(parts, i));
      hide NewPart, Alternating, NoBrace;
      assert NewParts(parts)[n - 1] == NewPart(parts, i);
    }
  }

  /** The part is turned round by both scramblings or by none, or turning does not show. */
  predicate ComesBack(parts: seq<string>, i: nat)
    requires i < |parts|
  {
    || BracePart(parts[i])
    || (Counter(parts, i) == 0 <==> FromRight(parts, i + 1) == 0)
    || Reverse(parts[i]) == parts[i]
  }

  /** What one scrambling makes of a part with this counter in front of it. */
  function Turned(p: string, counter: nat): string {
    if p == "{" then "}" else if p == "}" then "{" else if counter == 0 then Reverse(p) else p
  }

  lemma {:induction false} TurnedBack(p: string, c: nat, d: nat)
    requires NoBrace(p) || BracePart(p)
    ensures Turned(Turned(p, c), d) == p <==> BracePart(p) || (c == 0 <==> d == 0) || Reverse(p) == p
  {
    Kinds(p);
    assert Reverse(Reverse(p)) == p;
    if NoBrace(p) {
      assert NoBrace(Reverse(p));
      Kinds(Reverse(p));
    }
  }

  lemma {:induction false} AlternatingKinds(parts: seq<string>, i: nat)
    requires Alternating(parts) && i < |parts|
    ensures NoBrace(parts[i]) || BracePart(parts[i])
  {}

  lemma {:induction false} TurnedTwice(parts: seq<string>, i: nat)
    requires Alternating(parts) && Alternating(NewParts(parts)) && i < |parts|
    ensures NewParts(NewParts(parts))[i] == parts[i] <==> ComesBack(parts, i)
  {
    hide Counter, FromRight, Alternating, NewPart, Reverse, NoBrace;
    var j := |parts| - 1 - i;
    NewPartKind(parts, i);
    NewPartKind(NewParts(parts), j);
    CountedFromRight(parts, j);
    AlternatingKinds(parts, i);
    TurnedBack(parts[i], Counter(parts, i), FromRight(parts, i + 1));
    assert NewParts(NewParts(parts))[i] == NewPart(NewParts(parts), j) && NewParts(parts)[j] == NewPart(parts, i);
    assert NewPart(parts, i) == Turned(parts[i], Counter(parts, i));
    assert NewPart(NewParts(parts), j) == Turned(NewPart(parts, i), FromRight(parts, i + 1));
  }

  lemma {:induction false} SamePartsSameText(a: string, b: string)
    ensures Parts(a) == Parts(b) <==> a == b
  {
    PartsMean(a);
    PartsMean(b);
  }

  lemma {:induction false} PartsTwice(value: string)
    ensures Alternating(Parts(value)) && Alternating(NewParts(Parts(value)))
    ensures Parts(Scrambled(Scrambled(value))) == NewParts(NewParts(Parts(value)))
  {
    PartsMean(value);
    NewPartsAlternate(Parts(value));
    ScrambledParts(value);
    ScrambledParts(Scrambled(value));
  }

  /** Scrambling twice gives a text back exactly when every text between its braces is outside
      braces both from the left and from the right, or inside from both, or a palindrome. */
  lemma {:induction false} ScrambledTwiceExactly(value: string)
    ensures Scrambled(Scrambled(value)) == value <==> forall i | 0 <= i < |Parts(value)| :: ComesBack(Parts(value), i)
  {
    PartsTwice(value);
    SamePartsSameText(Scrambled(Scrambled(value)), value);
    hide Parts, Concat, Alternating, ComesBack, NewPart, Scrambled;
    var parts, twice := Parts(value), NewParts(NewParts(Parts(value)));
    forall i | 0 <= i < |parts| ensures twice[i] == parts[i] <==> ComesBack(parts, i) {
      TurnedTwice(parts, i);
    }
    assert twice == parts <==> forall i | 0 <= i < |parts| :: twice[i] == parts[i];
  }

  lemma {:induction false} BalancedComesBack(parts: seq<string>, i: nat)
    requires Alternating(parts) && BalancedParts(parts) && i < |parts|
    ensures ComesBack(parts, i)
  {
    NewPartsAlternate(parts);
    NewPartsBalanced(parts);
    if !BracePart(parts[i]) {
      SameShield(parts, i);
      CountedFromRight(parts, |parts| - 1 - i);
    }
  }

  /** On balanced texts scrambling twice is the identity, and the scrambled text is balanced. */
  lemma {:induction false} ScrambledTwice(value: string)
    requires Balanced(value)
    ensures Balanced(Scrambled(value))
    ensures Scrambled(Scrambled(value)) == value
  {
    var parts := Parts(value);
    PartsMean(value);
    PartsBalanced(parts);
    NewPartsAlternate(parts);
    NewPartsBalanced(parts);
    TextBalanced(NewParts(parts));
    ScrambledTwiceExactly(value);
    forall i | 0 <= i < |parts| ensures ComesBack(parts, i) {
      BalancedComesBack(parts, i);
    }
  }

  lemma {:induction false} OneMoreNew(parts: seq<string>, n: nat)
    requires 0 < n <= |parts|
    ensures var i, new' := |parts| - n, NewParts(parts);
      && new'[n - 1] == NewPart(parts, i)
      && |Concat(new'[..n])| == |Concat(new'[..n - 1])| + |NewPart(parts, i)|
      && |Concat(parts[..i + 1])| == |Concat(parts[..i])| + |parts[i]|
  {
    var i, new' := |parts| - n, NewParts(parts);
    hide NewPart, Concat;
    assert new'[..n] == new'[..n - 1] + [new'[n - 1]];
    ConcatLast(new'[..n - 1], new'[n - 1]);
    assert parts[..i + 1] == parts[..i] + [parts[i]];
    ConcatLast(parts[..i], parts[i]);
  }

  lemma {:induction false} NewLength(parts: seq<string>, n: nat)
    requires Alternating(parts) && n <= |parts|
    ensures |Concat(NewParts(parts)[..n])| + |Concat(parts[..|parts| - n])| == |Concat(parts)|
  {
    if n == 0 {
      assert parts[..|parts|] == parts && NewParts(parts)[..0] == [];
    } else {
      NewLength(parts, n - 1);
      OneMoreNew(parts, n);
      NewPartKind(parts, |parts| - n);
      hide NewPart, NewParts, Concat, Alternating;
    }
  }

  lemma {:induction false} SameLength(value: string)
    ensures |Scrambled(value)| == |value|
  {
    var parts, n := Parts(value), |Parts(value)|;
    PartsMean(value);
    NewLength(parts, n);
    assert NewParts(parts)[..n] == NewParts(parts) && parts[..0] == [];
  }

  /** Without the algorithm: by how much more braces have opened than closed since where that was
      least. */
  lemma {:induction false} CounterExactly(parts: seq<string>, n: nat) returns (low: nat)
    requires Alternating(parts) && n <= |parts|
    ensures low <= n && Counter(parts, n) == LevelBefore(parts, n) - LevelBefore(parts, low)
    ensures forall k | 0 <= k <= n :: LevelBefore(parts, low) <= LevelBefore(parts, k)
  {
    if n == 0 {
      low := 0;
    } else {
      low := CounterExactly(parts, n - 1);
      Kinds(parts[n - 1]);
      hide Alternating;
      if LevelBefore(parts, n) < LevelBefore(parts, low) {
        low := n;
      }
    }
  }

  /** What becomes of a part of any text: it goes to the mirrored place; a text is turned round
      exactly when never before in front of it less braces were open, a brace changes sides. */
  lemma {:induction false} EveryPartScrambled(value: string, i: nat)
    requires i < |Parts(value)|
    ensures |Parts(Scrambled(value))| == |Parts(value)|
    ensures Parts(Scrambled(value))[|Parts(value)| - 1 - i] == (
              var parts := Parts(value);
              var p := parts[i];
              if p == "{" then "}" else if p == "}" then "{"
              else if forall k | 0 <= k <= i :: LevelBefore(parts, i) <= LevelBefore(parts, k) then Reverse(p) else p)
  {
    PartsMean(value);
    ScrambledParts(value);
    var low := CounterExactly(Parts(value), i);
    hide Alternating, Parts, Concat, LevelBefore, Counter;
    NewPartKind(Parts(value), i);
  }

  /** What becomes of a part of a balanced text: it goes to the mirrored place; a text with
      no brace open in front of it is turned round, any other stays as it is, a brace changes
      sides. */
  lemma {:induction false} EveryPartMirrored(value: string, i: nat)
    requires Balanced(value) && i < |Parts(value)|
    ensures |Parts(Scrambled(value))| == |Parts(value)|
    ensures Parts(Scrambled(value))[|Parts(value)| - 1 - i] == (
              var p := Parts(value)[i];
              if p == "{" then "}" else if p == "}" then "{"
              else if Level(Concat(Parts(value)[..i])) == 0 then Reverse(p) else p)
  {
    hide Alternating, BalancedParts, Parts, Concat, Level, LevelBefore, Counter, Reverse, NewPart, Scrambled;
    PartsMean(value);
    ScrambledParts(value);
    PartsBalanced(Parts(value));
    CounterCounts(Parts(value), i);
    LevelOfParts(Parts(value), i);
    NewPartKind(Parts(value), i);
  }

  /** An opening brace that is never closed shields the text behind it, but not the second
      time. */
  lemma {:induction false} UnbalancedStays()
    ensures !Balanced("{ab") && Scrambled("{ab") == "ab}" && Scrambled("ab}") == "{ba"
  {
    ShieldedOnce();
    UnshieldedThen();
    LevelNoBrace("ab");
    LevelConcat("{", "ab");
    assert "{" + "ab" == "{ab";
  }

  lemma {:induction false} ShieldedOnce()
    ensures Scrambled("{ab") == "ab}"
  {
    hide Scrambled;
    Scrambling("", "{", "ab");
    assert "" + "{" + "ab" == "{ab" && "ab" + "}" + Reverse("") == "ab}";
  }

  lemma {:induction false} UnshieldedThen()
    ensures Scrambled("ab}") == "{ba"
  {
    hide Scrambled;
    Scrambling("ab", "}", "");
    assert Reverse("ab") == "ba" && Reverse("") == "";
    assert "ab" + "}" + "" == "ab}" && "" + "{" + "ba" == "{ba";
  }

  lemma {:induction false} Scrambling(a: string, brace: string, b: string)
    requires NoBrace(a) && BracePart(brace) && NoBrace(b)
    ensures Scrambled(a + brace + b)
         == (if brace == "{" then b else Reverse(b)) + (if brace == "{" then "}" else "{") + Reverse(a)
  {
    var parts := [a, brace, b];
    Kinds(a);
    Kinds(brace);
    Kinds(b);
    assert Alternating(parts);
    PartsOfConcat(parts);
    Three(a, brace, b);
    hide Alternating, NoBrace, BracePart, Parts, Concat;
    assert Counter(parts, 1) == 0 && Counter(parts, 2) == if brace == "{" then 1 else 0;
    assert NewParts(parts) == [NewPart(parts, 2), NewPart(parts, 1), NewPart(parts, 0)];
    Three(NewPart(parts, 2), NewPart(parts, 1), NewPart(parts, 0));
  }

  lemma {:induction false} Three(a: string, b: string, c: string)
    ensures Concat([a, b, c]) == a + b + c
  {
    ConcatTwo([a], b, c);
    ConcatLast([], a);
    assert [a] + [b, c] == [a, b, c] && [] + [a] == [a] && "" + a == a;
  }
}
