/** incrCodingId (src/com/qdacity/endpoint/ProjectEndpoint.java:246-270): a call reads the
    project's counter and writes it back one higher, in two steps and without a transaction.
    When the answers of all calls differ. */
module CodingIds {
  import opened Wrappers
  import opened SlateModel
  import opened CodingExactness
  import opened CodingContiguity
  import opened CodingRuns
  import opened DocumentService
  import opened CodingSafety

  /** The k-th call for a handler's edit, or one for another document. */
  datatype Call = For(h: Handler, k: nat) | Elsewhere(n: nat)

  /** What each call has read that has not written yet, and what each call has answered. */
  datatype Counter = Counter(stored: int, started: set<Call>, read: map<Call, int>, answers: map<Call, int>)

  datatype Move = Read(call: Call) | Write(call: Call) | Fail(call: Call)

  predicate Possible(s: Counter, m: Move) {
    if m.Read? then m.call !in s.started else m.call in s.read
  }

  function Next(s: Counter, m: Move): Counter
    requires Possible(s, m)
  {
    match m
    case Read(call) => s.(started := s.started + {call}, read := s.read[call := s.stored])
    case Write(call) =>
      s.(stored := s.read[call] + 1, read := s.read - {call}, answers := s.answers[call := s.read[call] + 1])
    case Fail(call) => s.(read := s.read - {call})
  }

  ghost predicate IsCounterRun(states: seq<Counter>, moves: seq<Move>) {
    && |states| == |moves| + 1
    && states[0].started == {} && states[0].read == map[] && states[0].answers == map[]
    && forall i | 0 <= i < |moves| :: Possible(states[i], moves[i]) && states[i + 1] == Next(states[i], moves[i])
  }

  ghost predicate AllDiffer(answers: map<Call, int>) {
    forall a, b | a in answers && b in answers && answers[a] == answers[b] :: a == b
  }

  /** A call b that is answered reads while a call a that is answered, too, has read and has
      not written. */
  predicate Overlap(states: seq<Counter>, moves: seq<Move>, i: nat, a: Call, b: Call)
    requires i < |moves| < |states|
  {
    var answers := states[|moves|].answers;
    moves[i] == Read(b) && a in states[i].read && a in answers && b in answers
  }

  ghost predicate NoneOverlap(states: seq<Counter>, moves: seq<Move>, n: nat)
    requires n <= |moves| < |states|
  {
    forall i: nat, a, b | i < n :: !Overlap(states, moves, i, a, b)
  }

  /** A call is waiting, or has failed, or has been answered. */
  ghost predicate Orderly(s: Counter) {
    s.read.Keys <= s.started && s.answers.Keys <= s.started && s.read.Keys !! s.answers.Keys
  }

  lemma {:induction false} RunOrderly(states: seq<Counter>, moves: seq<Move>, i: nat)
    requires IsCounterRun(states, moves) && i <= |moves|
    ensures Orderly(states[i])
  {
    if i > 0 {
      RunOrderly(states, moves, i - 1);
      assert states[i] == Next(states[i - 1], moves[i - 1]);
    }
  }

  lemma {:induction false} AnswersStay(states: seq<Counter>, moves: seq<Move>, i: nat, call: Call)
    requires IsCounterRun(states, moves) && i <= |moves| && call in states[i].answers
    ensures call in states[|moves|].answers && states[|moves|].answers[call] == states[i].answers[call]
    decreases |moves| - i
  {
    if i < |moves| {
      RunOrderly(states, moves, i);
      assert states[i + 1] == Next(states[i], moves[i]);
      AnswersStay(states, moves, i + 1, call);
    }
  }

  /** The answer is one more than what was read, whatever happens in between. */
  lemma {:induction false} AnswerWasRead(states: seq<Counter>, moves: seq<Move>, i: nat, call: Call)
    requires IsCounterRun(states, moves) && i <= |moves| && call in states[i].read
    requires call in states[|moves|].answers
    ensures states[|moves|].answers[call] == states[i].read[call] + 1
    decreases |moves| - i
  {
    RunOrderly(states, moves, i);
    if i < |moves| {
      var s' := states[i + 1];
      assert s' == Next(states[i], moves[i]);
      if moves[i] == Write(call) {
        AnswersStay(states, moves, i + 1, call);
      } else if moves[i] == Fail(call) {
        FailedStays(states, moves, i + 1, call);
      } else {
        AnswerWasRead(states, moves, i + 1, call);
      }
    }
  }

  lemma {:induction false} FailedStays(states: seq<Counter>, moves: seq<Move>, i: nat, call: Call)
    requires IsCounterRun(states, moves) && i <= |moves|
    requires call in states[i].started && call !in states[i].read && call !in states[i].answers
    ensures call !in states[|moves|].answers
    decreases |moves| - i
  {
    if i < |moves| {
      assert states[i + 1] == Next(states[i], moves[i]);
      FailedStays(states, moves, i + 1, call);
    }
  }

  /** As long as no two answered calls overlap: whoever will be answered has read the value
      that is stored, and is alone; all answers so far differ and are at most that value. */
  ghost predicate InTurn(s: Counter, first: int, last: map<Call, int>) {
    && AllDiffer(s.answers)
    && s.stored == first + |s.answers|
    && (forall a | a in s.answers :: first < s.answers[a] <= s.stored)
    && (forall a | a in s.read && a in last :: s.read[a] == s.stored)
    && forall a, b | a in s.read && a in last && b in s.read && b in last :: a == b
  }

  lemma {:induction false} RunInTurn(states: seq<Counter>, moves: seq<Move>, i: nat)
    requires IsCounterRun(states, moves) && i <= |moves| && NoneOverlap(states, moves, i)
    ensures InTurn(states[i], states[0].stored, states[|moves|].answers)
  {
    if i > 0 {
      var s, m := states[i - 1], moves[i - 1];
      RunInTurn(states, moves, i - 1);
      RunOrderly(states, moves, i - 1);
      assert states[i] == Next(s, m);
      if m.Write? {
        AnswersStay(states, moves, i, m.call);
      } else if m.Read? {
        var k: nat, last := i - 1, states[|moves|].answers;
        assert m.call in last ==> forall a | a in s.read && a in last :: Overlap(states, moves, k, a, m.call);
      }
    }
  }

  /** The answers of all calls differ exactly when no two of those that are answered overlap;
      then they are all above the value at the beginning, and the counter has gone up by one for
      each of them. */
  lemma {:induction false} AnswersDifferExactly(states: seq<Counter>, moves: seq<Move>)
    requires IsCounterRun(states, moves)
    ensures AllDiffer(states[|moves|].answers) <==> NoneOverlap(states, moves, |moves|)
    ensures AllDiffer(states[|moves|].answers) ==>
      states[|moves|].stored == states[0].stored + |states[|moves|].answers|
    ensures AllDiffer(states[|moves|].answers) ==>
      forall a | a in states[|moves|].answers :: states[|moves|].answers[a] > states[0].stored
  {
    if NoneOverlap(states, moves, |moves|) {
      RunInTurn(states, moves, |moves|);
    } else {
      var i: nat, a, b :| i < |moves| && Overlap(states, moves, i, a, b);
      OverlapRepeats(states, moves, i);
    }
  }

  /** The first two calls that overlap get the same answer. */
  lemma {:induction false} OverlapRepeats(states: seq<Counter>, moves: seq<Move>, i: nat)
    requires IsCounterRun(states, moves) && i < |moves| && !NoneOverlap(states, moves, i + 1)
    ensures !AllDiffer(states[|moves|].answers)
  {
    if NoneOverlap(states, moves, i) {
      var a, b :| Overlap(states, moves, i, a, b);
      RunInTurn(states, moves, i);
      RunOrderly(states, moves, i);
      assert states[i + 1] == Next(states[i], moves[i]);
      AnswerWasRead(states, moves, i, a);
      AnswerWasRead(states, moves, i + 1, b);
    } else {
      OverlapRepeats(states, moves, i - 1);
    }
  }

  // ----- the ids of the handlers -----

  /** Every id that a handler brings is the answer of a call of its own. */
  ghost predicate Given(tasks: map<Handler, Task>, answers: map<Call, int>) {
    forall h, k | h in tasks && IdOf(tasks[h], k).Some? ::
      For(h, k) in answers && answers[For(h, k)] == IdOf(tasks[h], k).value
  }

  /** When the counter is not behind the document and no two calls overlap, the ids are new,
      whatever the order in which the handlers use them. */
  lemma {:induction false} CounterGivesNewIds(states: seq<Counter>, moves: seq<Move>, doc: Doc,
      tasks: map<Handler, Task>)
    requires IsCounterRun(states, moves) && NoneOverlap(states, moves, |moves|)
    requires Given(tasks, states[|moves|].answers)
    requires forall id | UsesId(doc, id) :: id <= states[0].stored
    ensures NewIds(doc, tasks)
  {
    AnswersDifferExactly(states, moves);
    var answers := states[|moves|].answers;
    forall g, k, h, l | g in tasks && h in tasks && IdOf(tasks[g], k).Some? && IdOf(tasks[g], k) == IdOf(tasks[h], l)
      ensures g == h && k == l
    {
      assert For(g, k) == For(h, l);
    }
  }

  /** Two handlers whose calls overlap get one id. */
  lemma {:induction false} OverlapExample(a: Call, b: Call, n: int)
    requires a != b
    ensures var start := Counter(n, {}, map[], map[]);
      exists states: seq<Counter>, moves :: IsCounterRun(states, moves) && states[0] == start
        && moves == [Read(a), Read(b), Write(a), Write(b)]
        && states[4].answers == map[a := n + 1, b := n + 1]
  {
    var s0 := Counter(n, {}, map[], map[]);
    var s1 := Next(s0, Read(a));
    var s2 := Next(s1, Read(b));
    var s3 := Next(s2, Write(a));
    var s4 := Next(s3, Write(b));
    assert IsCounterRun([s0, s1, s2, s3, s4], [Read(a), Read(b), Write(a), Write(b)]);
    assert s4.answers == map[a := n + 1, b := n + 1];
  }
}
