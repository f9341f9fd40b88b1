/** Squire's undo history (war/components/Squire/squire-raw.js:2724-2803, 3456-3510): an array
    of saved documents, an index and a flag refine a past, a present and a future. */
module UndoHistory {
  import opened Wrappers

  /** What the history looks like to the user. `saved` says that the present has been
      recorded, so that the next edit moves it to the past. */
  datatype History = History(past: seq<string>, present: string, future: seq<string>, saved: bool)

  function Edited(h: History, content: string): History {
    History(if h.saved then h.past + [h.present] else h.past, content, [], false)
  }

  function Undone(h: History): History {
    if h.past == [] then h
    else History(h.past[..|h.past| - 1], h.past[|h.past| - 1], [h.present] + h.future, true)
  }

  function Redone(h: History): History {
    if h.future == [] then h else History(h.past + [h.present], h.future[0], h.future[1..], true)
  }

  function Undos(h: History, n: nat): History {
    if n == 0 then h else Undone(Undos(h, n - 1))
  }

  function Redos(h: History, n: nat): History
    decreases n
  {
    if n == 0 then h else Redos(Redone(h), n - 1)
  }

  lemma {:induction false} RedoneUndone(h: History)
    requires h.past != []
    ensures Redone(Undone(h)) == h.(saved := true)
  {
    assert h.past[..|h.past| - 1] + [h.past[|h.past| - 1]] == h.past;
    assert ([h.present] + h.future)[1..] == h.future;
  }

  /** An edit of a saved document can be undone and redone; it ends whatever could be redone
      before, and an edit of a document that was not saved takes its place. */
  lemma {:induction false} EditUndone(h: History, content: string)
    ensures Edited(h, content).present == content && Edited(h, content).future == [] && !Edited(h, content).saved
    ensures h.saved ==>
      && Undone(Edited(h, content)) == History(h.past, h.present, [content], true)
      && Redone(Undone(Edited(h, content))) == Edited(h, content).(saved := true)
    ensures !h.saved ==> Edited(h, content).past == h.past
  {
    if h.saved {
      var e := Edited(h, content);
      assert e.past[..|e.past| - 1] == h.past && [content] + [] == [content];
      RedoneUndone(e);
    }
  }

  lemma {:induction false} UndoneRedone(h: History)
    requires h.future != []
    ensures Redone(h).saved && Undone(Redone(h)) == h.(saved := true)
  {
    var r := Redone(h);
    assert r.past[..|r.past| - 1] == h.past && [r.present] + r.future == h.future;
  }

  /** Where nothing is left to undo or redo, nothing happens. */
  lemma {:induction false} NothingUndone(h: History)
    ensures Undone(h) == h <==> h.past == []
    ensures Redone(h) == h <==> h.future == []
  {
    if h.past != [] {
      assert |Undone(h).past| < |h.past|;
    }
    if h.future != [] {
      assert |Redone(h).past| > |h.past|;
    }
  }

  lemma {:induction false} UndosPast(h: History, n: nat)
    requires n <= |h.past|
    ensures |Undos(h, n).past| == |h.past| - n
    ensures n < |h.past| ==> Undos(h, n).past == h.past[..|h.past| - n]
    ensures 0 < n ==> Undos(h, n).saved && Undos(h, n).present == h.past[|h.past| - n]
  {
    if n > 0 {
      UndosPast(h, n - 1);
    }
  }

  /** n undos go back n recorded states, and n redos restore the document, its past and its
      future. */
  lemma {:induction false} RedosRestore(h: History, n: nat)
    requires 0 < n <= |h.past|
    ensures Undos(h, n).present == h.past[|h.past| - n]
    ensures Redos(Undos(h, n), n) == h.(saved := true)
  {
    UndosPast(h, n);
    UndosPast(h, n - 1);
    OneUndoOneRedo(h, n);
    hide Undone, Redone, Undos, Redos;
    RedoneUndone(Undos(h, n - 1));
    if n > 1 {
      RedosRestore(h, n - 1);
      assert Undos(h, n - 1).(saved := true) == Undos(h, n - 1);
    }
  }

  lemma {:induction false} OneUndoOneRedo(h: History, n: nat)
    requires n > 0
    ensures Redos(Undos(h, n), n) == Redos(Redone(Undone(Undos(h, n - 1))), n - 1)
    ensures n == 1 ==> Undos(h, n - 1) == h && Redos(Undos(h, n), n) == Redone(Undone(h))
  {
    hide Undone, Redone;
  }

  datatype Action = Edit(content: string) | Record | Undo | Redo

  function Perform(h: History, a: Action): History {
    match a
    case Edit(content) => Edited(h, content)
    case Record => h.(saved := true)
    case Undo => Undone(h)
    case Redo => Redone(h)
  }

  function PerformAll(h: History, actions: seq<Action>): History {
    if actions == [] then h
    else Perform(PerformAll(h, actions[..|actions| - 1]), actions[|actions| - 1])
  }

  /** A saved document: its HTML and the selection bookmark in it, which goes out again when
      the document is restored. */
  datatype Saved = Saved(content: string, bookmark: Option<nat>)
  datatype Flags = Flags(canUndo: bool, canRedo: bool)

  function Contents(stack: seq<Saved>): seq<string> {
    seq(|stack|, i requires 0 <= i < |stack| => stack[i].content)
  }

  lemma {:induction false} ContentsCut(stack: seq<Saved>, k: nat)
    requires k < |stack|
    ensures Contents(stack[..k + 1]) == Contents(stack[..k]) + [stack[k].content]
    ensures Contents(stack[k..]) == [stack[k].content] + Contents(stack[k + 1..])
    ensures stack[..k + 1][..k] == stack[..k]
    ensures |Contents(stack[..k])| == k && |Contents(stack[..k + 1])| == k + 1
  {}

  class Editor {
    const canObserveMutations: bool
    var content: string
    var undoStack: seq<Saved>
    var undoIndex: int
    var undoStackLength: nat
    var isInUndoState: bool
    var ignoreChange: bool
    var events: seq<Flags>

    predicate Valid()
      reads this
    {
      && undoStackLength == |undoStack| && 0 <= undoIndex < undoStackLength
      && (isInUndoState ==> undoStack[undoIndex].content == content)
    }

    function View(): History
      reads this
      requires Valid()
    {
      if isInUndoState then
        History(Contents(undoStack[..undoIndex]), content, Contents(undoStack[undoIndex + 1..]), true)
      else
        History(Contents(undoStack[..undoIndex + 1]), content, [], false)
    }

    /** The next notification of the mutation observer is taken for the editor's own change. */
    predicate Swallows()
      reads this
    {
      canObserveMutations && ignoreChange
    }

    /** The flags of an event say what undo and redo can do now. */
    twostate predicate EventsTell()
      reads this
      requires Valid()
    {
      || events == old(events)
      || events == old(events) + [Flags(View().past != [], View().future != [])]
    }

    constructor (canObserveMutations: bool)
      ensures Valid() && View() == History([], "", [], true)
      ensures this.canObserveMutations == canObserveMutations && events == []
    {
      this.canObserveMutations := canObserveMutations;
      content, undoStack, undoIndex, undoStackLength := "", [], -1, 0;
      isInUndoState, ignoreChange, events := false, false, [];
      new;
      SetHTML("");
    }

    method SetHTML(html: string)
      modifies this
      ensures Valid() && View() == History([], html, [], true)
      ensures ignoreChange && events == old(events)
    {
      ignoreChange := true;
      content := html;
      undoIndex := -1;
      undoStack := [];
      undoStackLength := 0;
      isInUndoState := false;
      RecordUndoState(Some(0));
    }

    method DocWasChanged()
      modifies this
      ensures unchanged(`content) && unchanged(`undoStack) && unchanged(`undoIndex) && unchanged(`undoStackLength)
      ensures old(Swallows()) ==> !ignoreChange && unchanged(`isInUndoState) && unchanged(`events)
      ensures !old(Swallows()) ==> unchanged(`ignoreChange) && !isInUndoState
      ensures !old(Swallows()) ==>
        events == old(events) + if old(isInUndoState) then [Flags(true, false)] else []
    {
      if canObserveMutations && ignoreChange {
        ignoreChange := false;
        return;
      }
      if isInUndoState {
        isInUndoState := false;
        events := events + [Flags(true, false)];
      }
    }

    method RecordUndoState(bookmark: Option<nat>)
      requires undoStackLength == |undoStack| && -1 <= undoIndex < undoStackLength
      requires isInUndoState ==> Valid()
      modifies `undoIndex, `undoStack, `undoStackLength, `isInUndoState
      ensures Valid() && isInUndoState
      ensures old(isInUndoState) ==> undoStack == old(undoStack) && undoIndex == old(undoIndex)
      ensures !old(isInUndoState) ==>
        && undoIndex == old(undoIndex) + 1
        && undoStack == old(undoStack)[..undoIndex] + [Saved(content, bookmark)]
      ensures old(Valid()) ==> View() == old(View()).(saved := true)
    {
      if !isInUndoState {
        ghost var before := undoStack;
        undoIndex := undoIndex + 1;
        if undoIndex < undoStackLength {
          undoStackLength := undoIndex;
          undoStack := undoStack[..undoIndex];
        }
        undoStack := undoStack + [Saved(content, bookmark)];
        undoStackLength := undoStackLength + 1;
        isInUndoState := true;
        assert undoStack[..undoIndex] == before[..undoIndex];
      }
    }

    method Undo(selection: Option<nat>)
      requires Valid()
      modifies this
      ensures Valid() && View() == Undone(old(View()))
      ensures old(isInUndoState) ==> undoStack == old(undoStack)
      ensures !old(isInUndoState) ==>
        undoStack == old(undoStack)[..old(undoIndex) + 1] + [Saved(old(content), selection)]
      ensures EventsTell() && (events == old(events) <==> old(View()).past == [])
      ensures ignoreChange == (old(ignoreChange) || old(View()).past != [])
    {
      if undoIndex != 0 || !isInUndoState {
        RecordUndoState(selection);
        ContentsCut(undoStack, undoIndex);
        ContentsCut(undoStack, undoIndex - 1);
        hide Contents;
        undoIndex := undoIndex - 1;
        content := undoStack[undoIndex].content;
        ignoreChange := true;
        isInUndoState := true;
        events := events + [Flags(undoIndex != 0, true)];
      }
    }

    method Redo()
      requires Valid()
      modifies this
      ensures Valid() && View() == Redone(old(View())) && undoStack == old(undoStack)
      ensures EventsTell() && (events == old(events) <==> old(View()).future == [])
      ensures ignoreChange == (old(ignoreChange) || old(View()).future != [])
    {
      ghost var h := View();
      var index, length := undoIndex, undoStackLength;
      if index + 1 < length && isInUndoState {
        undoIndex := undoIndex + 1;
        content := undoStack[undoIndex].content;
        ignoreChange := true;
        events := events + [Flags(true, index + 2 < length)];
        assert Contents(undoStack[undoIndex + 1..]) == h.future[1..];
        assert Contents(undoStack[..undoIndex]) == h.past + [h.present];
      }
    }

    /** The document changes and the change is notified. The history follows it exactly when
        the notification is not swallowed, or there was nothing to save. */
    method EditDocument(changed: string)
      requires Valid()
      modifies this
      ensures content == changed
      ensures !old(Swallows()) ==> Valid() && View() == Edited(old(View()), changed) && EventsTell()
      ensures !old(Swallows()) ==> !Swallows()
      ensures old(Swallows()) ==> unchanged(`undoStack) && unchanged(`undoIndex) && unchanged(`isInUndoState)
      ensures old(Swallows()) ==> (Valid() <==> (old(isInUndoState) ==> changed == old(content)))
    {
      ghost var h := View();
      content := changed;
      DocWasChanged();
      if !old(Swallows()) && h.saved {
        assert Contents(undoStack[..undoIndex + 1]) == h.past + [h.present];
      }
    }

    /** The notification of the editor's own change arrives. */
    method Deliver()
      requires Valid()
      modifies this
      ensures Valid() && View() == old(View()) && !Swallows() && events == old(events)
    {
      if canObserveMutations && ignoreChange {
        DocWasChanged();
      }
    }

    /** Every run of edits, recordings, undos and redos, with the editor's own changes notified
        before the next action, follows the history. */
    method Run(actions: seq<Action>)
      requires Valid() && !Swallows()
      modifies this
      ensures Valid() && View() == PerformAll(old(View()), actions)
    {
      for k := 0 to |actions|
        invariant Valid() && !Swallows()
        invariant View() == PerformAll(old(View()), actions[..k])
      {
        assert actions[..k + 1][..k] == actions[..k];
        match actions[k] {
          case Edit(changed) => EditDocument(changed);
          case Record => RecordUndoState(None);
          case Undo => Undo(None); Deliver();
          case Redo => Redo(); Deliver();
        }
      }
      assert actions[..|actions|] == actions;
    }
  }

  /** The condition of EditDocument does fail: setHTML leaves the own change to be notified, and
      an edit notified together with it is taken for part of it. */
  method SwallowedEdit() returns (e: Editor)
    ensures e.isInUndoState && e.content == "b" && !e.Valid()
    ensures 0 <= e.undoIndex < |e.undoStack| && e.undoStack[e.undoIndex].content == "a"
  {
    e := new Editor(true);
    e.SetHTML("a");
    assert e.View().saved && e.View().present == "a";
    e.EditDocument("b");
  }
}
