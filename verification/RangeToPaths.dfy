/** SlateUtils.rangeToPaths and the character searches (realtime-service/src/utils/SlateUtils.js). */
module RangeToPaths {
  import opened Wrappers
  import opened SlateModel

  datatype Span = Span(path: nat, offset: nat, length: int)

  function SpanAt(doc: Doc, r: Range, t: nat): Span
    requires t < |doc|
  {
    var offset := if t == r.start.text then r.start.offset else 0;
    var length :=
      if t == r.end.text then
        if r.end.text == r.start.text then r.end.offset - r.start.offset else r.end.offset
      else |doc[t]|;
    Span(t, offset, length)
  }

  function SpansFrom(doc: Doc, r: Range, t: nat): seq<Span>
    requires r.end.text < |doc|
    decreases r.end.text - t
  {
    if t > r.end.text then []
    else [SpanAt(doc, r, t)] + SpansFrom(doc, r, t + 1)
  }

  /** The loop walks the text nodes from the start node until it has pushed the end node.
      When the end node lies before the start node it runs off the document and throws. */
  method Compute(doc: Doc, r: Range) returns (paths: Option<seq<Span>>)
    requires r.start.text < |doc| && r.end.text < |doc|
    ensures paths.Some? <==> r.start.text <= r.end.text
    ensures paths.Some? ==> paths.value == SpansFrom(doc, r, r.start.text)
  {
    var pushed: seq<Span> := [];
    var t := r.start.text;
    while true
      invariant r.start.text <= t <= |doc|
      invariant r.start.text <= r.end.text ==> t <= r.end.text
      invariant r.start.text <= r.end.text ==>
        pushed + SpansFrom(doc, r, t) == SpansFrom(doc, r, r.start.text)
      decreases |doc| - t
    {
      if t == |doc| {
        return None;
      }
      pushed := pushed + [SpanAt(doc, r, t)];
      if t == r.end.text {
        assert SpansFrom(doc, r, t + 1) == [];
        return Some(pushed);
      }
      t := t + 1;
    }
  }

  predicate Hits(s: Span, p: Point) {
    s.path == p.text && s.offset <= p.offset < s.offset + s.length
  }

  /** One span per text node, in document order. */
  lemma {:induction false} SpansInOrder(doc: Doc, r: Range, t: nat)
    requires r.end.text < |doc|
    ensures t <= r.end.text ==> |SpansFrom(doc, r, t)| == r.end.text + 1 - t
    ensures t > r.end.text ==> SpansFrom(doc, r, t) == []
    ensures forall k | 0 <= k < |SpansFrom(doc, r, t)| ::
      SpansFrom(doc, r, t)[k] == SpanAt(doc, r, t + k)
    decreases r.end.text - t
  {
    if t <= r.end.text {
      SpansInOrder(doc, r, t + 1);
      var rest := SpansFrom(doc, r, t + 1);
      forall k | 0 <= k < |SpansFrom(doc, r, t)|
        ensures SpansFrom(doc, r, t)[k] == SpanAt(doc, r, t + k)
      {
        if k > 0 {
          assert SpansFrom(doc, r, t)[k] == rest[k - 1];
        }
      }
    }
  }

  /** A character of the document lies in the range exactly when it lies in a span, it then
      lies in one span only, and that is the span of its own text node. The first span of a
      range over several nodes reaches past its node; the node's size clips it. */
  lemma {:induction false} SpansCoverRange(doc: Doc, r: Range, p: Point)
    requires r.start.text <= r.end.text < |doc|
    requires At(doc, p)
    ensures InRange(r, p) <==>
      exists k :: 0 <= k < |SpansFrom(doc, r, r.start.text)| && Hits(SpansFrom(doc, r, r.start.text)[k], p)
    ensures forall k, l | 0 <= k < |SpansFrom(doc, r, r.start.text)| && 0 <= l < |SpansFrom(doc, r, r.start.text)|
      && Hits(SpansFrom(doc, r, r.start.text)[k], p) && Hits(SpansFrom(doc, r, r.start.text)[l], p) :: k == l
  {
    var spans := SpansFrom(doc, r, r.start.text);
    SpansInOrder(doc, r, r.start.text);
    if InRange(r, p) {
      assert Hits(spans[p.text - r.start.text], p);
    }
  }

  predicate HasId(c: Char, id: int) {
    exists m | m in c.marks :: m.Coding? && m.id == id
  }

  /** Index of the first character that has not the coding, or None. */
  function FindCodingEnd(id: int, chars: Text): (r: Option<nat>)
    ensures r.None? ==> forall i | 0 <= i < |chars| :: HasId(chars[i], id)
    ensures r.Some? ==> r.value < |chars| && !HasId(chars[r.value], id)
    ensures r.Some? ==> forall i | 0 <= i < r.value :: HasId(chars[i], id)
  {
    if chars == [] then None
    else if !HasId(chars[0], id) then Some(0)
    else match FindCodingEnd(id, chars[1..])
      case None => None
      case Some(k) => Some(k + 1)
  }
}
