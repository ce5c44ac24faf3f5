/**
 The context value (`FluidContext`): an ordered list of node handles plus the
 iterator's seek counter. The document and handler references it also holds
 are not modelled; the operations that need them take the evaluator and the
 translator as parameters instead.

 Covered here: construction with its node-type check, the `ArrayAccess`
 operations, the `Iterator` protocol and `length`.
 */
module Contexts {
  import opened Base

  datatype Context = Context(nodes: seq<Node>, seek: nat)

  /** A value offered to the constructor: a DOM node or anything else. */
  datatype Value = DomNode(id: Node) | NotANode

  /** The constructor's argument: one value that is neither an array nor
      `Traversable` (a DOMNode, a string, ...), or something iterable (an
      array, a DOMNodeList, another context) given by its elements. */
  datatype Source = Single(v: Value) | Iterable(items: seq<Value>)

  /** The elements the constructor iterates over: a single value is wrapped
      as a one-element list. */
  function Elements(src: Source): (es: seq<Value>)
    ensures src.Single? ==> es == [src.v]
    ensures src.Iterable? ==> es == src.items
  {
    match src
    case Single(v) => [v]
    case Iterable(items) => items
  }

  /** `new FluidContext(...)`: every element must be a node; the first one
      that is not aborts construction and no context exists. */
  method Construct(src: Source) returns (r: Result<Context, Error>)
    ensures r.Success? <==> forall k :: 0 <= k < |Elements(src)| ==> Elements(src)[k].DomNode?
    ensures r.Failure? ==> r.error == NodeTypeNotRecognized
    ensures r.Success? ==>
              && r.value.seek == 0
              && |r.value.nodes| == |Elements(src)|
              && forall k :: 0 <= k < |r.value.nodes| ==> Elements(src)[k] == DomNode(r.value.nodes[k])
  {
    var context := Elements(src);
    var nodes: seq<Node> := [];
    for k := 0 to |context|
      invariant |nodes| == k
      invariant forall m :: 0 <= m < k ==> context[m] == DomNode(nodes[m])
    {
      var n := context[k];
      if !n.DomNode? {
        return Failure(NodeTypeNotRecognized);
      }
      nodes := nodes + [n.id];
    }
    r := Success(Context(nodes, 0));
  }

  /** A context over an explicit node list, as the operations that build a new
      context from their results create it (those lists hold nodes only). */
  function FromNodes(nodes: seq<Node>): Context {
    Context(nodes, 0)
  }

  /** The PHP list behind the context: after construction and after every
      splice, its keys are exactly 0 .. length-1. */
  function AsPhpArray(nodes: seq<Node>): map<int, Node> {
    map k | 0 <= k < |nodes| :: nodes[k]
  }

  /** `length()` and its alias `size()`: `count($nodes)`, the number of
      entries of the PHP list. */
  function Length(cx: Context): (n: nat)
    ensures n == |AsPhpArray(cx.nodes).Keys|
  {
    KeyCount(cx.nodes);
    |cx.nodes|
  }

  /** A list of n nodes has n keys. */
  lemma {:induction false} KeyCount(nodes: seq<Node>)
    ensures |AsPhpArray(nodes).Keys| == |nodes|
  {
    if |nodes| > 0 {
      var p := nodes[..|nodes| - 1];
      KeyCount(p);
      assert AsPhpArray(nodes).Keys == AsPhpArray(p).Keys + {|p|};
    }
  }

  /** `offsetExists`: `isset($nodes[$offset])`. */
  function OffsetExists(cx: Context, offset: int): (b: bool)
    ensures b <==> 0 <= offset < Length(cx)
  {
    offset in AsPhpArray(cx.nodes)
  }

  /** `offsetGet`: the node at the offset, or null. */
  function OffsetGet(cx: Context, offset: int): (r: Option<Node>)
    ensures r.Some? <==> 0 <= offset < Length(cx)
    ensures r.Some? ==> r.value == cx.nodes[offset]
  {
    var a := AsPhpArray(cx.nodes);
    if offset in a then Some(a[offset]) else None
  }

  /** `offsetSet`: both `$cx[] = v` (no offset) and `$cx[i] = v` throw; the
      context is never changed. */
  function OffsetSet(cx: Context, offset: Option<int>, value: Value): (r: Result<Context, Error>)
    ensures r.Failure? && r.error == SettingNotAllowed
  {
    Failure(SettingNotAllowed)
  }

  /** Where `array_splice($nodes, $offset, 1)` starts removing: a negative
      offset counts from the end and is clamped at 0, an offset past the end
      is clamped to the length (nothing is removed). */
  function SpliceStart(offset: int, count: nat): (start: nat)
    ensures start <= count
  {
    if offset < 0 then (if count + offset < 0 then 0 else count + offset)
    else if offset > count then count
    else offset
  }

  /** `after` is `before` with the element at index `i` removed: the prefix
      stays, every later element moves down one index. */
  predicate RemovedAt(before: seq<Node>, after: seq<Node>, i: nat) {
    && i < |before|
    && |after| == |before| - 1
    && (forall k :: 0 <= k < i ==> after[k] == before[k])
    && (forall k :: i <= k < |after| ==> after[k] == before[k + 1])
  }

  /** `offsetUnset`: removes one element by splicing, so later elements move
      down one index; the seek counter is not touched. */
  function OffsetUnset(cx: Context, offset: int): (r: Context)
    ensures r.seek == cx.seek
    ensures 0 <= offset < Length(cx) ==> RemovedAt(cx.nodes, r.nodes, offset)
    ensures offset < 0 && Length(cx) + offset >= 0 ==> RemovedAt(cx.nodes, r.nodes, Length(cx) + offset)
    ensures Length(cx) + offset < 0 && Length(cx) > 0 ==> RemovedAt(cx.nodes, r.nodes, 0)
    ensures offset >= Length(cx) || Length(cx) == 0 ==> r == cx
  {
    var start := SpliceStart(offset, |cx.nodes|);
    if start < |cx.nodes| then
      cx.(nodes := cx.nodes[..start] + cx.nodes[start + 1..])
    else
      cx
  }

  /** After `unset($cx[$i])` for an in-range `i`, reading `$cx[$i]` yields the
      node that followed it, and offset `length - 1` no longer exists. */
  lemma UnsetThenGet(cx: Context, i: int)
    requires 0 <= i < Length(cx)
    ensures OffsetGet(OffsetUnset(cx, i), i) == (if i + 1 < Length(cx) then Some(cx.nodes[i + 1]) else None)
    ensures !OffsetExists(OffsetUnset(cx, i), Length(cx) - 1)
  {
  }

  // The Iterator interface.

  /** `rewind()`: back to the first node; the nodes stay as they are. */
  function Rewind(cx: Context): (r: Context)
    ensures r.nodes == cx.nodes && Key(r) == 0
    ensures Valid(r) <==> Length(cx) > 0
  {
    cx.(seek := 0)
  }

  /** `valid()`: `isset($nodes[$seek])`. */
  function Valid(cx: Context): (b: bool)
    ensures b <==> cx.seek < Length(cx)
  {
    (cx.seek as int) in AsPhpArray(cx.nodes)
  }

  /** `current()`: the node under the seek counter; reading past the end
      yields null (with a notice). */
  function Current(cx: Context): (r: Option<Node>)
    ensures r.Some? <==> Valid(cx)
    ensures r.Some? ==> r.value == cx.nodes[cx.seek]
  {
    OffsetGet(cx, cx.seek)
  }

  /** `key()`: the offset under which `current()` reads the node. */
  function Key(cx: Context): (k: nat)
    ensures k == cx.seek
    ensures Valid(cx) ==> OffsetGet(cx, k) == Current(cx)
  {
    cx.seek
  }

  /** `next()`: one node further; the nodes stay as they are. */
  function Next(cx: Context): (r: Context)
    ensures r.nodes == cx.nodes && Key(r) == Key(cx) + 1
  {
    cx.(seek := cx.seek + 1)
  }

  /** What PHP's `foreach ($cx as $k => $v)` does with the protocol above:
      rewind, then while valid collect (key, current) and advance. Every node
      is visited once, at its own index, whatever the seek counter was. */
  method Foreach(cx: Context) returns (visited: seq<(nat, Node)>, last: Context)
    ensures |visited| == Length(cx)
    ensures forall k :: 0 <= k < |visited| ==> visited[k] == (k, cx.nodes[k])
    ensures last.nodes == cx.nodes && !Valid(last)
  {
    var it := Rewind(cx);
    visited := [];
    while Valid(it)
      invariant it.nodes == cx.nodes
      invariant it.seek == |visited| <= Length(cx)
      invariant forall k :: 0 <= k < |visited| ==> visited[k] == (k, cx.nodes[k])
      decreases Length(cx) - it.seek
    {
      var v := Current(it);
      visited := visited + [(Key(it), v.value)];
      it := Next(it);
    }
    last := it;
  }
}
