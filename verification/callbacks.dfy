/**
 Callback combinators: `each`, `filter` and `times`.

 A callback is a pure function of its arguments here; what it does to the
 document is outside the model, so `each` and `times` report the calls they
 make. `FluidContext` binds a closure's `$this` to the first argument; the model
 passes that argument explicitly instead.
 */
module Callbacks {
  import opened Base
  import opened Contexts

  /** What a callback may return; `filter` only asks whether it is `false`. */
  datatype PhpValue = Null | Bool(b: bool) | Int(i: int) | Str(s: string)

  /** `fn($cx, $i, $n)` as `each` and `filter` call it. */
  type NodeCallback = (Context, nat, Node) -> PhpValue

  /** `fn($cx, $i)` as `times` calls it. */
  type RepeatCallback = (Context, nat) -> PhpValue

  /** One recorded call of a node callback. */
  datatype NodeCall = NodeCall(cx: Context, index: nat, node: Node)

  /** The single-node context a node callback receives (`newContext($n)`). */
  function Single(n: Node): (cx: Context)
    ensures cx.nodes == [n] && cx.seek == 0
  {
    FromNodes([n])
  }

  /** `each($fn)`: calls `fn` once per node, in order, with the node wrapped
      as a context, its index and the node; returns the same context. */
  method Each(cx: Context, fn: NodeCallback) returns (r: Context, calls: seq<NodeCall>)
    ensures r == cx
    ensures |calls| == Length(cx)
    ensures forall k :: 0 <= k < |calls| ==> calls[k] == NodeCall(Single(cx.nodes[k]), k, cx.nodes[k])
  {
    calls := [];
    for i := 0 to |cx.nodes|
      invariant |calls| == i
      invariant forall k :: 0 <= k < i ==> calls[k] == NodeCall(Single(cx.nodes[k]), k, cx.nodes[k])
    {
      var n := cx.nodes[i];
      var node := Single(n);
      // The recorded call stands for `callfn($fn, [$cx, $i, $n])`.
      calls := calls + [NodeCall(node, i, n)];
    }
    r := cx;
  }

  /** `filter` keeps node `i` unless its callback returned exactly `false`
      (strict `!==`: null, 0 and "" keep the node). */
  predicate Keeps(cx: Context, fn: NodeCallback, i: nat)
    requires i < |cx.nodes|
  {
    fn(Single(cx.nodes[i]), i, cx.nodes[i]) != Bool(false)
  }

  /** The indices below `k` that `filter` keeps, ascending. */
  function KeptIndices(cx: Context, fn: NodeCallback, k: nat): (idx: seq<nat>)
    requires k <= |cx.nodes|
    ensures forall m :: 0 <= m < |idx| ==> idx[m] < k
    ensures forall m, m' :: 0 <= m < m' < |idx| ==> idx[m] < idx[m']
    ensures forall i :: 0 <= i < k ==> (i in idx <==> Keeps(cx, fn, i))
  {
    if k == 0 then []
    else
      var p := KeptIndices(cx, fn, k - 1);
      if Keeps(cx, fn, k - 1) then p + [k - 1] else p
  }

  /** `filter($fn)`: a new context holding, in their original order, exactly
      the nodes whose callback did not return `false`. */
  method Filter(cx: Context, fn: NodeCallback) returns (r: Context)
    ensures r.seek == 0
    ensures var idx := KeptIndices(cx, fn, Length(cx));
            |r.nodes| == |idx| && forall m :: 0 <= m < |idx| ==> r.nodes[m] == cx.nodes[idx[m]]
  {
    var nodes: seq<Node> := [];
    for i := 0 to |cx.nodes|
      invariant var idx := KeptIndices(cx, fn, i);
                |nodes| == |idx| && forall m :: 0 <= m < |idx| ==> nodes[m] == cx.nodes[idx[m]]
    {
      var n := cx.nodes[i];
      var ret := fn(Single(n), i, n);
      if ret != Bool(false) {
        nodes := nodes + [n];
      }
    }
    r := FromNodes(nodes);
  }

  /** `times($n, $fn)`: calls `fn` with the same context and the indices
      0 .. n-1 (no call when n <= 0); returns the same context. */
  method Times(cx: Context, times: int, fn: RepeatCallback) returns (r: Context, calls: seq<(Context, nat)>)
    ensures r == cx
    ensures |calls| == (if times < 0 then 0 else times)
    ensures forall k :: 0 <= k < |calls| ==> calls[k] == (cx, k)
  {
    calls := [];
    var i := 0;
    while i < times
      invariant 0 <= i && |calls| == i
      invariant i <= (if times < 0 then 0 else times)
      invariant forall k :: 0 <= k < i ==> calls[k] == (cx, k)
      decreases times - i
    {
      // The recorded call stands for `callfn($fn, [$this, $i])`.
      calls := calls + [(cx, i)];
      i := i + 1;
    }
    r := cx;
  }
}
