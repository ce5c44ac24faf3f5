/**
 Query fan-out (`query`): every query string is resolved and evaluated from
 every node of the context, node-major then query-major; the concatenated hits
 are collapsed by identity before they become the new context. Also the
 target selection of `remove`, which is either the context itself or a query.

 The XPath evaluator (`DOMXPath::query($q, $n)`) and the CSS translator are
 uninterpreted parameters.
 */
module Queries {
  import opened Base
  import opened Unique
  import opened Resolution
  import opened Contexts

  /** `DOMXPath::query(address, contextNode)`: an ordered, possibly repeating
      node list. */
  type Evaluator = (string, Node) -> seq<Node>

  /** `CssTranslator::xpath(selector)`. */
  type Translator = string -> string

  /** One argument of the variadic `query(...$query)`: a query string or an
      array of query strings. */
  datatype QueryArg = Text(q: string) | List(qs: seq<string>)

  /** Argument shapes `FluidContext::query` accepts: an array first (the rest is
      ignored), or query strings only (possibly none). */
  predicate WellTypedArgs(args: seq<QueryArg>) {
    (|args| > 0 && args[0].List?) || forall k :: 0 <= k < |args| ==> args[k].Text?
  }

  /** The query list the loops run over: an array first argument replaces the
      argument list. */
  function QueryStrings(args: seq<QueryArg>): (qs: seq<string>)
    requires WellTypedArgs(args)
    ensures |args| > 0 && args[0].List? ==> qs == args[0].qs
    ensures !(|args| > 0 && args[0].List?) ==>
              |qs| == |args| && forall k :: 0 <= k < |args| ==> args[k] == Text(qs[k])
  {
    if |args| > 0 && args[0].List? then args[0].qs
    else seq(|args|, k requires 0 <= k < |args| => args[k].q)
  }

  /** The raw hits of all queries from one node, query-major. */
  function HitsAt(n: Node, qs: seq<string>, translate: Translator, eval: Evaluator): seq<Node> {
    if |qs| == 0 then []
    else HitsAt(n, qs[..|qs| - 1], translate, eval) + eval(ResolveQuery(qs[|qs| - 1], translate), n)
  }

  /** The raw hits of the whole context, node-major. */
  function Hits(nodes: seq<Node>, qs: seq<string>, translate: Translator, eval: Evaluator): seq<Node> {
    if |nodes| == 0 then []
    else Hits(nodes[..|nodes| - 1], qs, translate, eval) + HitsAt(nodes[|nodes| - 1], qs, translate, eval)
  }

  /** Some query, resolved, finds `x` from some node of the context. */
  predicate Found(x: Node, nodes: seq<Node>, qs: seq<string>, translate: Translator, eval: Evaluator) {
    exists i, j :: 0 <= i < |nodes| && 0 <= j < |qs| && x in eval(ResolveQuery(qs[j], translate), nodes[i])
  }

  lemma {:induction false} HitsAtMembers(n: Node, qs: seq<string>, translate: Translator, eval: Evaluator, x: Node)
    ensures x in HitsAt(n, qs, translate, eval) <==>
              exists j :: 0 <= j < |qs| && x in eval(ResolveQuery(qs[j], translate), n)
  {
    if |qs| > 0 {
      var p := qs[..|qs| - 1];
      HitsAtMembers(n, p, translate, eval, x);
      if x in HitsAt(n, p, translate, eval) {
        var j :| 0 <= j < |p| && x in eval(ResolveQuery(p[j], translate), n);
        assert qs[j] == p[j];
      }
      if exists j :: 0 <= j < |qs| && x in eval(ResolveQuery(qs[j], translate), n) {
        var j :| 0 <= j < |qs| && x in eval(ResolveQuery(qs[j], translate), n);
        if j < |p| {
          assert qs[j] == p[j];
        }
      }
    }
  }

  lemma {:induction false} HitsMembers(nodes: seq<Node>, qs: seq<string>, translate: Translator, eval: Evaluator, x: Node)
    ensures x in Hits(nodes, qs, translate, eval) <==> Found(x, nodes, qs, translate, eval)
  {
    if |nodes| > 0 {
      var p := nodes[..|nodes| - 1];
      var n := nodes[|nodes| - 1];
      assert Hits(nodes, qs, translate, eval) == Hits(p, qs, translate, eval) + HitsAt(n, qs, translate, eval);
      if x in Hits(nodes, qs, translate, eval) {
        HitsMembers(p, qs, translate, eval, x);
        if x in Hits(p, qs, translate, eval) {
          var i, j :| 0 <= i < |p| && 0 <= j < |qs| && x in eval(ResolveQuery(qs[j], translate), p[i]);
          assert nodes[i] == p[i];
        } else {
          HitsAtMembers(n, qs, translate, eval, x);
          var j :| 0 <= j < |qs| && x in eval(ResolveQuery(qs[j], translate), n);
          assert x in eval(ResolveQuery(qs[j], translate), nodes[|nodes| - 1]);
        }
      }
      if Found(x, nodes, qs, translate, eval) {
        var i, j :| 0 <= i < |nodes| && 0 <= j < |qs| && x in eval(ResolveQuery(qs[j], translate), nodes[i]);
        if i < |p| {
          assert nodes[i] == p[i];
          assert Found(x, p, qs, translate, eval);
          HitsMembers(p, qs, translate, eval, x);
        } else {
          HitsAtMembers(n, qs, translate, eval, x);
        }
      }
    }
  }

  /** The hits of a split context are the hits of its first part followed by
      those of its second part: results are grouped by starting node. */
  lemma {:induction false} HitsNodeMajor(a: seq<Node>, b: seq<Node>, qs: seq<string>, translate: Translator, eval: Evaluator)
    ensures Hits(a + b, qs, translate, eval) == Hits(a, qs, translate, eval) + Hits(b, qs, translate, eval)
  {
    if |b| > 0 {
      var b' := b[..|b| - 1];
      assert (a + b)[..|a + b| - 1] == a + b';
      assert (a + b)[|a + b| - 1] == b[|b| - 1];
      HitsNodeMajor(a, b', qs, translate, eval);
    } else {
      assert a + b == a;
    }
  }

  /** From one node, the hits of a split query list are the hits of the first
      queries followed by those of the remaining ones. */
  lemma {:induction false} HitsQueryMajor(n: Node, qa: seq<string>, qb: seq<string>, translate: Translator, eval: Evaluator)
    ensures HitsAt(n, qa + qb, translate, eval) == HitsAt(n, qa, translate, eval) + HitsAt(n, qb, translate, eval)
  {
    if |qb| > 0 {
      var qb' := qb[..|qb| - 1];
      assert (qa + qb)[..|qa + qb| - 1] == qa + qb';
      assert (qa + qb)[|qa + qb| - 1] == qb[|qb| - 1];
      HitsQueryMajor(n, qa, qb', translate, eval);
    } else {
      assert qa + qb == qa;
    }
  }

  /** The nodes of the context `query` returns: the identity-deduplicated
      hits. */
  function QueryNodes(nodes: seq<Node>, qs: seq<string>, translate: Translator, eval: Evaluator): (r: seq<Node>)
    ensures NoDup(r)
    ensures forall x :: x in r <==> Found(x, nodes, qs, translate, eval)
    ensures FirstSeenOrder(r, Hits(nodes, qs, translate, eval))
  {
    var hits := Hits(nodes, qs, translate, eval);
    assert forall x :: x in hits <==> Found(x, nodes, qs, translate, eval) by {
      forall x
        ensures x in hits <==> Found(x, nodes, qs, translate, eval)
      {
        HitsMembers(nodes, qs, translate, eval, x);
      }
    }
    Dedup(hits)
  }

  /** The inner loop of `query`: append the hits of every query, resolved,
      from node `n`. */
  method AppendHitsFrom(acc: seq<Node>, n: Node, query: seq<string>, translate: Translator, eval: Evaluator)
    returns (results: seq<Node>)
    ensures results == acc + HitsAt(n, query, translate, eval)
  {
    results := acc;
    for j := 0 to |query|
      invariant results == acc + HitsAt(n, query[..j], translate, eval)
    {
      var q := ResolveQuery(query[j], translate);
      var res := eval(q, n);
      assert query[..j + 1][..j] == query[..j];
      results := results + res;
    }
    assert query[..|query|] == query;
  }

  /** The outer loop of `query`: every node of the context in order. */
  method CollectHits(nodes: seq<Node>, query: seq<string>, translate: Translator, eval: Evaluator)
    returns (results: seq<Node>)
    ensures results == Hits(nodes, query, translate, eval)
  {
    results := [];
    for i := 0 to |nodes|
      invariant results == Hits(nodes[..i], query, translate, eval)
    {
      results := AppendHitsFrom(results, nodes[i], query, translate, eval);
      assert nodes[..i + 1][..i] == nodes[..i];
    }
    assert nodes[..|nodes|] == nodes;
  }

  /** `query(...$query)` (and `__invoke`) as `FluidContext` runs it: collect the
      hits, filter them, wrap the result in a new context. */
  method Query(cx: Context, args: seq<QueryArg>, translate: Translator, eval: Evaluator) returns (r: Context)
    requires WellTypedArgs(args)
    ensures r == FromNodes(QueryNodes(cx.nodes, QueryStrings(args), translate, eval))
    ensures Length(cx) == 0 ==> Length(r) == 0
  {
    var query := QueryStrings(args);
    var results := CollectHits(cx.nodes, query, translate, eval);
    results := FilterQueryResults(results);
    r := FromNodes(results);
  }

  /** An ascending or absolute query that finds the same node `p` from every
      node of a non-empty context yields `p` exactly once. */
  lemma SharedTargetOnce(nodes: seq<Node>, q: string, translate: Translator, eval: Evaluator, p: Node)
    requires |nodes| > 0
    requires forall k :: 0 <= k < |nodes| ==> eval(ResolveQuery(q, translate), nodes[k]) == [p]
    ensures QueryNodes(nodes, [q], translate, eval) == [p]
  {
    var hits := Hits(nodes, [q], translate, eval);
    var r := QueryNodes(nodes, [q], translate, eval);
    assert p in eval(ResolveQuery([q][0], translate), nodes[0]);
    assert Found(p, nodes, [q], translate, eval);
    forall x | x in r
      ensures x == p
    {
      var i, j :| 0 <= i < |nodes| && 0 <= j < 1 && x in eval(ResolveQuery([q][j], translate), nodes[i]);
    }
    DedupCharacterised(hits, [p]);
    HitsMembers(nodes, [q], translate, eval, p);
    forall x
      ensures x in [p] <==> x in hits
    {
      HitsMembers(nodes, [q], translate, eval, x);
    }
  }

  /** Target selection of `remove(...$query)`: with no argument the context's
      own nodes, otherwise the result of `query` with the same arguments. */
  method RemoveTargets(cx: Context, args: seq<QueryArg>, translate: Translator, eval: Evaluator)
    returns (targets: seq<Node>)
    requires WellTypedArgs(args)
    ensures |args| == 0 ==> targets == cx.nodes
    ensures |args| > 0 ==> targets == QueryNodes(cx.nodes, QueryStrings(args), translate, eval)
  {
    if |args| == 0 {
      targets := cx.nodes;
    } else {
      var found := Query(cx, args, translate, eval);
      targets := found.nodes;
    }
  }
}
