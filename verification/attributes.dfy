/**
 Attribute fan-out (`setAttribute` and its alias `attr`): every attribute is
 set on every node of the context, in order.

 A node's attributes are an ordered list with unique names, as the DOM keeps
 them. `DOMElement::setAttribute` rewrites an existing attribute in place, so
 it keeps its position; a new one is appended.
 */
module Attributes {
  import opened Base
  import opened Contexts

  datatype Attr = Attr(name: string, value: string)

  /** The attribute lists of the document's elements, by node. */
  type Store = map<Node, seq<Attr>>

  /** The names of an attribute list, in order. */
  function Names(l: seq<Attr>): (ns: seq<string>)
    ensures |ns| == |l|
    ensures forall i :: 0 <= i < |l| ==> ns[i] == l[i].name
  {
    seq(|l|, i requires 0 <= i < |l| => l[i].name)
  }

  /** No attribute name occurs twice. */
  predicate UniqueNames(l: seq<Attr>) {
    forall i, j :: 0 <= i < j < |l| ==> l[i].name != l[j].name
  }

  /** Every element's attribute list has unique names. */
  predicate WellFormed(st: Store) {
    forall n :: n in st ==> UniqueNames(st[n])
  }

  /** The attributes of node `n`; a node the store does not mention has none. */
  function AttrsOf(st: Store, n: Node): seq<Attr> {
    if n in st then st[n] else []
  }

  /** `DOMElement::setAttribute(name, value)` on one attribute list. */
  function SetAttr(l: seq<Attr>, name: string, value: string): (r: seq<Attr>)
    requires UniqueNames(l)
    ensures UniqueNames(r)
    ensures name in Names(l) ==>
              |r| == |l| && forall i :: 0 <= i < |l| ==> r[i] == (if l[i].name == name then Attr(name, value) else l[i])
    ensures name !in Names(l) ==> r == l + [Attr(name, value)]
  {
    var i := IndexOf(Names(l), name);
    if i < |l| then l[i := Attr(name, value)] else l + [Attr(name, value)]
  }

  /** The two argument forms: `setAttribute($name, $value)` and
      `setAttribute([$name => $value, ...])`. */
  datatype AttrArgs = Pair(name: string, value: string) | Entries(entries: seq<(string, string)>)

  /** Argument normalisation: the pair form is a one-entry array. */
  function Normalize(args: AttrArgs): (attrs: seq<(string, string)>)
    ensures args.Pair? ==> attrs == [(args.name, args.value)]
    ensures args.Entries? ==> attrs == args.entries
  {
    match args
    case Pair(name, value) => [(name, value)]
    case Entries(entries) => entries
  }

  /** The value the last entry named `name` gives, if any entry does. */
  function LastValue(attrs: seq<(string, string)>, name: string): Option<string> {
    if |attrs| == 0 then None
    else if attrs[|attrs| - 1].0 == name then Some(attrs[|attrs| - 1].1)
    else LastValue(attrs[..|attrs| - 1], name)
  }

  /** The value an attribute named `name` holds after `attrs` were set, given it held `previous`. */
  function NewValue(attrs: seq<(string, string)>, name: string, previous: string): string {
    match LastValue(attrs, name)
    case Some(v) => v
    case None => previous
  }

  /** Setting `attrs` one after the other on one attribute list. */
  function ApplyAll(l: seq<Attr>, attrs: seq<(string, string)>): (r: seq<Attr>)
    requires UniqueNames(l)
    ensures UniqueNames(r)
  {
    if |attrs| == 0 then l
    else
      var last := attrs[|attrs| - 1];
      SetAttr(ApplyAll(l, attrs[..|attrs| - 1]), last.0, last.1)
  }

  /** The names `attrs` mentions, in order, repeats included. */
  function Keys(attrs: seq<(string, string)>): (ks: seq<string>)
    ensures |ks| == |attrs|
    ensures forall k :: 0 <= k < |attrs| ==> ks[k] == attrs[k].0
  {
    seq(|attrs|, k requires 0 <= k < |attrs| => attrs[k].0)
  }

  /** A name has a last value exactly when `attrs` mentions it. */
  lemma {:induction false} LastValueMentioned(attrs: seq<(string, string)>, name: string)
    ensures LastValue(attrs, name).Some? <==> name in Keys(attrs)
  {
    if |attrs| > 0 {
      var a' := attrs[..|attrs| - 1];
      LastValueMentioned(a', name);
      assert Keys(attrs) == Keys(a') + [attrs[|attrs| - 1].0];
    }
  }

  /** From index `from` on, the attributes of `l` follow the order in which
      `attrs` first mentions their names. */
  predicate SuffixOrdered(from: nat, l: seq<Attr>, attrs: seq<(string, string)>) {
    forall i, j :: from <= i < j < |l| ==> IndexOf(Keys(attrs), l[i].name) < IndexOf(Keys(attrs), l[j].name)
  }

  /** What setting `attrs` does to a node's attribute list `before`:
      - every existing attribute keeps its position, and takes the last value
        `attrs` gives it, if any;
      - everything after the old list is an attribute named in `attrs`,
        holding the last value given for it, in the order in which `attrs`
        first mentions them;
      - every attribute named in `attrs` is present;
      - names stay unique. */
  ghost predicate Updated(before: seq<Attr>, after: seq<Attr>, attrs: seq<(string, string)>) {
    && UniqueNames(after)
    && |before| <= |after|
    && (forall i :: 0 <= i < |before| ==>
          after[i] == Attr(before[i].name, NewValue(attrs, before[i].name, before[i].value)))
    && (forall i :: |before| <= i < |after| ==> LastValue(attrs, after[i].name) == Some(after[i].value))
    && SuffixOrdered(|before|, after, attrs)
    && (forall k :: LastValue(attrs, k).Some? ==> k in Names(after))
  }

  /** One more `setAttribute(k, v)` keeps the appended attributes in
      first-mention order: a name new to the list is also new to the earlier
      entries, so it is mentioned last. */
  lemma OrderStep(from: nat, mid: seq<Attr>, a': seq<(string, string)>, k: string, v: string)
    requires UniqueNames(mid) && from <= |mid|
    requires SuffixOrdered(from, mid, a')
    requires forall i :: from <= i < |mid| ==> mid[i].name in Keys(a')
    requires k in Keys(a') ==> k in Names(mid)
    ensures SuffixOrdered(from, SetAttr(mid, k, v), a' + [(k, v)])
  {
    var after := SetAttr(mid, k, v);
    var ks := Keys(a' + [(k, v)]);
    assert ks == Keys(a') + [k];
    IndexOfAppend(Keys(a'), k);
    NamesAfterSet(mid, k, v);
    if k in Names(mid) {
      forall i | from <= i < |after|
        ensures after[i].name == mid[i].name
        ensures IndexOf(ks, after[i].name) == IndexOf(Keys(a'), mid[i].name)
      {
        assert Names(after)[i] == Names(mid)[i];
      }
    } else {
      assert after == mid + [Attr(k, v)];
      forall i | from <= i < |mid|
        ensures IndexOf(ks, after[i].name) == IndexOf(Keys(a'), mid[i].name) < |a'|
      {
        assert after[i] == mid[i];
      }
    }
  }

  lemma {:induction false} ApplyAllUpdates(l: seq<Attr>, attrs: seq<(string, string)>)
    requires UniqueNames(l)
    ensures Updated(l, ApplyAll(l, attrs), attrs)
  {
    if |attrs| > 0 {
      var a' := attrs[..|attrs| - 1];
      var (k, v) := attrs[|attrs| - 1];
      ApplyAllUpdates(l, a');
      assert attrs == a' + [(k, v)];
      UpdateStep(l, ApplyAll(l, a'), a', k, v);
    }
  }

  /** One more entry `(k, v)` set on an update of `l` gives an update of `l`
      by the longer entry list. */
  lemma UpdateStep(l: seq<Attr>, mid: seq<Attr>, a': seq<(string, string)>, k: string, v: string)
    requires Updated(l, mid, a')
    ensures Updated(l, SetAttr(mid, k, v), a' + [(k, v)])
  {
    var attrs := a' + [(k, v)];
    var after := SetAttr(mid, k, v);
    assert attrs[..|attrs| - 1] == a';
    assert LastValue(attrs, k) == Some(v);
    assert forall name :: name != k ==> LastValue(attrs, name) == LastValue(a', name);
    assert SuffixOrdered(|l|, after, attrs) by {
      SuffixMentioned(l, mid, a');
      LastValueMentioned(a', k);
      OrderStep(|l|, mid, a', k, v);
    }
    forall i | 0 <= i < |l|
      ensures after[i] == Attr(l[i].name, NewValue(attrs, l[i].name, l[i].value))
    {
      assert mid[i] == Attr(l[i].name, NewValue(a', l[i].name, l[i].value));
    }
    forall i | |l| <= i < |after|
      ensures LastValue(attrs, after[i].name) == Some(after[i].value)
    {
      if i < |mid| {
        assert LastValue(a', mid[i].name) == Some(mid[i].value);
      }
    }
    forall name | LastValue(attrs, name).Some?
      ensures name in Names(after)
    {
      if name != k {
        assert name in Names(mid);
        var j :| 0 <= j < |mid| && Names(mid)[j] == name;
        assert after[j].name == name;
        assert Names(after)[j] == name;
      } else if k in Names(mid) {
        var j :| 0 <= j < |mid| && Names(mid)[j] == k;
        assert after[j].name == k;
        assert Names(after)[j] == k;
      } else {
        assert after[|mid|].name == k;
        assert Names(after)[|mid|] == k;
      }
    }
  }

  /** Every attribute an update appended is one the entries mention. */
  lemma SuffixMentioned(l: seq<Attr>, mid: seq<Attr>, a': seq<(string, string)>)
    requires Updated(l, mid, a')
    ensures forall i :: |l| <= i < |mid| ==> mid[i].name in Keys(a')
  {
    forall i | |l| <= i < |mid|
      ensures mid[i].name in Keys(a')
    {
      LastValueMentioned(a', mid[i].name);
    }
  }

  /** Setting the same attributes again on an updated list leaves it an
      update of the original list: this is what a node listed twice in a
      context gets. */
  lemma UpdatedAgain(l0: seq<Attr>, l1: seq<Attr>, l2: seq<Attr>, attrs: seq<(string, string)>)
    requires Updated(l0, l1, attrs) && Updated(l1, l2, attrs)
    ensures Updated(l0, l2, attrs)
  {
    forall i | 0 <= i < |l0|
      ensures l2[i] == Attr(l0[i].name, NewValue(attrs, l0[i].name, l0[i].value))
    {
      assert l1[i] == Attr(l0[i].name, NewValue(attrs, l0[i].name, l0[i].value));
    }
    NothingAppendedTwice(l0, l1, l2, attrs);
    forall i | |l0| <= i < |l2|
      ensures l2[i] == l1[i]
    {
      assert LastValue(attrs, l1[i].name) == Some(l1[i].value);
    }
  }

  /** A second pass with the same entries appends nothing: every name they
      mention is already in the list. */
  lemma NothingAppendedTwice(l0: seq<Attr>, l1: seq<Attr>, l2: seq<Attr>, attrs: seq<(string, string)>)
    requires Updated(l0, l1, attrs) && Updated(l1, l2, attrs)
    ensures |l2| == |l1|
  {
    assert forall j :: 0 <= j < |l1| ==> l2[j].name == l1[j].name;
    if |l2| > |l1| {
      NameNotRepeated(l1, l2, |l1|);
      assert false;
    }
  }

  /** With unique names, an attribute after a prefix that copies the names of
      `l1` has a name `l1` does not hold. */
  lemma NameNotRepeated(l1: seq<Attr>, l2: seq<Attr>, i: int)
    requires UniqueNames(l2) && |l1| <= i < |l2|
    requires forall j :: 0 <= j < |l1| ==> l2[j].name == l1[j].name
    ensures l2[i].name !in Names(l1)
  {
  }

  /** For the pair form, on a node: an existing attribute is rewritten in
      place and the list keeps its length; a new one is appended at the end;
      every other attribute is untouched. */
  lemma SingleAttributeUpdate(before: seq<Attr>, after: seq<Attr>, name: string, value: string)
    requires UniqueNames(before)
    requires Updated(before, after, [(name, value)])
    ensures name in Names(before) ==>
              |after| == |before| &&
              forall i :: 0 <= i < |before| ==>
                after[i] == (if before[i].name == name then Attr(name, value) else before[i])
    ensures name !in Names(before) ==> after == before + [Attr(name, value)]
  {
    var attrs := [(name, value)];
    assert forall k :: LastValue(attrs, k) == (if k == name then Some(value) else None) by {
      forall k
        ensures LastValue(attrs, k) == (if k == name then Some(value) else None)
      {
        assert attrs[..0] == [];
      }
    }
    forall i | |before| <= i < |after|
      ensures after[i] == Attr(name, value)
    {
      assert LastValue(attrs, after[i].name) == Some(after[i].value);
    }
    if name in Names(before) {
      var j :| 0 <= j < |before| && Names(before)[j] == name;
      if |after| > |before| {
        NamesDiffer(after, j, |before|);
        assert false;
      }
    } else {
      assert name in Names(after);
      var j :| 0 <= j < |after| && Names(after)[j] == name;
      if j < |before| {
        NameListed(before, j);
        assert false;
      }
      if |after| > |before| + 1 {
        NamesDiffer(after, |before|, |before| + 1);
        assert false;
      }
      forall i | 0 <= i < |before|
        ensures after[i] == before[i]
      {
        NameListed(before, i);
      }
      assert after == before + [Attr(name, value)];
    }
  }

  lemma NamesDiffer(l: seq<Attr>, i: int, k: int)
    requires UniqueNames(l) && 0 <= i < k < |l|
    ensures l[i].name != l[k].name
  {
  }

  lemma NameListed(l: seq<Attr>, i: int)
    requires 0 <= i < |l|
    ensures l[i].name in Names(l)
  {
    assert Names(l)[i] == l[i].name;
  }

  /** The inner loop of `setAttribute`: every attribute, in order, on node
      `n`; no other node changes. */
  method SetOnNode(st: Store, n: Node, attrs: seq<(string, string)>) returns (result: Store)
    requires WellFormed(st)
    ensures WellFormed(result)
    ensures AttrsOf(result, n) == ApplyAll(AttrsOf(st, n), attrs)
    ensures forall m :: m != n ==> AttrsOf(result, m) == AttrsOf(st, m)
  {
    result := st;
    for j := 0 to |attrs|
      invariant WellFormed(result)
      invariant AttrsOf(result, n) == ApplyAll(AttrsOf(st, n), attrs[..j])
      invariant forall m :: m != n ==> AttrsOf(result, m) == AttrsOf(st, m)
    {
      var (k, v) := attrs[j];
      assert attrs[..j + 1][..j] == attrs[..j];
      result := result[n := SetAttr(AttrsOf(result, n), k, v)];
    }
    assert attrs[..|attrs|] == attrs;
  }

  /** Every node of `done` has been updated with `attrs`, every other node
      is as in `st`. */
  ghost predicate FannedOut(st: Store, result: Store, done: seq<Node>, attrs: seq<(string, string)>) {
    && (forall n :: n !in done ==> AttrsOf(result, n) == AttrsOf(st, n))
    && (forall n :: n in done ==> Updated(AttrsOf(st, n), AttrsOf(result, n), attrs))
  }

  /** One more node of the outer loop. */
  lemma FanOutStep(st: Store, mid: Store, result: Store, nodes: seq<Node>, i: nat, attrs: seq<(string, string)>)
    requires i < |nodes|
    requires WellFormed(mid)
    requires FannedOut(st, mid, nodes[..i], attrs)
    requires AttrsOf(result, nodes[i]) == ApplyAll(AttrsOf(mid, nodes[i]), attrs)
    requires forall m :: m != nodes[i] ==> AttrsOf(result, m) == AttrsOf(mid, m)
    ensures FannedOut(st, result, nodes[..i + 1], attrs)
  {
    var n := nodes[i];
    var done := nodes[..i];
    assert nodes[..i + 1] == done + [n];
    forall m | m !in done + [n]
      ensures AttrsOf(result, m) == AttrsOf(st, m)
    {
      assert m != n && m !in done;
    }
    forall m | m in done + [n] && m != n
      ensures Updated(AttrsOf(st, m), AttrsOf(result, m), attrs)
    {
      assert m in done;
    }
    UpdateNode(st, mid, result, done, n, attrs);
  }

  /** The node handled in this step ends up updated, whether or not it was
      handled before. */
  lemma UpdateNode(st: Store, mid: Store, result: Store, done: seq<Node>, n: Node, attrs: seq<(string, string)>)
    requires WellFormed(mid)
    requires FannedOut(st, mid, done, attrs)
    requires AttrsOf(result, n) == ApplyAll(AttrsOf(mid, n), attrs)
    ensures Updated(AttrsOf(st, n), AttrsOf(result, n), attrs)
  {
    var start := AttrsOf(mid, n);
    assert UniqueNames(start);
    ApplyAllUpdates(start, attrs);
    if n in done {
      UpdatedAgain(AttrsOf(st, n), start, AttrsOf(result, n), attrs);
    }
  }

  /** `setAttribute(...)`: for every node of the context, in order, set every
      attribute, in order; return the same context. */
  method SetAttribute(cx: Context, st: Store, args: AttrArgs) returns (r: Context, result: Store)
    requires WellFormed(st)
    ensures r == cx
    ensures WellFormed(result)
    ensures forall n :: n !in cx.nodes ==> AttrsOf(result, n) == AttrsOf(st, n)
    ensures forall n :: n in cx.nodes ==> Updated(AttrsOf(st, n), AttrsOf(result, n), Normalize(args))
  {
    var attrs := Normalize(args);
    result := st;
    for i := 0 to |cx.nodes|
      invariant WellFormed(result)
      invariant FannedOut(st, result, cx.nodes[..i], attrs)
    {
      ghost var mid := result;
      result := SetOnNode(result, cx.nodes[i], attrs);
      FanOutStep(st, mid, result, cx.nodes, i, attrs);
    }
    assert cx.nodes[..|cx.nodes|] == cx.nodes;
    r := cx;
  }

  /** The array form on an element without attributes, as in
      `setAttribute(['attr1' => v1, 'attr2' => v2])`: the attributes appear
      in argument order, each with its value. */
  lemma ArrayFormInOrder(x: string, y: string, v1: string, v2: string, after: seq<Attr>)
    requires x != y
    requires Updated([], after, [(x, v1), (y, v2)])
    ensures after == [Attr(x, v1), Attr(y, v2)]
  {
    var attrs := [(x, v1), (y, v2)];
    assert attrs[..1] == [(x, v1)] && [(x, v1)][..0] == [];
    assert Keys(attrs) == [x, y];
    assert LastValue(attrs, x) == Some(v1) && LastValue(attrs, y) == Some(v2);
    forall n
      ensures LastValue(attrs, n) == (if n == y then Some(v2) else if n == x then Some(v1) else None)
    {
      assert LastValue(attrs, n) == (if n == y then Some(v2) else LastValue([(x, v1)], n));
      assert LastValue([(x, v1)], n) == (if n == x then Some(v1) else LastValue([], n));
    }
    forall i | 0 <= i < |after|
      ensures after[i] == Attr(x, v1) || after[i] == Attr(y, v2)
    {
      assert LastValue(attrs, after[i].name) == Some(after[i].value);
    }
    assert x in Names(after) && y in Names(after);
    var ix := IndexOf(Names(after), x);
    var iy := IndexOf(Names(after), y);
    if |after| > 2 {
      NamesDiffer(after, 0, 1);
      NamesDiffer(after, 0, 2);
      NamesDiffer(after, 1, 2);
      assert false;
    }
    assert IndexOf(Keys(attrs), x) == 0 && IndexOf(Keys(attrs), y) == 1;
  }

  /** Rewriting the first of two attributes does not move it behind the
      second. */
  lemma RewriteKeepsOrder(x: string, y: string, v1: string, v2: string, v3: string)
    requires x != y
    ensures Names(SetAttr(SetAttr(SetAttr([], x, v1), y, v2), x, v3)) == [x, y]
  {
    var l1 := SetAttr([], x, v1);
    assert Names(l1) == [x] by {
      NamesAfterSet([], x, v1);
    }
    var l2 := SetAttr(l1, y, v2);
    assert Names(l2) == [x, y] by {
      NamesAfterSet(l1, y, v2);
    }
    NamesAfterSet(l2, x, v3);
  }

  /** The names after one `SetAttr`: unchanged for an existing name, the new
      name appended otherwise. */
  lemma NamesAfterSet(l: seq<Attr>, name: string, value: string)
    requires UniqueNames(l)
    ensures name in Names(l) ==> Names(SetAttr(l, name, value)) == Names(l)
    ensures name !in Names(l) ==> Names(SetAttr(l, name, value)) == Names(l) + [name]
  {
    var r := SetAttr(l, name, value);
    if name in Names(l) {
      forall i | 0 <= i < |l|
        ensures Names(r)[i] == Names(l)[i]
      {
      }
    } else {
      forall i | 0 <= i < |r|
        ensures Names(r)[i] == (Names(l) + [name])[i]
      {
        if i < |l| {
          assert r[i] == l[i];
        }
      }
    }
  }
}
