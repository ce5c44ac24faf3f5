/**
 Identity deduplication of raw query results (`filterQueryResults`).

 Running an ascending or absolute XPath from several sibling nodes returns the
 same physical node once per starting node; the context collapses those hits
 into one list that keeps every node's first occurrence, in the order in which
 the nodes were first seen.
 */
module Unique {
  import opened Base

  /** `r` lists the nodes of `s` in the order in which `s` first mentions them. */
  predicate FirstSeenOrder(r: seq<Node>, s: seq<Node>) {
    forall i, j :: 0 <= i < j < |r| ==> IndexOf(s, r[i]) < IndexOf(s, r[j])
  }

  /** Reference definition: scan left to right and keep a node only if it has
      not been kept already. */
  function Dedup(s: seq<Node>): (r: seq<Node>)
    ensures NoDup(r)
    ensures forall x :: x in r <==> x in s
    ensures FirstSeenOrder(r, s)
    ensures |r| <= |s|
  {
    if |s| == 0 then []
    else
      var p := s[..|s| - 1];
      var y := s[|s| - 1];
      var d := Dedup(p);
      assert s == p + [y];
      IndexOfAppend(p, y);
      if y in d then d else d + [y]
  }

  /** `FluidContext`'s algorithm: for every result, scan the list built so far
      with an identity comparison and append the result when no match was
      found. */
  method FilterQueryResults(results: seq<Node>) returns (unique: seq<Node>)
    ensures unique == Dedup(results)
    ensures NoDup(unique)
    ensures forall x :: x in unique <==> x in results
  {
    unique := [];
    for i := 0 to |results|
      invariant unique == Dedup(results[..i])
    {
      var r := results[i];
      var found := Contains(unique, r);
      assert results[..i + 1] == results[..i] + [r];
      if !found {
        unique := unique + [r];
      }
    }
    assert results[..|results|] == results;
  }

  /** The inner loop: compare `r` by identity with every element, without
      stopping at the first match. */
  method Contains(unique: seq<Node>, r: Node) returns (found: bool)
    ensures found <==> r in unique
  {
    found := false;
    for j := 0 to |unique|
      invariant found <==> r in unique[..j]
    {
      found := (r == unique[j]) || found;
      assert unique[..j + 1] == unique[..j] + [unique[j]];
    }
    assert unique[..|unique|] == unique;
  }

  /** A duplicate-free list is returned unchanged. */
  lemma {:induction false} DedupOfUnique(s: seq<Node>)
    requires NoDup(s)
    ensures Dedup(s) == s
  {
    if |s| > 0 {
      var p := s[..|s| - 1];
      var y := s[|s| - 1];
      NoDupSplitLast(s);
      DedupOfUnique(p);
      calc {
        Dedup(s);
        Dedup(p) + [y];
        p + [y];
        s;
      }
    }
  }

  /** Removing the last element of a duplicate-free list leaves a
      duplicate-free list that does not contain that element. */
  lemma NoDupSplitLast(s: seq<Node>)
    requires NoDup(s) && |s| > 0
    ensures NoDup(s[..|s| - 1])
    ensures s[|s| - 1] !in s[..|s| - 1]
  {
    var p := s[..|s| - 1];
    forall i, j | 0 <= i < j < |p|
      ensures p[i] != p[j]
    {
      assert p[i] == s[i] && p[j] == s[j];
    }
    forall i | 0 <= i < |p|
      ensures p[i] != s[|s| - 1]
    {
      assert p[i] == s[i];
    }
  }

  /** Deduplicating twice is the same as deduplicating once. */
  lemma {:induction false} DedupIdempotent(s: seq<Node>)
    ensures Dedup(Dedup(s)) == Dedup(s)
  {
    DedupOfUnique(Dedup(s));
  }

  /** The three properties `NoDup`, same members and first-seen order single
      out exactly one list: any list that has them is `Dedup(s)`. */
  lemma DedupCharacterised(s: seq<Node>, r: seq<Node>)
    requires NoDup(r)
    requires forall x :: x in r <==> x in s
    requires FirstSeenOrder(r, s)
    ensures r == Dedup(s)
  {
    SameOrderedMembers(s, r, Dedup(s));
  }

  /** Two duplicate-free lists with the same members that are both strictly
      ordered by first index in `s` are equal. */
  lemma {:induction false} SameOrderedMembers(s: seq<Node>, a: seq<Node>, b: seq<Node>)
    requires NoDup(a) && NoDup(b)
    requires forall x :: x in a <==> x in b
    requires FirstSeenOrder(a, s) && FirstSeenOrder(b, s)
    ensures a == b
    decreases |a|
  {
    assert |b| == 0 || b[0] in b;
    if |a| > 0 {
      SameHead(s, a, b);
      DropHead(s, a);
      DropHead(s, b);
      TailMembers(a, b);
      SameOrderedMembers(s, a[1..], b[1..]);
      assert a == [a[0]] + a[1..] && b == [b[0]] + b[1..];
    }
  }

  /** Both lists start with the member first seen earliest in `s`. */
  lemma SameHead(s: seq<Node>, a: seq<Node>, b: seq<Node>)
    requires |a| > 0
    requires forall x :: x in a <==> x in b
    requires FirstSeenOrder(a, s) && FirstSeenOrder(b, s)
    ensures |b| > 0 && b[0] == a[0]
  {
    assert a[0] in a;
    var j :| 0 <= j < |b| && b[j] == a[0];
    assert b[0] in b;
    var i :| 0 <= i < |a| && a[i] == b[0];
  }

  /** Dropping the head keeps a list duplicate-free and ordered. */
  lemma DropHead(s: seq<Node>, a: seq<Node>)
    requires |a| > 0 && NoDup(a) && FirstSeenOrder(a, s)
    ensures NoDup(a[1..]) && FirstSeenOrder(a[1..], s)
    ensures a[0] !in a[1..]
  {
    var t := a[1..];
    forall i, j | 0 <= i < j < |t|
      ensures t[i] != t[j] && IndexOf(s, t[i]) < IndexOf(s, t[j])
    {
      assert t[i] == a[i + 1] && t[j] == a[j + 1];
    }
    forall i | 0 <= i < |t|
      ensures t[i] != a[0]
    {
      assert t[i] == a[i + 1];
    }
  }

  /** Equal heads and equal members leave tails with equal members. */
  lemma TailMembers(a: seq<Node>, b: seq<Node>)
    requires |a| > 0 && |b| > 0 && a[0] == b[0]
    requires a[0] !in a[1..] && b[0] !in b[1..]
    requires forall x :: x in a <==> x in b
    ensures forall x :: x in a[1..] <==> x in b[1..]
  {
    assert a == [a[0]] + a[1..] && b == [b[0]] + b[1..];
    forall x
      ensures x in a[1..] <==> x in b[1..]
    {
      assert x in a <==> x == a[0] || x in a[1..];
      assert x in b <==> x == b[0] || x in b[1..];
    }
  }
}
