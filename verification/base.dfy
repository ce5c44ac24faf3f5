/**
 Shared vocabulary of the model: node handles, the optional and failure
 wrappers that stand for PHP's `null` and thrown exceptions, and two small
 facts about sequences that every other module uses.
 */
module Base {

  /** A DOM node handle. Nodes are compared by identity only (PHP's `===` on
      objects), so an opaque number is all the model needs. */
  type Node = nat

  /** PHP `null` versus a present value. */
  datatype Option<+T> = None | Some(value: T)

  /** A call that either returns a value or throws. */
  datatype Result<+T, +E> = Success(value: T) | Failure(error: E)

  /** The exceptions the context layer throws itself. */
  datatype Error =
    | NodeTypeNotRecognized   // a constructor element is not a DOMNode
    | SettingNotAllowed       // indexed assignment into a context

  /** No element occurs twice. */
  predicate NoDup<T(==)>(s: seq<T>) {
    forall i, j :: 0 <= i < j < |s| ==> s[i] != s[j]
  }

  /** Position of the first occurrence of `x` in `s`, or `|s|` when absent. */
  function IndexOf<T(==)>(s: seq<T>, x: T): (i: nat)
    ensures i <= |s|
    ensures i < |s| <==> x in s
    ensures i < |s| ==> s[i] == x
    ensures x !in s[..i]
  {
    if |s| == 0 then 0
    else if s[0] == x then 0
    else
      var k := IndexOf(s[1..], x);
      assert s[..k + 1] == [s[0]] + s[1..][..k];
      k + 1
  }

  /** Appending an element moves no existing first occurrence, and a new
      element is first seen at the end. */
  lemma IndexOfAppend<T>(p: seq<T>, y: T)
    ensures forall x :: x in p ==> IndexOf(p + [y], x) == IndexOf(p, x)
    ensures y !in p ==> IndexOf(p + [y], y) == |p|
  {
    forall x | x in p
      ensures IndexOf(p + [y], x) == IndexOf(p, x)
    {
      var i := IndexOf(p, x);
      var j := IndexOf(p + [y], x);
      assert (p + [y])[i] == x;
      assert p[..i] == (p + [y])[..i];
    }
    if y !in p {
      var j := IndexOf(p + [y], y);
      assert (p + [y])[|p|] == y;
    }
  }
}
