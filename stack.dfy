/** The part of .NET's `Stack<T>` the searches use: push, pop, copy out and copy in. */
module Collections {

  /** `s` in the opposite order. */
  function Reverse<T>(s: seq<T>): (r: seq<T>)
    ensures |r| == |s|
  {
    if s == [] then [] else [s[|s| - 1]] + Reverse(s[..|s| - 1])
  }

  lemma {:induction false} ReverseAt<T>(s: seq<T>, k: nat)
    requires k < |s|
    ensures Reverse(s)[k] == s[|s| - 1 - k]
  {
    if k > 0 {
      ReverseAt(s[..|s| - 1], k - 1);
    }
  }

  /** Reversing twice gives back the original order. */
  lemma {:induction false} ReverseReverse<T>(s: seq<T>)
    ensures Reverse(Reverse(s)) == s
  {
    forall k | 0 <= k < |s| ensures Reverse(Reverse(s))[k] == s[k] {
      ReverseAt(Reverse(s), k);
      ReverseAt(s, |s| - 1 - k);
    }
  }

  lemma ReverseSnoc<T>(s: seq<T>, x: T)
    ensures Reverse(s + [x]) == [x] + Reverse(s)
  {
    assert (s + [x])[..|s|] == s;
  }

  class Stack<T> {
    /** The elements from the bottom (first pushed) to the top. */
    var items: seq<T>

    constructor ()
      ensures items == []
    {
      items := [];
    }

    /** `new Stack<T>(collection)`: pushes the elements of `a` in order, so `a`'s last is on top. */
    constructor FromArray(a: seq<T>)
      ensures items == a
    {
      items := a;
    }

    method Push(x: T)
      modifies this
      ensures items == old(items) + [x]
    {
      items := items + [x];
    }

    method Pop() returns (x: T)
      requires items != []
      modifies this
      ensures x == old(items)[|old(items)| - 1]
      ensures items == old(items)[..|old(items)| - 1]
    {
      x := items[|items| - 1];
      items := items[..|items| - 1];
    }

    /** `ToArray`: the elements in pop order, top first. */
    function ToArray(): (a: seq<T>)
      reads this
      ensures |a| == |items|
      ensures forall k :: 0 <= k < |a| ==> a[k] == items[|items| - 1 - k]
    {
      var r := Reverse(items);
      assert forall k :: 0 <= k < |r| ==> r[k] == items[|items| - 1 - k] by {
        forall k | 0 <= k < |r| ensures r[k] == items[|items| - 1 - k] {
          ReverseAt(items, k);
        }
      }
      r
    }
  }
}
