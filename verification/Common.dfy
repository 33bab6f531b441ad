/** The Option type shared by the models. */
module Wrappers {
  datatype Option<+T> = None | Some(value: T) {
    predicate IsFailure() { None? }

    function PropagateFailure<U>(): Option<U>
      requires None?
    {
      None
    }

    function Extract(): T
      requires Some?
    {
      value
    }
  }
}

/** Applying a partial reader to every element of a list. */
module Traversal {
  import opened Wrappers

  function Traverse<A, B>(read: A -> Option<B>, xs: seq<A>): (ys: Option<seq<B>>)
    ensures ys.Some? ==> |ys.value| == |xs|
  {
    if xs == [] then Some([])
    else
      var y :- read(xs[0]);
      var rest :- Traverse(read, xs[1..]);
      Some([y] + rest)
  }

  /** If every element reads as its image, the list reads as the list of images. */
  lemma {:induction false} TraverseAll<A, B>(read: A -> Option<B>, xs: seq<A>, ys: seq<B>)
    requires |xs| == |ys|
    requires forall i :: 0 <= i < |xs| ==> read(xs[i]) == Some(ys[i])
    ensures Traverse(read, xs) == Some(ys)
  {
    if xs != [] {
      TraverseAll(read, xs[1..], ys[1..]);
      assert ys == [ys[0]] + ys[1..];
    }
  }

  /** One unreadable element makes the whole list unreadable. */
  lemma {:induction false} TraverseNone<A, B>(read: A -> Option<B>, xs: seq<A>, i: nat)
    requires i < |xs| && read(xs[i]).None?
    ensures Traverse(read, xs).None?
  {
    if i > 0 {
      TraverseNone(read, xs[1..], i - 1);
    }
  }
}

/** Smallest and largest of a non-empty list of integers. */
module Extremes {
  function MinOf(xs: seq<int>): int
    requires xs != []
  {
    if |xs| == 1 then xs[0]
    else
      var rest := MinOf(xs[1..]);
      if xs[0] <= rest then xs[0] else rest
  }

  function MaxOf(xs: seq<int>): int
    requires xs != []
  {
    if |xs| == 1 then xs[0]
    else
      var rest := MaxOf(xs[1..]);
      if xs[0] >= rest then xs[0] else rest
  }

  lemma {:induction false} ExtremesBound(xs: seq<int>)
    requires xs != []
    ensures MinOf(xs) in xs && MaxOf(xs) in xs && MinOf(xs) <= MaxOf(xs)
    ensures forall x :: x in xs ==> MinOf(xs) <= x <= MaxOf(xs)
  {
    if |xs| > 1 {
      ExtremesBound(xs[1..]);
      assert xs == [xs[0]] + xs[1..];
    }
  }
}

/** strings.Join of Go. */
module Strings {
  function Join(parts: seq<string>, separator: string): string {
    if parts == [] then ""
    else if |parts| == 1 then parts[0]
    else parts[0] + separator + Join(parts[1..], separator)
  }
}

/** Concatenating a list of lists. */
module Sequences {
  function FlattenAll<T>(lists: seq<seq<T>>): seq<T> {
    if lists == [] then [] else lists[0] + FlattenAll(lists[1..])
  }

  lemma {:induction false} FlattenSnoc<T>(lists: seq<seq<T>>, last: seq<T>)
    ensures FlattenAll(lists + [last]) == FlattenAll(lists) + last
  {
    if lists == [] {
      assert (lists + [last])[1..] == [];
    } else {
      assert (lists + [last])[1..] == lists[1..] + [last];
      FlattenSnoc(lists[1..], last);
    }
  }

  lemma FlattenNext<T>(lists: seq<seq<T>>, k: nat, before: seq<T>)
    requires k < |lists|
    ensures FlattenAll(lists[..k + 1]) == FlattenAll(lists[..k]) + lists[k]
    ensures before + FlattenAll(lists[..k + 1]) == before + FlattenAll(lists[..k]) + lists[k]
  {
    assert lists[..k + 1] == lists[..k] + [lists[k]];
    FlattenSnoc(lists[..k], lists[k]);
  }
}
