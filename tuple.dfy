/**
 * `dts::Tuple`: a heterogeneous fixed-size container built as a head and a
 * tail tuple, with recursive positional access `Get<Index>`, the element
 * count `TupleSize`, and the compile-time index list `MakeIndexSequence<N>`
 * that `Apply` uses to spread a tuple into a call. Element types are
 * carried by the element values themselves (instantiate `T` with a tagged
 * value), so one recursive datatype stands for every `Tuple<Args...>`.
 */
module Tuples {

  /** `Tuple<>` is `Nil`; `Tuple<Head, Tail...>` is `Cons(head, tail)`. */
  datatype Tuple<T> = Nil | Cons(head: T, tail: Tuple<T>)

  /** `TupleSize<Tuple<...>>::value`: 0 for the empty tuple, else one more than the tail's. */
  function Size<T>(t: Tuple<T>): (n: nat)
    ensures n == 0 <==> t.Nil?
  {
    match t
    case Nil => 0
    case Cons(_, tail) => 1 + Size(tail)
  }

  /** The elements of `t`, front to back: the reference reading of a tuple as a sequence. */
  function Elements<T>(t: Tuple<T>): (s: seq<T>)
    ensures |s| == Size(t)
  {
    match t
    case Nil => []
    case Cons(h, tail) => [h] + Elements(tail)
  }

  /**
   * `Get<Index>(tuple)` (all three overloads): the head at index 0, else
   * `Get<Index - 1>` of the tail.
   */
  function Get<T>(t: Tuple<T>, index: nat): (x: T)
    requires index < Size(t)
    ensures x in Elements(t)
  {
    if index == 0 then t.head else Get(t.tail, index - 1)
  }

  /**
   * Assigning `v` through the reference `Get<index>` returns: the tuple with
   * element `index` replaced.
   */
  function Set<T>(t: Tuple<T>, index: nat, v: T): (r: Tuple<T>)
    requires index < Size(t)
    ensures Size(r) == Size(t)
  {
    if index == 0 then Cons(v, t.tail) else Cons(t.head, Set(t.tail, index - 1, v))
  }

  /** `MakeTuple(args...)`: the tuple whose elements are `xs`, in order. */
  function MakeTuple<T>(xs: seq<T>): (t: Tuple<T>)
    ensures Size(t) == |xs|
  {
    if xs == [] then Nil else Cons(xs[0], MakeTuple(xs[1..]))
  }

  /**
   * `MakeIndexSequenceImpl<N, Ind...>`: prepends `N - 1`, then recurses on
   * `N - 1`, until `N` is 0; the accumulated indices follow `0 .. N - 1`.
   */
  function MakeIndexSequenceImpl(n: nat, acc: seq<nat>): (r: seq<nat>)
    ensures |r| == n + |acc|
    ensures forall k :: 0 <= k < n ==> r[k] == k
    ensures r[n..] == acc
  {
    if n == 0 then acc else MakeIndexSequenceImpl(n - 1, [n - 1] + acc)
  }

  /** `MakeIndexSequence<N>`: the indices 0, 1, ..., N - 1 in increasing order. */
  function MakeIndexSequence(n: nat): (r: seq<nat>)
    ensures |r| == n
    ensures forall k :: 0 <= k < n ==> r[k] == k
  {
    MakeIndexSequenceImpl(n, [])
  }

  /**
   * Memberwise copy or move assignment (`tail = other.tail; head = other.head`,
   * recursively, for tuples of the same type): every element of `src` is
   * carried over, so assigning a tuple to itself leaves it as it was.
   */
  function Assign<T>(dst: Tuple<T>, src: Tuple<T>): (r: Tuple<T>)
    requires Size(dst) == Size(src)
    ensures r == src
  {
    match src
    case Nil => dst
    case Cons(h, tail) => Cons(h, Assign(dst.tail, tail))
  }

  /** Positional access reads the sequence of elements. */
  lemma {:induction false} GetIsElement<T>(t: Tuple<T>, index: nat)
    requires index < Size(t)
    ensures Get(t, index) == Elements(t)[index]
  {
    if index > 0 {
      GetIsElement(t.tail, index - 1);
    }
  }

  /** `Get<i>(MakeTuple(x0, ..., xn))` is `xi`. */
  lemma {:induction false} GetMakeTuple<T>(xs: seq<T>, index: nat)
    requires index < |xs|
    ensures Get(MakeTuple(xs), index) == xs[index]
  {
    if index > 0 {
      GetMakeTuple(xs[1..], index - 1);
    }
  }

  /** Building a tuple from a sequence and reading its elements gives the sequence back. */
  lemma {:induction false} ElementsOfMakeTuple<T>(xs: seq<T>)
    ensures Elements(MakeTuple(xs)) == xs
  {
    if xs != [] {
      ElementsOfMakeTuple(xs[1..]);
    }
  }

  /** Every tuple is `MakeTuple` of its elements. */
  lemma {:induction false} MakeTupleOfElements<T>(t: Tuple<T>)
    ensures MakeTuple(Elements(t)) == t
  {
    match t
    case Nil =>
    case Cons(h, tail) =>
      MakeTupleOfElements(tail);
      assert ([h] + Elements(tail))[1..] == Elements(tail);
  }

  /** Writing through `Get<index>` changes element `index` and no other. */
  lemma {:induction false} SetGet<T>(t: Tuple<T>, index: nat, v: T, j: nat)
    requires index < Size(t) && j < Size(t)
    ensures Get(Set(t, index, v), j) == if j == index then v else Get(t, j)
  {
    match t
    case Cons(h, tail) =>
      if index == 0 {
        assert Set(t, index, v) == Cons(v, tail);
      } else {
        assert Set(t, index, v) == Cons(h, Set(tail, index - 1, v));
        if j > 0 {
          SetGet(tail, index - 1, v, j - 1);
        }
      }
  }

  /**
   * What `Apply` hands to the callable, `Get<Indexes>(tuple)...` over
   * `MakeIndexSequence<TupleSize>`, is the argument list in its original order.
   */
  lemma SpreadInOrder<T>(xs: seq<T>)
    ensures forall k :: 0 <= k < |xs| ==>
      Get(MakeTuple(xs), MakeIndexSequence(Size(MakeTuple(xs)))[k]) == xs[k]
  {
    forall k | 0 <= k < |xs|
      ensures Get(MakeTuple(xs), MakeIndexSequence(Size(MakeTuple(xs)))[k]) == xs[k]
    {
      GetMakeTuple(xs, k);
    }
  }
}
