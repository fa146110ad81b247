/** Small facts about sequences, kept apart so that each proof that uses one stays small. */
module Sequences {

  lemma AppendAssociates<T>(a: seq<T>, b: seq<T>, c: seq<T>)
    ensures a + (b + c) == a + b + c
  {
  }

  lemma ConcatTail<T>(a: seq<T>, b: seq<T>)
    requires a != []
    ensures (a + b)[0] == a[0] && (a + b)[1..] == a[1..] + b
  {
  }

  lemma SnocFront<T>(a: seq<T>, x: T)
    ensures (a + [x])[..|a|] == a && (a + [x])[|a|] == x
  {
  }

  lemma HeadTail<T>(a: seq<T>)
    requires a != []
    ensures a == [a[0]] + a[1..]
  {
  }

  function Concatenated<T>(parts: seq<seq<T>>): seq<T> {
    if parts == [] then [] else parts[0] + Concatenated(parts[1..])
  }

  lemma ConcatenatedCons<T>(head: seq<T>, parts: seq<seq<T>>)
    ensures Concatenated([head] + parts) == head + Concatenated(parts)
  {
    ConcatTail([head], parts);
  }

  lemma {:induction false} ConcatenatedSnoc<T>(parts: seq<seq<T>>, last: seq<T>)
    ensures Concatenated(parts + [last]) == Concatenated(parts) + last
  {
    if parts == [] {
      assert parts + [last] == [last] && [last][1..] == [];
      assert last + [] == last && [] + last == last;
    } else {
      ConcatTail(parts, [last]);
      ConcatenatedSnoc(parts[1..], last);
      AppendAssociates(parts[0], Concatenated(parts[1..]), last);
    }
  }

  function Reversed<T>(s: seq<T>): (r: seq<T>)
    ensures |r| == |s|
    ensures forall k :: 0 <= k < |s| ==> r[k] == s[|s| - 1 - k]
  {
    if s == [] then [] else Reversed(s[1..]) + [s[0]]
  }
}
