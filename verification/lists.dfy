/** The three operations of the .NET generic list that the plugin relies on:
    `Find` (first element matching a predicate, or null), `Remove` (drop the
    first element equal to a given one) and LINQ `Where` (order-preserving
    filter). */
module Lists {
  import opened Wrappers

  /** Position of the first element satisfying `p`; `None` plays the role of
      the null that `List<T>.Find` returns when nothing matches. */
  function FindFirst<T>(s: seq<T>, p: T -> bool): (r: Option<nat>)
    ensures r.Some? ==> r.value < |s| && p(s[r.value])
    ensures r.Some? ==> forall j :: 0 <= j < r.value ==> !p(s[j])
    ensures r.None? <==> forall j :: 0 <= j < |s| ==> !p(s[j])
  {
    if |s| == 0 then None
    else if p(s[0]) then Some(0)
    else
      match FindFirst(s[1..], p)
      case None => None
      case Some(i) => Some(i + 1)
  }

  /** `List<T>.Remove(x)`: the first element equal to `x` is dropped, and the
      list is unchanged when there is none. */
  function RemoveValue<T(==)>(s: seq<T>, x: T): (r: seq<T>)
    ensures x !in s ==> r == s
    ensures x in s ==> |r| == |s| - 1
  {
    if |s| == 0 then s
    else if s[0] == x then s[1..]
    else [s[0]] + RemoveValue(s[1..], x)
  }

  /** What `Remove` drops is exactly the first occurrence: the list closes up
      around position `i`. */
  lemma {:induction false} RemoveValueAt<T>(s: seq<T>, x: T, i: nat)
    requires i < |s| && s[i] == x && x !in s[..i]
    ensures RemoveValue(s, x) == s[..i] + s[i + 1..]
  {
    if i > 0 {
      assert s[0] in s[..i];
      assert s[1..][i - 1] == x && s[1..][..i - 1] == s[1..i];
      RemoveValueAt(s[1..], x, i - 1);
      assert s[..i] == [s[0]] + s[1..i];
      assert s[1..][i..] == s[i + 1..];
    }
  }

  /** LINQ `Where(p).ToList()`: the elements satisfying `p`, in order. */
  function Filter<T>(s: seq<T>, p: T -> bool): (r: seq<T>)
    ensures forall i :: 0 <= i < |r| ==> r[i] in s && p(r[i])
    ensures forall i :: 0 <= i < |s| && p(s[i]) ==> s[i] in r
  {
    if |s| == 0 then []
    else
      assert s == [s[0]] + s[1..];
      (if p(s[0]) then [s[0]] else []) + Filter(s[1..], p)
  }

  /** Filtering a list with a known head. */
  lemma FilterCons<T>(x: T, rest: seq<T>, p: T -> bool)
    ensures multiset(Filter([x] + rest, p)) == (if p(x) then multiset{x} else multiset{}) + multiset(Filter(rest, p))
  {
    var s := [x] + rest;
    assert s[0] == x && s[1..] == rest;
    if p(x) {
      assert Filter(s, p) == [x] + Filter(rest, p);
    } else {
      assert Filter(s, p) == Filter(rest, p);
    }
  }

  /** Filtering by a predicate and by its negation splits a list: the two
      parts together hold every element exactly as often as the list does. */
  lemma {:induction false} FilterPartition<T>(s: seq<T>, p: T -> bool, q: T -> bool)
    requires forall x {:trigger q(x)} :: q(x) == !p(x)
    ensures multiset(Filter(s, p)) + multiset(Filter(s, q)) == multiset(s)
  {
    if |s| > 0 {
      var x, rest := s[0], s[1..];
      FilterPartition(rest, p, q);
      assert s == [x] + rest;
      FilterCons(x, rest, p);
      FilterCons(x, rest, q);
      assert q(x) == !p(x);
    }
  }
}
