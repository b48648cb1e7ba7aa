/** The JavaScript array operations the joins are built from: `find` by id,
    `xs || []` for a list that has not arrived, `filter(r => r !== null)` after
    a `map` whose callback may return null, `filter` by a predicate and `map`.
 */
module Lookup {

  datatype Option<+T> = None | Some(value: T)

  /** `xs || []`: a list that is still null reads as the empty list. */
  function OrEmpty<T>(xs: Option<seq<T>>): (r: seq<T>)
    ensures xs.None? ==> r == []
    ensures xs.Some? ==> r == xs.value
  {
    if xs.Some? then xs.value else []
  }

  /** Some element of `xs` carries the id `id`. */
  ghost predicate HasId<T>(xs: seq<T>, key: T -> string, id: string)
  {
    exists i :: 0 <= i < |xs| && key(xs[i]) == id
  }

  /** `x` is the element `xs.find(e => key(e) === id)` returns: the first one carrying `id`. */
  ghost predicate IsFirstWithId<T>(xs: seq<T>, key: T -> string, id: string, x: T)
  {
    exists i :: 0 <= i < |xs| && xs[i] == x && key(x) == id && forall j :: 0 <= j < i ==> key(xs[j]) != id
  }

  /** The position of the first element carrying `id`, if any. */
  function FirstIndexWithId<T>(xs: seq<T>, key: T -> string, id: string): (r: Option<nat>)
    ensures r.Some? ==> r.value < |xs| && key(xs[r.value]) == id
    ensures r.Some? ==> forall j :: 0 <= j < r.value ==> key(xs[j]) != id
    ensures r.None? ==> forall j :: 0 <= j < |xs| ==> key(xs[j]) != id
  {
    if xs == [] then None
    else if key(xs[0]) == id then Some(0)
    else match FirstIndexWithId(xs[1..], key, id)
      case None => None
      case Some(i) => Some(i + 1)
  }

  /** `xs.find(e => key(e) === id)`: `None` stands for `undefined`. */
  function FindById<T>(xs: seq<T>, key: T -> string, id: string): (r: Option<T>)
    ensures r.Some? <==> HasId(xs, key, id)
    ensures r.Some? ==> IsFirstWithId(xs, key, id, r.value)
  {
    match FirstIndexWithId(xs, key, id)
    case None => None
    case Some(i) => Some(xs[i])
  }

  /** `find` has one answer: two elements that are both "the first with `id`" are the same. */
  lemma FirstWithIdUnique<T>(xs: seq<T>, key: T -> string, id: string, x: T, y: T)
    requires IsFirstWithId(xs, key, id, x) && IsFirstWithId(xs, key, id, y)
    ensures x == y
  {
  }

  /** No two elements of `xs` carry the same id. */
  ghost predicate UniqueIds<T>(xs: seq<T>, key: T -> string)
  {
    forall i, j :: 0 <= i < j < |xs| ==> key(xs[i]) != key(xs[j])
  }

  /** `xs.reduce((acc, x) => ({...acc, [key(x)]: x}), {})`: every element stored
      under its id, a later element overwriting an earlier one with the same id. */
  function KeyedById<T>(xs: seq<T>, key: T -> string): (r: map<string, T>)
    ensures forall k :: k in r <==> exists i :: 0 <= i < |xs| && key(xs[i]) == k
    ensures forall k :: k in r ==> key(r[k]) == k && r[k] in xs
  {
    if xs == [] then map[]
    else KeyedById(xs[..|xs| - 1], key)[key(xs[|xs| - 1]) := xs[|xs| - 1]]
  }

  /** With distinct ids, the entry under an element's id is that element. */
  lemma KeyedByIdFindsEach<T>(xs: seq<T>, key: T -> string, i: nat)
    requires UniqueIds(xs, key) && i < |xs|
    ensures key(xs[i]) in KeyedById(xs, key) && KeyedById(xs, key)[key(xs[i])] == xs[i]
  {
    var m := KeyedById(xs, key);
    var j :| 0 <= j < |xs| && xs[j] == m[key(xs[i])];
    assert key(xs[j]) == key(xs[i]);
  }

  /** `.filter(r => r !== null)`: the present values, in their order. */
  function Somes<T(!new)>(xs: seq<Option<T>>): (r: seq<T>)
    ensures |r| <= |xs|
    ensures |r| == |xs| <==> forall i :: 0 <= i < |xs| ==> xs[i].Some?
    ensures forall x :: x in r <==> Some(x) in xs
  {
    if xs == [] then []
    else (if xs[0].Some? then [xs[0].value] else []) + Somes(xs[1..])
  }

  /** Nothing is left of a list of nulls. */
  lemma {:induction false} SomesOfNones<T(!new)>(xs: seq<Option<T>>)
    requires forall i :: 0 <= i < |xs| ==> xs[i].None?
    ensures Somes(xs) == []
  {
    if xs != [] {
      SomesOfNones(xs[1..]);
    }
  }

  lemma {:induction false} SomesAppend<T(!new)>(a: seq<Option<T>>, b: seq<Option<T>>)
    ensures Somes(a + b) == Somes(a) + Somes(b)
  {
    if a == [] {
      assert a + b == b;
    } else {
      assert (a + b)[1..] == a[1..] + b;
      SomesAppend(a[1..], b);
    }
  }

  /** `.filter(p)`: the elements satisfying `p`, in their order. */
  function Filter<T(!new)>(xs: seq<T>, p: T -> bool): (r: seq<T>)
    ensures |r| <= |xs|
    ensures forall x :: x in r <==> x in xs && p(x)
  {
    if xs == [] then []
    else (if p(xs[0]) then [xs[0]] else []) + Filter(xs[1..], p)
  }

  lemma {:induction false} FilterAppend<T(!new)>(a: seq<T>, b: seq<T>, p: T -> bool)
    ensures Filter(a + b, p) == Filter(a, p) + Filter(b, p)
  {
    if a == [] {
      assert a + b == b;
    } else {
      assert (a + b)[1..] == a[1..] + b;
      FilterAppend(a[1..], b, p);
    }
  }

  /** `.map(f)`. */
  function MapSeq<T, U>(xs: seq<T>, f: T -> U): (r: seq<U>)
    ensures |r| == |xs|
    ensures forall i :: 0 <= i < |xs| ==> r[i] == f(xs[i])
  {
    if xs == [] then [] else [f(xs[0])] + MapSeq(xs[1..], f)
  }

  lemma MapSeqAppend<T, U>(a: seq<T>, b: seq<T>, f: T -> U)
    ensures MapSeq(a + b, f) == MapSeq(a, f) + MapSeq(b, f)
  {
  }
}
