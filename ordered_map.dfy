/**
 * Insertion-ordered dictionaries, as Python's `dict` behaves: iteration
 * follows the order in which keys were first inserted, and assigning to a
 * key that is already present keeps its position.
 */
module OrderedMaps {

  /** No element occurs twice. */
  predicate Distinct<T(==)>(xs: seq<T>) {
    forall i, j :: 0 <= i < j < |xs| ==> xs[i] != xs[j]
  }

  /** `keys` is the iteration order, `values` the content. */
  datatype OrderedMap<K(==,!new), V> = OrderedMap(keys: seq<K>, values: map<K, V>) {

    ghost predicate Valid() {
      && Distinct(keys)
      && (forall k :: k in values <==> k in keys)
    }

    /** `d[k] = v`: a new key goes to the end of the order, an old one stays where it is. */
    function Put(k: K, v: V): (r: OrderedMap<K, V>)
      requires Valid()
      ensures r.Valid()
      ensures r.values == values[k := v]
      ensures k in values ==> r.keys == keys
      ensures k !in values ==> r.keys == keys + [k]
    {
      if k in values then OrderedMap(keys, values[k := v])
      else OrderedMap(keys + [k], values[k := v])
    }
  }

  /** The empty dictionary `{}`. */
  function EmptyMap<K(==,!new), V>(): (r: OrderedMap<K, V>)
    ensures r.Valid() && r.keys == [] && r.values == map[]
  {
    OrderedMap([], map[])
  }

  /** The distinct elements of `xs`, each at the place of its first occurrence. */
  function FirstSeen<T(==,!new)>(xs: seq<T>): (r: seq<T>)
    ensures Distinct(r)
    ensures forall x :: x in r <==> x in xs
  {
    if xs == [] then []
    else
      var earlier := FirstSeen(xs[..|xs| - 1]);
      var last := xs[|xs| - 1];
      assert forall x :: x in xs <==> x in xs[..|xs| - 1] || x == last by {
        assert xs == xs[..|xs| - 1] + [last];
      }
      if last in earlier then earlier else earlier + [last]
  }

  /** The position of the first occurrence of `x` in `xs`. */
  function IndexOf<T(==)>(xs: seq<T>, x: T): (i: nat)
    requires x in xs
    ensures i < |xs| && xs[i] == x && x !in xs[..i]
  {
    if xs[0] == x then 0
    else
      var i := 1 + IndexOf(xs[1..], x);
      assert xs[..i] == [xs[0]] + xs[1..][..i - 1];
      i
  }

  /** A position holding `x` with no `x` before it is the first occurrence. */
  lemma IndexOfAt<T>(xs: seq<T>, x: T, k: nat)
    requires k < |xs| && xs[k] == x && x !in xs[..k]
    ensures IndexOf(xs, x) == k
  {
  }

  /**
   * `FirstSeen` lists the elements in the order of their first occurrences:
   * an element listed earlier occurs first earlier in `xs`.
   */
  lemma {:induction false} FirstSeenOrder<T(!new)>(xs: seq<T>, i: nat, j: nat)
    requires i < j < |FirstSeen(xs)|
    ensures IndexOf(xs, FirstSeen(xs)[i]) < IndexOf(xs, FirstSeen(xs)[j])
  {
    var n := |xs|;
    var prefix := xs[..n - 1];
    var earlier := FirstSeen(prefix);
    var a, b := FirstSeen(xs)[i], FirstSeen(xs)[j];
    assert a in earlier;
    assert a == earlier[i];
    IndexOfPrefix(xs, a);
    if j < |earlier| {
      assert b == earlier[j];
      FirstSeenOrder(prefix, i, j);
      IndexOfPrefix(xs, b);
    } else {
      assert b == xs[n - 1] && b !in prefix;
      IndexOfAt(xs, b, n - 1);
    }
  }

  /** The first occurrence of an element of the prefix lies in the prefix. */
  lemma IndexOfPrefix<T>(xs: seq<T>, x: T)
    requires |xs| > 0 && x in xs[..|xs| - 1]
    ensures IndexOf(xs, x) == IndexOf(xs[..|xs| - 1], x) < |xs| - 1
  {
    var prefix := xs[..|xs| - 1];
    var k := IndexOf(prefix, x);
    assert xs[..k] == prefix[..k];
    IndexOfAt(xs, x, k);
  }
}
