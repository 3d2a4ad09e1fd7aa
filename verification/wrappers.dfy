/** The optional value used throughout the model in place of Python's `None`. */
module Wrappers {

  datatype Option<+T> = None | Some(value: T)

  /** `m.get(k)` on a Python dict: the value stored under `k`, or `None`. */
  function Lookup<K, V>(m: map<K, V>, k: K): Option<V> {
    if k in m then Some(m[k]) else None
  }

  /** Two maps that answer every lookup alike are the same map. */
  lemma LookupExtensional<K, V>(m1: map<K, V>, m2: map<K, V>)
    requires forall k :: Lookup(m1, k) == Lookup(m2, k)
    ensures m1 == m2
  {
    forall k | k in m1
      ensures k in m2 && m1[k] == m2[k]
    {
      assert Lookup(m1, k) == Lookup(m2, k);
    }
    forall k | k in m2
      ensures k in m1
    {
      assert Lookup(m1, k) == Lookup(m2, k);
    }
  }

  /** The optional value as a sequence of zero or one elements. */
  function AsSeq<T>(o: Option<T>): seq<T> {
    if o.Some? then [o.value] else []
  }

  /** The present values of a sequence of options, in order. */
  function Somes<T>(os: seq<Option<T>>): seq<T>
    decreases |os|
  {
    if |os| == 0 then [] else AsSeq(os[0]) + Somes(os[1..])
  }

  lemma SomesSingle<T>(o: Option<T>)
    ensures Somes([o]) == AsSeq(o)
  {
    assert [o][1..] == [];
  }

  lemma {:induction false} SomesConcat<T>(a: seq<Option<T>>, b: seq<Option<T>>)
    ensures Somes(a + b) == Somes(a) + Somes(b)
    decreases |a|
  {
    if |a| > 0 {
      assert (a + b)[0] == a[0];
      assert (a + b)[1..] == a[1..] + b;
      SomesConcat(a[1..], b);
    } else {
      assert a + b == b;
    }
  }

  lemma {:induction false} SomesMembers<T>(os: seq<Option<T>>, x: T)
    ensures x in Somes(os) <==> Some(x) in os
    decreases |os|
  {
    if |os| > 0 {
      SomesMembers(os[1..], x);
      assert os == [os[0]] + os[1..];
    }
  }
}
