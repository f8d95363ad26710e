/** The parts of the .NET collections the widget relies on, as values:
    List<T>.IndexOf and List<T>.Remove over a sequence, and the
    Dictionary<K,V> indexer (read and overwrite) over a map. */
module Collections {

  datatype Option<T> = None | Some(value: T)

  /** Wherever a key is repeated, it is paired with the same value. */
  ghost predicate SameValuePerKey<K, V>(ks: seq<K>, vs: seq<V>)
    requires |ks| == |vs|
  {
    forall i, j :: 0 <= i < |ks| && 0 <= j < |ks| && ks[i] == ks[j] ==> vs[i] == vs[j]
  }

  /** List<T>.IndexOf: the index of the first occurrence of x, or -1. */
  function IndexOf<T(==)>(s: seq<T>, x: T): (r: int)
    ensures -1 <= r < |s|
    ensures r == -1 <==> x !in s
    ensures 0 <= r ==> s[r] == x && x !in s[..r]
  {
    if |s| == 0 then -1
    else if s[0] == x then 0
    else
      var k := IndexOf(s[1..], x);
      if k == -1 then -1
      else
        assert s[..k + 1] == [s[0]] + s[1..][..k];
        k + 1
  }

  /** List<T>.Remove: drop the first occurrence of x, if there is one. */
  function RemoveFirst<T(==)>(s: seq<T>, x: T): seq<T> {
    if |s| == 0 then []
    else if s[0] == x then s[1..]
    else [s[0]] + RemoveFirst(s[1..], x)
  }

  /** Removing splices out exactly the element at IndexOf, and keeps a
      sequence without x as it is. */
  lemma {:induction false} RemoveFirstSplices<T>(s: seq<T>, x: T)
    ensures x !in s ==> RemoveFirst(s, x) == s
    ensures x in s ==> RemoveFirst(s, x) == s[..IndexOf(s, x)] + s[IndexOf(s, x) + 1..]
  {
    if |s| > 0 && s[0] != x {
      RemoveFirstSplices(s[1..], x);
      if x in s {
        assert x in s[1..];
        var k := IndexOf(s[1..], x);
        assert s[..k + 1] == [s[0]] + s[1..][..k];
        assert s[k + 2..] == s[1..][k + 1..];
      } else {
        assert s == [s[0]] + s[1..];
      }
    }
  }

  /** Removing keeps only elements that were there. */
  lemma {:induction false} RemoveFirstSubset<T>(s: seq<T>, x: T)
    ensures forall y :: y in RemoveFirst(s, x) ==> y in s
  {
    if |s| > 0 && s[0] != x {
      RemoveFirstSubset(s[1..], x);
    }
  }

  /** Removing takes away one copy of x when x is there, and nothing else. */
  lemma {:induction false} RemoveFirstMultiset<T>(s: seq<T>, x: T)
    ensures multiset(RemoveFirst(s, x)) == multiset(s) - multiset{x}
    ensures |RemoveFirst(s, x)| == if x in s then |s| - 1 else |s|
  {
    if |s| > 0 {
      assert s == [s[0]] + s[1..];
      if s[0] != x {
        RemoveFirstMultiset(s[1..], x);
      }
    }
  }

  /** List<T>.Insert at a valid index: x lands at index i, the elements
      from i on move one place back. */
  function InsertAt<T>(s: seq<T>, i: nat, x: T): seq<T>
    requires i <= |s|
  {
    s[..i] + [x] + s[i..]
  }

  /** Inserting an element the list does not hold puts it at the inserted
      index, and removing it again gives back the list. */
  lemma RemoveInserted<T>(s: seq<T>, i: nat, x: T)
    requires i <= |s| && x !in s
    ensures IndexOf(InsertAt(s, i, x), x) == i
    ensures RemoveFirst(InsertAt(s, i, x), x) == s
  {
    var t := InsertAt(s, i, x);
    assert t[i] == x;
    assert x !in t[..i] by { assert t[..i] == s[..i]; }
    IndexOfFirst(t, x, i);
    RemoveFirstSplices(t, x);
    assert t[..i] + t[i + 1..] == s;
  }

  /** The first index holding x is where IndexOf points. */
  lemma IndexOfFirst<T>(s: seq<T>, x: T, i: nat)
    requires i < |s| && s[i] == x && x !in s[..i]
    ensures IndexOf(s, x) == i
  {
  }

  /** Lookup of every key of ks in m, in order (the Dictionary indexer read). */
  function Lookup<K, V>(m: map<K, V>, ks: seq<K>): (vs: seq<V>)
    requires forall k :: k in ks ==> k in m
  {
    seq(|ks|, i requires 0 <= i < |ks| => m[ks[i]])
  }

  /** The Dictionary indexer written once per key, in order: ks[i] is set
      to vs[i], later writes overriding earlier ones. */
  function Assign<K, V>(m: map<K, V>, ks: seq<K>, vs: seq<V>): map<K, V>
    requires |ks| == |vs|
  {
    if |ks| == 0 then m
    else
      var n := |ks| - 1;
      Assign(m, ks[..n], vs[..n])[ks[n] := vs[n]]
  }

  /** The pass adds exactly the written keys to the old ones. */
  lemma {:induction false} AssignKeys<K, V>(m: map<K, V>, ks: seq<K>, vs: seq<V>)
    requires |ks| == |vs|
    ensures forall k :: k in Assign(m, ks, vs) <==> k in m || k in ks
  {
    if |ks| > 0 {
      var n := |ks| - 1;
      AssignKeys(m, ks[..n], vs[..n]);
      assert ks == ks[..n] + [ks[n]];
    }
  }

  /** The pass over one more key is the pass so far followed by its write. */
  lemma AssignStep<K, V>(m: map<K, V>, ks: seq<K>, vs: seq<V>, i: nat)
    requires |ks| == |vs| && i < |ks|
    ensures Assign(m, ks[..i + 1], vs[..i + 1]) == Assign(m, ks[..i], vs[..i])[ks[i] := vs[i]]
  {
    assert ks[..i + 1][..i] == ks[..i];
    assert vs[..i + 1][..i] == vs[..i];
  }

  /** A key written in the pass holds the value of its last write; a key
      not written keeps its old value. */
  lemma {:induction false} AssignAt<K, V>(m: map<K, V>, ks: seq<K>, vs: seq<V>, i: nat)
    requires |ks| == |vs| && i < |ks|
    requires ks[i] !in ks[i + 1..]
    ensures ks[i] in Assign(m, ks, vs) && Assign(m, ks, vs)[ks[i]] == vs[i]
  {
    var n := |ks| - 1;
    if i < n {
      assert ks[n] in ks[i + 1..];
      assert ks[..n][i + 1..] == ks[i + 1..n];
      AssignAt(m, ks[..n], vs[..n], i);
    }
  }

  lemma {:induction false} AssignOutside<K, V>(m: map<K, V>, ks: seq<K>, vs: seq<V>, k: K)
    requires |ks| == |vs| && k !in ks && k in m
    ensures k in Assign(m, ks, vs) && Assign(m, ks, vs)[k] == m[k]
  {
    if |ks| > 0 {
      var n := |ks| - 1;
      assert k !in ks[..n] by { assert forall j :: 0 <= j < n ==> ks[..n][j] == ks[j]; }
      AssignOutside(m, ks[..n], vs[..n], k);
    }
  }

  /** When every write to a key writes the same value, each written key
      holds the value of any of its writes. */
  lemma {:induction false} AssignSameValue<K, V>(m: map<K, V>, ks: seq<K>, vs: seq<V>, i: nat)
    requires |ks| == |vs| && i < |ks| && SameValuePerKey(ks, vs)
    ensures ks[i] in Assign(m, ks, vs) && Assign(m, ks, vs)[ks[i]] == vs[i]
  {
    var n := |ks| - 1;
    if ks[n] != ks[i] {
      assert SameValuePerKey(ks[..n], vs[..n]) by {
        forall a, b | 0 <= a < n && 0 <= b < n && ks[..n][a] == ks[..n][b]
          ensures vs[..n][a] == vs[..n][b]
        {
          assert ks[a] == ks[b];
        }
      }
      AssignSameValue(m, ks[..n], vs[..n], i);
    }
  }

  /** Writing the keys and reading them back gives back the values,
      provided a repeated key is always written the same value (distinct
      keys are the simplest case). */
  lemma LookupAssign<K, V>(m: map<K, V>, ks: seq<K>, vs: seq<V>)
    requires |ks| == |vs| && SameValuePerKey(ks, vs)
    ensures forall k :: k in ks ==> k in Assign(m, ks, vs)
    ensures Lookup(Assign(m, ks, vs), ks) == vs
  {
    forall i | 0 <= i < |ks|
      ensures ks[i] in Assign(m, ks, vs) && Assign(m, ks, vs)[ks[i]] == vs[i]
    {
      AssignSameValue(m, ks, vs, i);
    }
  }
}
