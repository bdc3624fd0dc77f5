/**
 * Python's insertion-ordered `dict`, as a sequence of (key, value) entries
 * whose keys are pairwise distinct, and the few builtins the analyzer uses on it.
 */
module Dicts {
  import opened Wrappers

  type Dict<K, V> = seq<(K, V)>

  predicate Distinct<T(==)>(s: seq<T>)
  {
    forall i, j :: 0 <= i < j < |s| ==> s[i] != s[j]
  }

  /** The keys of `d`, in insertion order. */
  function Keys<K, V>(d: Dict<K, V>): (ks: seq<K>)
    ensures |ks| == |d|
    ensures forall i :: 0 <= i < |d| ==> ks[i] == d[i].0
  {
    seq(|d|, i requires 0 <= i < |d| => d[i].0)
  }

  /**
   * `d[k] = v`: an existing key keeps its position and takes the new value,
   * a new key is appended at the end.
   */
  function Assign<K(==), V>(d: Dict<K, V>, k: K, v: V): (r: Dict<K, V>)
    requires Distinct(Keys(d))
    ensures Distinct(Keys(r))
    ensures |r| == if k in Keys(d) then |d| else |d| + 1
    ensures forall i :: 0 <= i < |d| ==> r[i] == if d[i].0 == k then (k, v) else d[i]
    ensures k !in Keys(d) ==> r == d + [(k, v)]
  {
    if k in Keys(d) then
      var r := seq(|d|, i requires 0 <= i < |d| => if d[i].0 == k then (k, v) else d[i]);
      assert Keys(r) == Keys(d);
      r
    else
      var r := d + [(k, v)];
      assert Keys(r) == Keys(d) + [k];
      r
  }

  /** The position of the last occurrence of `x` in `s`. */
  function LastIndex<T(==)>(s: seq<T>, x: T): (i: nat)
    requires x in s
    ensures i < |s| && s[i] == x
    ensures forall j :: i < j < |s| ==> s[j] != x
  {
    if s[|s| - 1] == x then |s| - 1
    else
      assert s == s[..|s| - 1] + [s[|s| - 1]];
      LastIndex(s[..|s| - 1], x)
  }

  /**
   * The `dict` built from a sequence of pairs: the pairs assigned one after the
   * other. It has a key exactly for each key among the pairs, and each key holds
   * the value of the last pair with that key.
   */
  function FromPairs<K(==,!new), V>(ps: seq<(K, V)>): (d: Dict<K, V>)
    ensures Distinct(Keys(d))
    ensures forall k :: k in Keys(d) <==> k in Keys(ps)
    ensures forall i :: 0 <= i < |d| ==> d[i].0 in Keys(ps) && d[i] == ps[LastIndex(Keys(ps), d[i].0)]
  {
    if ps == [] then []
    else
      var init, last := ps[..|ps| - 1], ps[|ps| - 1];
      assert ps == init + [last];
      AssignLast(FromPairs(init), init, last.0, last.1);
      Assign(FromPairs(init), last.0, last.1)
  }

  /** Python's `zip`: the pairs of same-position elements, as long as the shorter input. */
  function Zip<A, B>(a: seq<A>, b: seq<B>): (r: seq<(A, B)>)
    ensures |r| == if |a| <= |b| then |a| else |b|
    ensures forall i :: 0 <= i < |r| ==> r[i] == (a[i], b[i])
  {
    seq(if |a| <= |b| then |a| else |b|, i requires 0 <= i < |a| && 0 <= i < |b| => (a[i], b[i]))
  }

  /** `dict.get` with `None` as the default. */
  function Lookup<K, V>(m: map<K, V>, k: K): Option<V>
  {
    if k in m then Some(m[k]) else None
  }

  lemma KeysAppend<K, V>(d: Dict<K, V>, e: (K, V))
    ensures Keys(d + [e]) == Keys(d) + [e.0]
  {
  }

  /**
   * Assigning one more pair to a dict that holds, for each key of `ps`, the last
   * pair of `ps` with that key gives the same for `ps` extended by that pair.
   */
  lemma AssignLast<K, V>(d: Dict<K, V>, ps: seq<(K, V)>, k: K, v: V)
    requires Distinct(Keys(d))
    requires forall key :: key in Keys(d) <==> key in Keys(ps)
    requires forall i :: 0 <= i < |d| ==> d[i].0 in Keys(ps) && d[i] == ps[LastIndex(Keys(ps), d[i].0)]
    ensures forall key :: key in Keys(Assign(d, k, v)) <==> key in Keys(ps + [(k, v)])
    ensures forall i :: 0 <= i < |Assign(d, k, v)| ==>
      Assign(d, k, v)[i].0 in Keys(ps + [(k, v)]) &&
      Assign(d, k, v)[i] == (ps + [(k, v)])[LastIndex(Keys(ps + [(k, v)]), Assign(d, k, v)[i].0)]
  {
    var r, qs := Assign(d, k, v), ps + [(k, v)];
    KeysAppend(ps, (k, v));
    assert Keys(qs)[..|ps|] == Keys(ps);
    forall key | key in Keys(ps) && key != k
      ensures LastIndex(Keys(qs), key) == LastIndex(Keys(ps), key)
    {
    }
    forall key
      ensures key in Keys(r) <==> key in Keys(qs)
    {
      if k !in Keys(d) {
        KeysAppend(d, (k, v));
      }
    }
    forall i | 0 <= i < |r|
      ensures r[i].0 in Keys(qs) && r[i] == qs[LastIndex(Keys(qs), r[i].0)]
    {
      if i < |d| && d[i].0 != k {
        assert qs[LastIndex(Keys(ps), d[i].0)] == ps[LastIndex(Keys(ps), d[i].0)];
      }
    }
  }

  /** Pairs whose keys are already distinct become a dict unchanged, entry for entry and in order. */
  lemma {:induction false} FromDistinctPairs<K(!new), V>(ps: seq<(K, V)>)
    requires Distinct(Keys(ps))
    ensures FromPairs(ps) == ps
  {
    if ps != [] {
      var init, last := ps[..|ps| - 1], ps[|ps| - 1];
      assert Keys(init) == Keys(ps)[..|ps| - 1];
      assert Distinct(Keys(init));
      assert last.0 !in Keys(init) by {
        assert forall i :: 0 <= i < |init| ==> Keys(init)[i] == Keys(ps)[i] != Keys(ps)[|ps| - 1];
      }
      calc {
        FromPairs(ps);
        Assign(FromPairs(init), last.0, last.1);
        { FromDistinctPairs(init); }
        Assign(init, last.0, last.1);
        init + [last];
        ps;
      }
    }
  }
}
