/**
 * The telemetry table and the handful of pandas operations the analyzer
 * applies to it: column selection, `Series.unique`, `DataFrame.drop_duplicates`
 * on the steam-id column, a boolean-mask row filter and `Series.value_counts`.
 * A pandas null id is `None`; pandas treats all nulls as one value when it
 * deduplicates, and so does `Option` equality.
 */
module Frame {
  import opened Wrappers
  import opened Dicts

  type SteamId = string

  /** One tick row: the columns `players_info.steamId`, `players_info.name` and `players_state`. */
  datatype Row = Row(steamId: Option<SteamId>, name: string, state: string)

  type Table = seq<Row>

  function Elements<T>(s: seq<T>): set<T>
  {
    set x | x in s
  }

  /** The position of the first occurrence of `x` in `s`. */
  function FirstIndex<T(==)>(s: seq<T>, x: T): (i: nat)
    requires x in s
    ensures i < |s| && s[i] == x
    ensures forall j :: 0 <= j < i ==> s[j] != x
  {
    if s[0] == x then 0 else 1 + FirstIndex(s[1..], x)
  }

  /** The steam-id column. */
  function Ids(t: Table): (ids: seq<Option<SteamId>>)
    ensures |ids| == |t|
    ensures forall i :: 0 <= i < |t| ==> ids[i] == t[i].steamId
  {
    seq(|t|, i requires 0 <= i < |t| => t[i].steamId)
  }

  /** The player-name column. */
  function Names(t: Table): (names: seq<string>)
    ensures |names| == |t|
    ensures forall i :: 0 <= i < |t| ==> names[i] == t[i].name
  {
    seq(|t|, i requires 0 <= i < |t| => t[i].name)
  }

  /** The player-state column. */
  function States(t: Table): (states: seq<string>)
    ensures |states| == |t|
    ensures forall i :: 0 <= i < |t| ==> states[i] == t[i].state
  {
    seq(|t|, i requires 0 <= i < |t| => t[i].state)
  }

  /** pandas `unique` on a column: each distinct value once, null included, in order of first appearance. */
  function Unique<T(==,!new)>(s: seq<T>): (u: seq<T>)
    ensures Distinct(u)
    ensures forall x :: x in u <==> x in s
  {
    if s == [] then []
    else
      var init, last := s[..|s| - 1], s[|s| - 1];
      assert s == init + [last];
      if last in init then Unique(init) else Unique(init) + [last]
  }

  /** pandas `drop_duplicates` keyed on the steam-id column: the first row of each distinct id, in table order. */
  function DropDuplicates(t: Table): (r: Table)
    ensures Ids(r) == Unique(Ids(t))
  {
    if t == [] then []
    else
      var init, last := t[..|t| - 1], t[|t| - 1];
      assert Ids(init) == Ids(t)[..|t| - 1];
      if last.steamId in Ids(init) then DropDuplicates(init)
      else
        var r := DropDuplicates(init) + [last];
        assert Ids(r) == Ids(DropDuplicates(init)) + [last.steamId];
        r
  }

  /** The ids that pass the null test, unwrapped, in order. */
  function DropNa<T(!new)>(s: seq<Option<T>>): (r: seq<T>)
    ensures forall x :: x in r <==> Some(x) in s
  {
    if s == [] then []
    else
      var init := s[..|s| - 1];
      assert s == init + [s[|s| - 1]];
      match s[|s| - 1]
      case None => DropNa(init)
      case Some(x) => DropNa(init) + [x]
  }

  /** One more id of a distinct id sequence: a null adds nothing, any other id is new and is appended. */
  lemma DropNaStep<T(!new)>(s: seq<Option<T>>, i: nat)
    requires Distinct(s) && i < |s|
    ensures DropNa(s[..i + 1]) == DropNa(s[..i]) + (if s[i].Some? then [s[i].value] else [])
    ensures s[i].Some? ==> s[i].value !in DropNa(s[..i])
  {
    assert s[..i + 1][..i] == s[..i];
    assert s[i] !in s[..i];
  }

  /** The boolean-mask selection of the rows whose steam id equals `id`, each as often as in the table. */
  function Where(t: Table, id: SteamId): (r: Table)
    ensures forall row :: multiset(r)[row] == if row.steamId == Some(id) then multiset(t)[row] else 0
  {
    if t == [] then []
    else
      assert t == [t[0]] + t[1..];
      (if t[0].steamId == Some(id) then [t[0]] else []) + Where(t[1..], id)
  }

  /**
   * pandas `value_counts` as a dict, built by one pass over the column that
   * adds one to the value's count, starting from zero when it has none yet.
   */
  function ValueCounts<T(==,!new)>(col: seq<T>): (m: map<T, nat>)
    ensures forall x :: x in m <==> multiset(col)[x] > 0
    ensures forall x :: x in m ==> m[x] == multiset(col)[x]
  {
    if col == [] then map[]
    else
      var init, last := col[..|col| - 1], col[|col| - 1];
      assert col == init + [last];
      var counts := ValueCounts(init);
      counts[last := OrZero(Lookup(counts, last)) + 1]
  }

  /** Reference count: the rows of the table that carry `id` and are in `state`. */
  function CountRows(t: Table, id: SteamId, state: string): nat
  {
    if t == [] then 0
    else (if t[0].steamId == Some(id) && t[0].state == state then 1 else 0) + CountRows(t[1..], id, state)
  }

  lemma {:induction false} FirstIndexInPrefix<T(!new)>(s: seq<T>, n: nat, x: T)
    requires n <= |s| && x in s[..n]
    ensures FirstIndex(s, x) == FirstIndex(s[..n], x)
  {
    var i, j := FirstIndex(s, x), FirstIndex(s[..n], x);
    assert s[..n][j] == s[j];
  }

  /** The values of `Unique(s)` are listed in the order in which they first appear in `s`. */
  lemma {:induction false} UniqueFirstAppearanceOrder<T(!new)>(s: seq<T>)
    ensures forall i, j :: 0 <= i < j < |Unique(s)| ==> FirstIndex(s, Unique(s)[i]) < FirstIndex(s, Unique(s)[j])
  {
    if s != [] {
      var init, last := s[..|s| - 1], s[|s| - 1];
      UniqueFirstAppearanceOrder(init);
      var u, v := Unique(s), Unique(init);
      forall i | 0 <= i < |v|
        ensures FirstIndex(s, v[i]) == FirstIndex(init, v[i])
      {
        FirstIndexInPrefix(s, |s| - 1, v[i]);
      }
      if last !in init {
        assert FirstIndex(s, last) == |s| - 1;
        assert u == v + [last];
      }
    }
  }

  lemma {:induction false} DistinctCount<T(!new)>(u: seq<T>)
    requires Distinct(u)
    ensures |Elements(u)| == |u|
  {
    if u != [] {
      var init, last := u[..|u| - 1], u[|u| - 1];
      DistinctCount(init);
      assert Elements(u) == Elements(init) + {last};
      assert last !in Elements(init);
    }
  }

  /** The length of `Unique(s)` is the number of distinct values of `s`. */
  lemma UniqueCount<T(!new)>(s: seq<T>)
    ensures |Unique(s)| == |Elements(s)|
  {
    DistinctCount(Unique(s));
    assert Elements(Unique(s)) == Elements(s);
  }

  /** A dict built from pairs lists each key of the pairs once, in order of its first pair. */
  lemma {:induction false} FromPairsKeys<K(!new), V>(ps: seq<(K, V)>)
    ensures Keys(FromPairs(ps)) == Unique(Keys(ps))
  {
    if ps != [] {
      var init, last := ps[..|ps| - 1], ps[|ps| - 1];
      FromPairsKeys(init);
      assert Keys(ps) == Keys(init) + [last.0];
      assert Keys(ps)[..|ps| - 1] == Keys(init);
      var d := FromPairs(init);
      assert last.0 in Keys(d) <==> last.0 in Keys(init);
      if last.0 in Keys(d) {
        assert Keys(Assign(d, last.0, last.1)) == Keys(d);
      } else {
        KeysAppend(d, last);
      }
    }
  }

  /** Each row kept by `DropDuplicates` is the first table row with its id. */
  lemma {:induction false} DropDuplicatesKeepsFirst(t: Table)
    ensures forall k :: 0 <= k < |DropDuplicates(t)| ==>
      DropDuplicates(t)[k].steamId in Ids(t) &&
      DropDuplicates(t)[k] == t[FirstIndex(Ids(t), DropDuplicates(t)[k].steamId)]
  {
    if t != [] {
      var init, last := t[..|t| - 1], t[|t| - 1];
      DropDuplicatesKeepsFirst(init);
      assert Ids(init) == Ids(t)[..|t| - 1];
      var r, p := DropDuplicates(t), DropDuplicates(init);
      forall k | 0 <= k < |p|
        ensures p[k].steamId in Ids(t) && p[k] == t[FirstIndex(Ids(t), p[k].steamId)]
      {
        FirstIndexInPrefix(Ids(t), |t| - 1, p[k].steamId);
      }
      if last.steamId !in Ids(init) {
        assert FirstIndex(Ids(t), last.steamId) == |t| - 1;
      }
    }
  }

  /** Without null ids, a distinct id sequence keeps its distinctness and loses one element exactly when it held a null. */
  lemma {:induction false} DropNaLength<T(!new)>(s: seq<Option<T>>)
    requires Distinct(s)
    ensures Distinct(DropNa(s))
    ensures |DropNa(s)| == |s| - (if None in s then 1 else 0)
  {
    if s != [] {
      var init, last := s[..|s| - 1], s[|s| - 1];
      assert s == init + [last];
      DropNaLength(init);
      assert last !in init;
    }
  }

  /** Filtering by id then counting states agrees with the reference count over the whole table. */
  lemma {:induction false} StateCountInWhere(t: Table, id: SteamId, state: string)
    ensures multiset(States(Where(t, id)))[state] == CountRows(t, id, state)
  {
    if t != [] {
      StateCountInWhere(t[1..], id, state);
      var head := if t[0].steamId == Some(id) then [t[0]] else [];
      StatesAppend(head, Where(t[1..], id));
      assert multiset(States(head))[state] == if t[0].steamId == Some(id) && t[0].state == state then 1 else 0;
    }
  }

  lemma StatesAppend(a: Table, b: Table)
    ensures States(a + b) == States(a) + States(b)
  {
  }

  lemma {:induction false} CountRowsAppend(a: Table, b: Table, id: SteamId, state: string)
    ensures CountRows(a + b, id, state) == CountRows(a, id, state) + CountRows(b, id, state)
  {
    if a == [] {
      assert a + b == b;
    } else {
      assert (a + b)[0] == a[0];
      assert (a + b)[1..] == a[1..] + b;
      CountRowsAppend(a[1..], b, id, state);
    }
  }

  /** Rows of one id in two different states are disjoint sets of that id's rows. */
  lemma {:induction false} TwoStatesBounded(t: Table, id: SteamId, s1: string, s2: string)
    requires s1 != s2
    ensures CountRows(t, id, s1) + CountRows(t, id, s2) <= |Where(t, id)|
  {
    if t != [] {
      TwoStatesBounded(t[1..], id, s1, s2);
    }
  }
}
