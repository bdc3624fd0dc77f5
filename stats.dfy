/**
 * `DemoAnalyzer`: per-player aggregates over the tick table of one recorded
 * match. It indexes the players by steam id, counts them, and reports how
 * many ticks each player spent in the "Alive" and in the "Death" state.
 */
module Stats {
  import opened Wrappers
  import opened Dicts
  import opened Frame

  const ALIVE: string := "Alive"
  const DEATH: string := "Death"

  /** One player's alive and death tick counts; `None` where the player has no row in that state. */
  datatype TickStats = TickStats(aliveTicks: Option<nat>, deathTicks: Option<nat>)

  /** A reported count: absent rather than zero when nothing was counted. */
  function Tally(n: nat): Option<nat>
  {
    if n == 0 then None else Some(n)
  }

  /**
   * One player's entry of `death_stats`: the player's rows, their state counts,
   * and the "Alive" and "Death" counts looked up with `dict.get(state, None)`.
   */
  function TickStatsOf(t: Table, id: SteamId): (ts: TickStats)
    ensures ts.aliveTicks == Tally(CountRows(t, id, ALIVE))
    ensures ts.deathTicks == Tally(CountRows(t, id, DEATH))
    ensures ts.aliveTicks != Some(0) && ts.deathTicks != Some(0)
  {
    var tickStats := ValueCounts(States(Where(t, id)));
    StateCountInWhere(t, id, ALIVE);
    StateCountInWhere(t, id, DEATH);
    TickStats(Lookup(tickStats, ALIVE), Lookup(tickStats, DEATH))
  }

  /** The two counts never exceed the player's rows, whatever other states those rows are in. */
  lemma TickCountsBounded(t: Table, id: SteamId)
    ensures OrZero(TickStatsOf(t, id).aliveTicks) + OrZero(TickStatsOf(t, id).deathTicks) <= |Where(t, id)|
  {
    TwoStatesBounded(t, id, ALIVE, DEATH);
  }

  /** A row of another player, or in a state other than "Alive" and "Death", changes neither count. */
  lemma OtherRowsIgnored(a: Table, row: Row, b: Table, id: SteamId)
    requires row.steamId != Some(id) || (row.state != ALIVE && row.state != DEATH)
    ensures TickStatsOf(a + [row] + b, id) == TickStatsOf(a + b, id)
  {
    forall state | state == ALIVE || state == DEATH
      ensures CountRows(a + [row] + b, id, state) == CountRows(a + b, id, state)
    {
      CountRowsAppend(a + [row], b, id, state);
      CountRowsAppend(a, [row], id, state);
      CountRowsAppend(a, b, id, state);
    }
  }

  /** The state of `death_stats` after the first `i` ids: the non-null ones among them, each with its tick counts. */
  ghost predicate CountedUpTo(t: Table, stats: Dict<SteamId, TickStats>, ids: seq<Option<SteamId>>, i: nat)
    requires i <= |ids|
  {
    && Distinct(Keys(stats))
    && Keys(stats) == DropNa(ids[..i])
    && forall k :: 0 <= k < |stats| ==> stats[k].1 == TickStatsOf(t, stats[k].0)
  }

  /** A null id is skipped. */
  lemma SkipNull(t: Table, stats: Dict<SteamId, TickStats>, ids: seq<Option<SteamId>>, i: nat)
    requires Distinct(ids) && i < |ids| && ids[i].None?
    requires CountedUpTo(t, stats, ids, i)
    ensures CountedUpTo(t, stats, ids, i + 1)
  {
    DropNaStep(ids, i);
  }

  /** Any other id is new, so assigning its entry appends it. */
  lemma EnterId(t: Table, stats: Dict<SteamId, TickStats>, ids: seq<Option<SteamId>>, i: nat)
    requires Distinct(ids) && i < |ids| && ids[i].Some?
    requires CountedUpTo(t, stats, ids, i)
    ensures CountedUpTo(t, Assign(stats, ids[i].value, TickStatsOf(t, ids[i].value)), ids, i + 1)
  {
    var entry := (ids[i].value, TickStatsOf(t, ids[i].value));
    DropNaStep(ids, i);
    KeysAppend(stats, entry);
    assert Assign(stats, entry.0, entry.1) == stats + [entry];
  }

  class DemoAnalyzer {
    /** The demo file the table was extracted from. */
    const demoFile: string
    /** The tick table, assigned once when the analyzer is built. */
    const table: Table

    constructor (demoFile: string, table: Table)
      ensures this.demoFile == demoFile && this.table == table
    {
      this.demoFile := demoFile;
      this.table := table;
    }

    /**
     * `players`: steam id to player name, one entry per distinct id (a null
     * id included), in order of first appearance.
     */
    function Players(): (r: Dict<Option<SteamId>, string>)
      ensures Keys(r) == Unique(Ids(table))
    {
      var uniqueIds := DropDuplicates(table);
      var pairs := Zip(Ids(uniqueIds), Names(uniqueIds));
      assert Keys(pairs) == Ids(uniqueIds);
      FromDistinctPairs(pairs);
      FromPairs(pairs)
    }

    /** The name recorded for an id is the name on the first row with that id; later rows do not change it. */
    lemma PlayersKeepFirstName()
      ensures forall k :: 0 <= k < |Players()| ==>
        Players()[k].0 in Ids(table) && Players()[k].1 == table[FirstIndex(Ids(table), Players()[k].0)].name
    {
      var uniqueIds := DropDuplicates(table);
      var pairs := Zip(Ids(uniqueIds), Names(uniqueIds));
      assert Keys(pairs) == Ids(uniqueIds);
      FromDistinctPairs(pairs);
      assert Players() == pairs;
      DropDuplicatesKeepsFirst(table);
      forall k | 0 <= k < |pairs|
        ensures pairs[k].0 in Ids(table) && pairs[k].1 == table[FirstIndex(Ids(table), pairs[k].0)].name
      {
        assert pairs[k] == (uniqueIds[k].steamId, uniqueIds[k].name);
      }
    }

    lemma PlayersInFirstAppearanceOrder()
      ensures Distinct(Keys(Players()))
      ensures forall id :: id in Keys(Players()) <==> id in Ids(table)
      ensures forall i, j :: 0 <= i < j < |Players()| ==>
        FirstIndex(Ids(table), Players()[i].0) < FirstIndex(Ids(table), Players()[j].0)
    {
      UniqueFirstAppearanceOrder(Ids(table));
    }

    /** `num_players`: the number of distinct steam-id values, a null id counted as one value. */
    function NumPlayers(): (n: nat)
      ensures n == |Elements(Ids(table))|
      ensures n == |Players()|
    {
      UniqueCount(Ids(table));
      |Unique(Ids(table))|
    }

    /**
     * What `death_stats` returns: the non-null ids of `Players()`, in the same
     * order, each with its tick counts.
     */
    ghost predicate IsDeathStats(stats: Dict<SteamId, TickStats>)
    {
      && Keys(stats) == DropNa(Keys(Players()))
      && forall k :: 0 <= k < |stats| ==> stats[k].1 == TickStatsOf(table, stats[k].0)
    }

    /**
     * `death_stats`: loops over `Players()`, skips a null id, and enters every
     * other id with its tick counts.
     */
    method DeathStats() returns (stats: Dict<SteamId, TickStats>)
      ensures IsDeathStats(stats)
    {
      stats := [];
      var players := Players();
      ghost var ids := Keys(players);
      for i := 0 to |players|
        invariant CountedUpTo(table, stats, ids, i)
      {
        var steamId := players[i].0;
        assert steamId == ids[i];
        if steamId.None? {
          SkipNull(table, stats, ids, i);
          continue;
        }
        EnterId(table, stats, ids, i);
        stats := Assign(stats, steamId.value, TickStatsOf(table, steamId.value));
      }
      assert ids[..|players|] == ids;
    }

    /** `death_stats` is determined by the table: two calls give the same dict. */
    lemma DeathStatsDeterministic(s1: Dict<SteamId, TickStats>, s2: Dict<SteamId, TickStats>)
      requires IsDeathStats(s1) && IsDeathStats(s2)
      ensures s1 == s2
    {
      forall k | 0 <= k < |s1|
        ensures s1[k] == s2[k]
      {
        assert s1[k].0 == Keys(s1)[k] == Keys(s2)[k] == s2[k].0;
      }
    }

    /**
     * `death_stats` has an entry for every non-null id and for nothing else,
     * so it has one entry fewer than `num_players` exactly when the table
     * holds a null id.
     */
    lemma DeathStatsSize(stats: Dict<SteamId, TickStats>)
      requires IsDeathStats(stats)
      ensures forall id :: id in Keys(stats) <==> Some(id) in Ids(table)
      ensures |stats| == NumPlayers() - (if None in Ids(table) then 1 else 0)
    {
      DropNaLength(Keys(Players()));
    }
  }
}
