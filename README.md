# demolyzer player statistics in Dafny

This project models `DemoAnalyzer`, the per-player aggregation over the tick
table of one recorded match. A table row is one tick of one player. It carries
a steam id (which may be null), a player name and a lifecycle state such as
`"Alive"` or `"Death"`. The analyzer answers three queries over its table:

- `players`: a dict from steam id to player name. It has one entry per distinct
  id, keeps the name on that id's first row, and lists ids in order of first
  appearance.
- `num_players`: the number of distinct steam-id values.
- `death_stats`: for every non-null id of `players`, the number of that
  player's rows in state `"Alive"` and in state `"Death"`. A count with no rows
  is reported as absent (`None`), never as 0.

Layout:

- `wrappers.dfy` (module `Wrappers`): `Option`, which stands for a pandas null
  and for a missing dict key.
- `dicts.dfy` (module `Dicts`): Python's insertion-ordered `dict` as a sequence
  of (key, value) pairs with distinct keys. It covers assignment `d[k] = v`,
  building a dict from pairs, `zip`, and `dict.get`.
- `frame.dfy` (module `Frame`): the table (`Row`, `Table`) and the pandas
  operations the analyzer uses. These are column selection, `unique`,
  `drop_duplicates` on the steam-id column, the null test, the row filter by
  id and `value_counts`. It also holds `CountRows`, a direct count of one id's
  rows in one state that serves as the reference for the filter-then-count
  pipeline.
- `stats.dfy` (module `Stats`): the class `DemoAnalyzer`. It holds the table in
  a field that only the constructor writes. `Players` and `NumPlayers` are
  functions of the table. `DeathStats` is a method with the source's loop over
  the players, which skips null ids and assigns each other id's entry.

A null id is treated as pandas treats it. `drop_duplicates` and `unique` both
keep one null as a value, so `players` has a null key and `num_players` counts
it when the table holds a null id. Only `death_stats` skips it, and
`DeathStatsSize` states the resulting difference of exactly one.

## Model

| member | source | states |
|---|---|---|
| `Frame.Unique` | demolyzer/stats.py:48 | The result holds no value twice, and a value is in it exactly when it occurs in the column, a null included. |
| `Frame.UniqueFirstAppearanceOrder` | demolyzer/stats.py:35-39 | The values of `Unique(s)` are ordered by the position of their first occurrence in `s`. |
| `Frame.UniqueCount` | demolyzer/stats.py:48 | The length of `Unique(s)` equals the number of distinct values of `s`. |
| `Frame.DropDuplicates` | demolyzer/stats.py:35 | The ids of the kept rows are exactly `Unique` of the table's ids: one row per distinct id, in first-appearance order. |
| `Frame.DropDuplicatesKeepsFirst` | demolyzer/stats.py:35 | Every kept row is the table's first row with that id. |
| `Frame.DropNa` | demolyzer/stats.py:62-63 | An id is in the result exactly when it occurs non-null in the input. |
| `Frame.DropNaStep` | demolyzer/stats.py:61-63 | Taking one more id of a distinct id sequence adds nothing for a null and appends a new, unseen id otherwise. |
| `Frame.DropNaLength` | demolyzer/stats.py:61-63 | Dropping nulls keeps a distinct id sequence distinct and shortens it by one exactly when it held a null. |
| `Frame.Where` | demolyzer/stats.py:64 | Each row occurs in the result as often as in the table if it carries the id, and otherwise not at all. |
| `Frame.ValueCounts` | demolyzer/stats.py:65 | Counting the column one value at a time yields a key exactly for each value that occurs, holding the number of its occurrences in the column. |
| `Frame.StateCountInWhere` | demolyzer/stats.py:64-65 | Filtering by id and then counting a state gives the direct count of that id's rows in that state. |
| `Frame.CountRowsAppend` | demolyzer/stats.py:64-65 | The direct count over two concatenated tables is the sum of the counts over each. |
| `Frame.TwoStatesBounded` | demolyzer/stats.py:65-69 | The counts of two different states for one id add up to at most that id's number of rows. |
| `Dicts.Assign` | demolyzer/stats.py:66-69 | Dict assignment keeps keys distinct. An existing key keeps its position and takes the new value. A new key is appended. |
| `Dicts.FromPairs` | demolyzer/stats.py:37 | A dict built from pairs has distinct keys, has a key exactly for each key among the pairs, and each entry is the last pair with that key. |
| `Dicts.AssignLast` | demolyzer/stats.py:37 | Assigning one more pair keeps the dict holding, for each key, the last pair with that key. |
| `Frame.FromPairsKeys` | demolyzer/stats.py:37 | The keys of a dict built from pairs are `Unique` of the pairs' keys, so each appears once, in order of its first pair. |
| `Dicts.FromDistinctPairs` | demolyzer/stats.py:37 | Pairs whose keys are already distinct become a dict with the same entries in the same order. |
| `Stats.TickStatsOf` | demolyzer/stats.py:64-68 | The alive and death entries are the direct counts of that id's rows in that state, `None` when the count is zero, and never `Some(0)`. |
| `Stats.TickCountsBounded` | demolyzer/stats.py:65-69 | Alive plus death ticks, reading `None` as 0, is at most the player's number of rows. |
| `Stats.OtherRowsIgnored` | demolyzer/stats.py:64-69 | Inserting a row of another player, or a row in any state other than `"Alive"` and `"Death"`, leaves a player's entry unchanged. |
| `Stats.SkipNull` | demolyzer/stats.py:62-63 | Skipping a null id keeps the dict built so far equal to the entries for the non-null ids seen so far. |
| `Stats.EnterId` | demolyzer/stats.py:64-69 | Assigning a non-null id's entry appends it and keeps the dict equal to the entries for the non-null ids seen so far. |
| `Stats.DemoAnalyzer.constructor` | demolyzer/stats.py:11-26 | The analyzer holds the given table and demo path. |
| `Stats.DemoAnalyzer.Players` | demolyzer/stats.py:28-39 | The keys are exactly `Unique` of the steam-id column: each distinct id once, a null included, in first-appearance order. |
| `Stats.DemoAnalyzer.PlayersKeepFirstName` | demolyzer/stats.py:35-37 | The name recorded for each id is the name on the first row carrying that id. |
| `Stats.DemoAnalyzer.PlayersInFirstAppearanceOrder` | demolyzer/stats.py:35-39 | The keys are distinct and cover exactly the table's id values, and a key's first row comes before the next key's first row. |
| `Stats.DemoAnalyzer.NumPlayers` | demolyzer/stats.py:41-48 | The count equals the number of distinct steam-id values, a null counted once, and equals the number of entries of `Players`. |
| `Stats.DemoAnalyzer.DeathStats` | demolyzer/stats.py:54-71 | The keys are the non-null keys of `Players` in the same order, and each value is `TickStatsOf` for that id. |
| `Stats.DemoAnalyzer.DeathStatsDeterministic` | demolyzer/stats.py:60-71 | Two results that meet the `DeathStats` contract are equal, so repeated calls return identical dicts. |
| `Stats.DemoAnalyzer.DeathStatsSize` | demolyzer/stats.py:48 | The result has an entry for every non-null id in the table and for nothing else. It has one entry fewer than `NumPlayers` exactly when the table holds a null id. |

## Left out

- `__init__` beyond storing its results: it builds the CSV cache path, reads or writes the CSV file, and calls the demo parser in `demolyzer/demo_utils.py`. That is file I/O and foreign parsing, and `demolyzer/demo_utils.py` is not part of this model. The constructor takes the already-parsed table and the demo path instead.
- `duration`: it has no body in the source and returns `None`, so no formula is modelled.
- `__str__`: presentation only.
- Null player names and null states: names and states are plain strings. pandas `value_counts` would drop a null state, and such a state could be neither `"Alive"` nor `"Death"` anyway.
- The numeric type of the id column: a steam id is an opaque string. pandas may read ids as integers or floats from the CSV, but only equality of ids matters here.
- The order of the `value_counts` result: it is modelled as a Dafny `map` because the source only looks keys up in it.
