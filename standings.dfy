/**
 * The standings query engine behind the dashboard: the ranking row, the sort
 * specification and its toggle rule, the column sort indicator, the choice of
 * collection by tab, the name filter and the three-way comparator used to
 * order the visible rows, with the properties that make the view well defined.
 */
module Standings {
  import opened JsStrings
  import ArraySort

  /** One leaderboard row, as read from the ratings table. The rating is kept
      as a real number and only ever compared with `<`. */
  datatype Ranking = Ranking(
    id: int,
    playerName: string,
    rankPosition: int,
    rating: real,
    roundsPlayed: int,
    validFrom: string,
    isCurrent: bool)

  /** The four columns whose headers are sort buttons. */
  datatype SortKey = RankPosition | PlayerName | RoundsPlayed | Rating

  datatype Direction = Asc | Desc

  datatype SortConfig = SortConfig(key: SortKey, direction: Direction)

  /** The two leaderboards the tab switch chooses between. */
  datatype Tab = Doubles | Singles

  /** The mark shown beside a column header: neutral, trending up or trending down. */
  datatype Indicator = Neutral | Up | Down

  const InitialTab: Tab := Doubles
  const InitialSort: SortConfig := SortConfig(RankPosition, Asc)

  // ---------------------------------------------------------------------------
  // Sort toggle and indicator
  // ---------------------------------------------------------------------------

  /** The sort specification after a click on the header of `key`. */
  function Toggle(current: SortConfig, key: SortKey): (next: SortConfig)
    ensures next.key == key
    ensures next.direction == Desc <==> current.key == key && current.direction == Asc
  {
    SortConfig(key, if current.key == key && current.direction == Asc then Desc else Asc)
  }

  /** Two clicks on the column already sorted on give back the sort one started with. */
  lemma ToggleTwiceRestores(current: SortConfig, key: SortKey)
    requires current.key == key
    ensures Toggle(Toggle(current, key), key) == current
  {
  }

  /** A click on a column other than the sorted one always sorts ascending, and a
      second click on it then sorts descending. */
  lemma ToggleNewColumn(current: SortConfig, key: SortKey)
    requires current.key != key
    ensures Toggle(current, key) == SortConfig(key, Asc)
    ensures Toggle(Toggle(current, key), key) == SortConfig(key, Desc)
  {
  }

  /** The indicator a column header shows under the sort specification `config`. */
  function SortIndicator(config: SortConfig, column: SortKey): (mark: Indicator)
    ensures mark == Neutral <==> config.key != column
    ensures mark == Up <==> config.key == column && config.direction == Asc
    ensures mark == Down <==> config.key == column && config.direction == Desc
  {
    if config.key != column then Neutral
    else match config.direction
      case Asc => Up
      case Desc => Down
  }

  /** The four sortable column headers of the table. */
  const Columns: set<SortKey> := {RankPosition, PlayerName, RoundsPlayed, Rating}

  /** Of the four headers, exactly one shows a direction mark: the sorted one. */
  lemma OneMarkedColumn(config: SortConfig)
    ensures (set c | c in Columns && SortIndicator(config, c) != Neutral) == {config.key}
  {
    var marked := set c | c in Columns && SortIndicator(config, c) != Neutral;
    assert config.key in Columns;
    assert config.key in marked;
  }

  // ---------------------------------------------------------------------------
  // Collection choice and name filter
  // ---------------------------------------------------------------------------

  /** The collection shown for the active tab. */
  function PickCollection(tab: Tab, singles: seq<Ranking>, doubles: seq<Ranking>): (rows: seq<Ranking>)
    ensures tab == Doubles ==> rows == doubles
    ensures tab != Doubles ==> rows == singles
  {
    if tab == Doubles then doubles else singles
  }

  /** A row passes the search box when its lowercased name includes the lowercased query. */
  predicate Matches(row: Ranking, query: string)
    ensures Matches(row, query) ==> |query| <= |row.playerName|
  {
    Contains(Lower(row.playerName), Lower(query))
  }

  /** The rows of `rows` that match `query`, in their original order. */
  function KeepMatching(rows: seq<Ranking>, query: string): (kept: seq<Ranking>)
    ensures |kept| <= |rows|
    ensures forall x :: multiset(kept)[x] == if Matches(x, query) then multiset(rows)[x] else 0
    decreases |rows|
  {
    if rows == [] then []
    else
      var rest := KeepMatching(rows[1..], query);
      assert rows == [rows[0]] + rows[1..];
      (if Matches(rows[0], query) then [rows[0]] else []) + rest
  }

  /** The search step of the view: an empty query keeps the collection as it is,
      any other query keeps exactly the matching rows. */
  function Filter(rows: seq<Ranking>, query: string): (kept: seq<Ranking>)
    ensures query == "" ==> kept == rows
    ensures query != "" ==> kept == KeepMatching(rows, query)
  {
    if query != "" then KeepMatching(rows, query) else rows
  }

  /** Every kept row matches the query, and every matching row is kept, as often
      as it occurs in the collection. */
  lemma FilterSoundAndComplete(rows: seq<Ranking>, query: string)
    ensures forall x :: x in Filter(rows, query) ==> x in rows && (query == "" || Matches(x, query))
    ensures forall x :: x in rows && (query == "" || Matches(x, query)) ==> x in Filter(rows, query)
    ensures forall x :: x in rows && (query == "" || Matches(x, query)) ==>
                          multiset(Filter(rows, query))[x] == multiset(rows)[x]
  {
    var kept := Filter(rows, query);
    forall x | x in kept
      ensures x in rows && (query == "" || Matches(x, query))
    {
      assert x in multiset(kept);
    }
    forall x | x in rows && (query == "" || Matches(x, query))
      ensures x in kept
    {
      assert x in multiset(rows);
      assert x in multiset(kept);
    }
  }

  /** A query that no name includes leaves nothing to show. */
  lemma FilterNoMatch(rows: seq<Ranking>, query: string)
    requires query != ""
    requires forall x :: x in rows ==> !Matches(x, query)
    ensures Filter(rows, query) == []
  {
  }

  // ---------------------------------------------------------------------------
  // The comparator
  // ---------------------------------------------------------------------------

  /** The value of a row's sort column: numbers for the numeric columns, text for the name. */
  datatype Value = Number(n: real) | Text(s: string)

  /** `row[key]`. */
  function Field(row: Ranking, key: SortKey): (v: Value)
    ensures v.Text? <==> key == PlayerName
  {
    match key
    case RankPosition => Number(row.rankPosition as real)
    case PlayerName => Text(row.playerName)
    case RoundsPlayed => Number(row.roundsPlayed as real)
    case Rating => Number(row.rating)
  }

  /** The `<` of the comparator: numeric order on numbers, string order on text. */
  predicate Less(u: Value, v: Value)
    ensures Less(u, v) ==> u != v && u.Number? == v.Number?
  {
    match (u, v)
    case (Number(x), Number(y)) => x < y
    case (Text(x), Text(y)) => StrLess(x, y)
    case _ => false
  }

  /** On two values of one column, exactly one of `<`, `==` and `>` holds. */
  lemma LessTrichotomy(u: Value, v: Value)
    requires u.Text? == v.Text?
    ensures u == v || Less(u, v) || Less(v, u)
    ensures !(Less(u, v) && Less(v, u))
    ensures u == v ==> !Less(u, v)
  {
    if u.Text? {
      StrLessAsymmetric(u.s, v.s);
      StrLessIrreflexive(u.s);
      if u != v {
        StrLessTotal(u.s, v.s);
      }
    }
  }

  lemma LessTransitive(u: Value, v: Value, w: Value)
    requires Less(u, v) && Less(v, w)
    ensures Less(u, w)
  {
    if u.Text? {
      StrLessTransitive(u.s, v.s, w.s);
    }
  }

  /** The sort callback: negative when `a` goes first, positive when `b` goes
      first, zero when the two rows tie on the sort column. */
  function Compare(a: Ranking, b: Ranking, config: SortConfig): (c: int)
    ensures c == -1 || c == 0 || c == 1
    ensures c == 0 <==> Field(a, config.key) == Field(b, config.key)
  {
    var x, y := Field(a, config.key), Field(b, config.key);
    LessTrichotomy(x, y);
    if Less(x, y) then (if config.direction == Asc then -1 else 1)
    else if Less(y, x) then (if config.direction == Asc then 1 else -1)
    else 0
  }

  /** `a` may stand before `b`: for `asc` the column does not decrease from `a`
      to `b`, for `desc` it does not increase. */
  lemma CompareMeaning(a: Ranking, b: Ranking, config: SortConfig)
    ensures Compare(a, b, config) <= 0 <==>
      if config.direction == Asc then !Less(Field(b, config.key), Field(a, config.key))
      else !Less(Field(a, config.key), Field(b, config.key))
  {
    LessTrichotomy(Field(a, config.key), Field(b, config.key));
  }

  lemma CompareAntisymmetric(a: Ranking, b: Ranking, config: SortConfig)
    ensures Compare(a, b, config) == -Compare(b, a, config)
  {
    LessTrichotomy(Field(a, config.key), Field(b, config.key));
  }

  /** Sorting descending compares as sorting ascending with the arguments swapped. */
  lemma CompareDescIsSwappedAsc(a: Ranking, b: Ranking, key: SortKey)
    ensures Compare(a, b, SortConfig(key, Desc)) == Compare(b, a, SortConfig(key, Asc))
  {
    LessTrichotomy(Field(a, key), Field(b, key));
  }

  /** "May stand before" is transitive, so the comparator is consistent. */
  lemma CompareTransitive(a: Ranking, b: Ranking, c: Ranking, config: SortConfig)
    requires Compare(a, b, config) <= 0 && Compare(b, c, config) <= 0
    ensures Compare(a, c, config) <= 0
  {
    var x, y, z := Field(a, config.key), Field(b, config.key), Field(c, config.key);
    CompareMeaning(a, b, config);
    CompareMeaning(b, c, config);
    CompareMeaning(a, c, config);
    LessTrichotomy(x, y);
    LessTrichotomy(y, z);
    if config.direction == Asc {
      if Less(z, x) {
        if Less(x, y) {
          LessTransitive(z, x, y);
        }
      }
    } else {
      if Less(x, z) {
        if Less(y, x) {
          LessTransitive(y, x, z);
        }
      }
    }
  }

  /** The comparator as the function value handed to the array sort. */
  function Comparator(config: SortConfig): (cmp: (Ranking, Ranking) -> int)
    ensures forall a, b :: -1 <= cmp(a, b) <= 1
    ensures forall a, b :: cmp(a, b) == 0 <==> Field(a, config.key) == Field(b, config.key)
  {
    (a: Ranking, b: Ranking) => Compare(a, b, config)
  }

  /** The comparator meets what the array sort requires of one: it is total and
      its "may precede" is transitive. */
  lemma ComparatorConsistent(config: SortConfig)
    ensures ArraySort.Total(Comparator(config))
    ensures ArraySort.Transitive(Comparator(config))
  {
    var cmp := Comparator(config);
    forall x, y
      ensures cmp(x, y) <= 0 || cmp(y, x) <= 0
    {
      CompareAntisymmetric(x, y, config);
    }
    forall x, y, z | cmp(x, y) <= 0 && cmp(y, z) <= 0
      ensures cmp(x, z) <= 0
    {
      CompareTransitive(x, y, z, config);
    }
  }

  // ---------------------------------------------------------------------------
  // Sortedness
  // ---------------------------------------------------------------------------

  /** No pair of rows is out of order under the comparator. */
  ghost predicate Sorted(s: seq<Ranking>, config: SortConfig)
  {
    forall i, j :: 0 <= i < j < |s| ==> Compare(s[i], s[j], config) <= 0
  }

  /** A sequence is sorted as soon as each row may stand before the next one. */
  lemma {:induction false} AdjacentOrderIsSorted(s: seq<Ranking>, config: SortConfig)
    requires forall i :: 0 <= i < |s| - 1 ==> Compare(s[i], s[i + 1], config) <= 0
    ensures Sorted(s, config)
    decreases |s|
  {
    if |s| > 1 {
      var t := s[1..];
      AdjacentOrderIsSorted(t, config);
      forall j | 1 < j < |s|
        ensures Compare(s[0], s[j], config) <= 0
      {
        assert Compare(s[1], s[j], config) <= 0 by {
          assert s[1] == t[0] && s[j] == t[j - 1];
        }
        CompareTransitive(s[0], s[1], s[j], config);
      }
      forall i, j | 0 <= i < j < |s|
        ensures Compare(s[i], s[j], config) <= 0
      {
        if i > 0 {
          assert s[i] == t[i - 1] && s[j] == t[j - 1];
        }
      }
    }
  }

  /** On a sorted sequence, the sort column does not decrease (ascending) or does
      not increase (descending) from one row to the next. */
  lemma SortedIsOrderedByColumn(s: seq<Ranking>, config: SortConfig, i: int)
    requires Sorted(s, config)
    requires 0 <= i < |s| - 1
    ensures config.direction == Asc ==> !Less(Field(s[i + 1], config.key), Field(s[i], config.key))
    ensures config.direction == Desc ==> !Less(Field(s[i], config.key), Field(s[i + 1], config.key))
  {
    CompareMeaning(s[i], s[i + 1], config);
  }

  /** No two distinct rows of `s` share a value in the column `key`. */
  ghost predicate DistinctKeys(s: seq<Ranking>, key: SortKey)
  {
    forall x, y :: x in s && y in s && Field(x, key) == Field(y, key) ==> x == y
  }

  /** The first row of a sorted sequence may stand before every row of it. */
  lemma SortedFirstIsLeast(s: seq<Ranking>, config: SortConfig, x: Ranking)
    requires Sorted(s, config)
    requires x in s
    ensures Compare(s[0], x, config) <= 0
  {
    var i :| 0 <= i < |s| && s[i] == x;
    if i > 0 {
      assert Compare(s[0], s[i], config) <= 0;
    }
  }

  /** Two sorted arrangements of one collection with distinct keys start with the same row. */
  lemma SortedSameFirst(s: seq<Ranking>, t: seq<Ranking>, config: SortConfig)
    requires multiset(s) == multiset(t) && |s| > 0
    requires Sorted(s, config) && Sorted(t, config)
    requires DistinctKeys(s, config.key)
    ensures |t| > 0 && s[0] == t[0]
  {
    assert s[0] in multiset(t) && t[0] in multiset(s);
    SortedFirstIsLeast(s, config, t[0]);
    SortedFirstIsLeast(t, config, s[0]);
    CompareAntisymmetric(s[0], t[0], config);
  }

  /** With distinct keys there is only one sorted arrangement of a collection. */
  lemma {:induction false} SortedPermutationUnique(s: seq<Ranking>, t: seq<Ranking>, config: SortConfig)
    requires multiset(s) == multiset(t)
    requires Sorted(s, config) && Sorted(t, config)
    requires DistinctKeys(s, config.key)
    ensures s == t
    decreases |s|
  {
    if |s| == 0 {
      assert |t| == |multiset(t)| == 0;
    } else {
      SortedSameFirst(s, t, config);
      SameRowsTail(s, t);
      SortedTail(s, config);
      SortedTail(t, config);
      DistinctKeysTail(s, config.key);
      SortedPermutationUnique(s[1..], t[1..], config);
    }
  }

  /** Removing a common first row from two arrangements of one collection leaves
      two arrangements of one collection. */
  lemma SameRowsTail(s: seq<Ranking>, t: seq<Ranking>)
    requires multiset(s) == multiset(t) && |s| > 0 && |t| > 0 && s[0] == t[0]
    ensures multiset(s[1..]) == multiset(t[1..])
  {
    assert s == [s[0]] + s[1..] && t == [t[0]] + t[1..];
    assert multiset(s) == multiset{s[0]} + multiset(s[1..]);
    assert multiset(t) == multiset{s[0]} + multiset(t[1..]);
    forall x
      ensures multiset(s[1..])[x] == multiset(t[1..])[x]
    {
      assert multiset(s)[x] == multiset{s[0]}[x] + multiset(s[1..])[x];
      assert multiset(t)[x] == multiset{s[0]}[x] + multiset(t[1..])[x];
    }
  }

  lemma SortedTail(s: seq<Ranking>, config: SortConfig)
    requires Sorted(s, config) && |s| > 0
    ensures Sorted(s[1..], config)
  {
    forall i, j | 0 <= i < j < |s| - 1
      ensures Compare(s[1..][i], s[1..][j], config) <= 0
    {
      assert s[1..][i] == s[i + 1] && s[1..][j] == s[j + 1];
    }
  }

  lemma DistinctKeysTail(s: seq<Ranking>, key: SortKey)
    requires DistinctKeys(s, key) && |s| > 0
    ensures DistinctKeys(s[1..], key)
  {
    assert forall x :: x in s[1..] ==> x in s;
  }

  /** The rows of `s` in the opposite order. */
  function Reverse(s: seq<Ranking>): (r: seq<Ranking>)
    ensures |r| == |s|
    ensures forall i :: 0 <= i < |s| ==> r[i] == s[|s| - 1 - i]
  {
    seq(|s|, i requires 0 <= i < |s| => s[|s| - 1 - i])
  }

  lemma {:induction false} ReverseSameRows(s: seq<Ranking>)
    ensures multiset(Reverse(s)) == multiset(s)
    decreases |s|
  {
    if |s| > 0 {
      var n := |s| - 1;
      ReverseSameRows(s[..n]);
      assert Reverse(s) == [s[n]] + Reverse(s[..n]);
      assert s == s[..n] + [s[n]];
    }
  }

  /** The two directions of one column give opposite arrangements: when no two
      rows tie on the column, the descending view is the ascending view reversed. */
  lemma DescIsReverseOfAsc(rows: seq<Ranking>, up: seq<Ranking>, down: seq<Ranking>, key: SortKey)
    requires multiset(up) == multiset(rows) && multiset(down) == multiset(rows)
    requires Sorted(up, SortConfig(key, Asc)) && Sorted(down, SortConfig(key, Desc))
    requires DistinctKeys(rows, key)
    ensures down == Reverse(up)
  {
    var back := Reverse(down);
    ReverseSameRows(down);
    forall i, j | 0 <= i < j < |back|
      ensures Compare(back[i], back[j], SortConfig(key, Asc)) <= 0
    {
      CompareDescIsSwappedAsc(down[|down| - 1 - j], down[|down| - 1 - i], key);
    }
    forall x | x in up
      ensures x in rows
    {
      assert x in multiset(up);
    }
    SortedPermutationUnique(up, back, SortConfig(key, Asc));
    assert Reverse(back) == down;
  }

  /** Two rows that differ in every sortable column. */
  const Zed: Ranking := Ranking(1, "Zed", 2, 4.1, 12, "2024-01-01", true)
  const Amy: Ranking := Ranking(2, "Amy", 1, 4.8, 20, "2024-01-01", true)

  /** Amy precedes Zed under each of the three sorts of the example. */
  lemma AmyPrecedesZed(config: SortConfig)
    requires config == SortConfig(RankPosition, Asc) || config == SortConfig(PlayerName, Asc) ||
             config == SortConfig(Rating, Desc)
    ensures Sorted([Amy, Zed], config)
    ensures DistinctKeys([Amy, Zed], config.key)
  {
    assert StrLess("Amy", "Zed");
    assert Compare(Amy, Zed, config) <= 0;
  }

  /** Sorting [Zed, Amy] by rank ascending, by name ascending or by rating
      descending always shows Amy first. */
  lemma AmyBeforeZed(view: seq<Ranking>, config: SortConfig)
    requires config == SortConfig(RankPosition, Asc) || config == SortConfig(PlayerName, Asc) ||
             config == SortConfig(Rating, Desc)
    requires multiset(view) == multiset([Zed, Amy])
    requires Sorted(view, config)
    ensures view == [Amy, Zed]
  {
    assert multiset([Amy, Zed]) == multiset([Zed, Amy]);
    AmyPrecedesZed(config);
    SortedPermutationUnique([Amy, Zed], view, config);
  }
}
