/**
 * The dashboard component's state and handlers: the two leaderboards, the
 * active tab, the search text and the sort specification, the handlers that
 * update them, and the derivation of the visible rows.
 */
module DashboardState {
  import opened Wrappers
  import opened Standings
  import opened ArraySort

  class Dashboard {
    var singles: seq<Ranking>
    var doubles: seq<Ranking>
    var activeTab: Tab
    var searchQuery: string
    var sortConfig: SortConfig

    /** The state before any data has arrived: no rows, the doubles tab, no
        search text, sorted by rank ascending. */
    constructor ()
      ensures singles == [] && doubles == []
      ensures activeTab == Doubles && searchQuery == ""
      ensures sortConfig == SortConfig(RankPosition, Asc)
    {
      singles, doubles := [], [];
      activeTab := InitialTab;
      searchQuery := "";
      sortConfig := InitialSort;
    }

    /** The end of the initial load: each leaderboard is replaced by the rows the
        store returned for it, and kept as it was when the store returned none. */
    method ReceiveRankings(singlesData: Option<seq<Ranking>>, doublesData: Option<seq<Ranking>>)
      modifies this
      ensures singles == (if singlesData.Some? then singlesData.value else old(singles))
      ensures doubles == (if doublesData.Some? then doublesData.value else old(doubles))
      ensures activeTab == old(activeTab) && searchQuery == old(searchQuery)
      ensures sortConfig == old(sortConfig)
    {
      if singlesData.Some? {
        singles := singlesData.value;
      }
      if doublesData.Some? {
        doubles := doublesData.value;
      }
    }

    /** A click on one of the two tab buttons. */
    method SetTab(tab: Tab)
      modifies this
      ensures activeTab == tab
      ensures singles == old(singles) && doubles == old(doubles)
      ensures searchQuery == old(searchQuery) && sortConfig == old(sortConfig)
    {
      activeTab := tab;
    }

    /** An edit of the search box. */
    method SetSearch(query: string)
      modifies this
      ensures searchQuery == query
      ensures singles == old(singles) && doubles == old(doubles)
      ensures activeTab == old(activeTab) && sortConfig == old(sortConfig)
    {
      searchQuery := query;
    }

    /** A click on the header of column `key`: the same column ascending flips to
        descending, anything else sorts on `key` ascending. */
    method HandleSort(key: SortKey)
      modifies this
      ensures sortConfig == Toggle(old(sortConfig), key)
      ensures sortConfig.key == key
      ensures sortConfig.direction == Desc <==> old(sortConfig) == SortConfig(key, Asc)
      ensures singles == old(singles) && doubles == old(doubles)
      ensures activeTab == old(activeTab) && searchQuery == old(searchQuery)
    {
      sortConfig := Toggle(sortConfig, key);
    }

    /** The collection of the active tab. */
    function CurrentData(): (rows: seq<Ranking>)
      reads this
      ensures activeTab == Doubles ==> rows == doubles
      ensures activeTab == Singles ==> rows == singles
    {
      PickCollection(activeTab, singles, doubles)
    }

    /** The rows the table shows: the active collection, copied, narrowed by the
        search text, and sorted by the sort specification. The component's own
        state is not modified: the sort runs on a fresh array. */
    method SortedAndFilteredData() returns (view: seq<Ranking>)
      ensures multiset(view) == multiset(Filter(CurrentData(), searchQuery))
      ensures Sorted(view, sortConfig)
    {
      var current := CurrentData();
      var data := new Ranking[|current|](i requires 0 <= i < |current| => current[i]);
      assert data[..] == current;
      if searchQuery != "" {
        var kept := KeepMatching(data[..], searchQuery);
        data := new Ranking[|kept|](i requires 0 <= i < |kept| => kept[i]);
        assert data[..] == kept;
      }
      assert data[..] == Filter(current, searchQuery);
      ComparatorConsistent(sortConfig);
      SortInPlace(data, Comparator(sortConfig));
      view := data[..];
    }
  }

  /** Two clicks on the sorted column show the rows of one direction reversed
      into the other, when no two visible rows tie on that column. */
  method SortTwiceReverses(d: Dashboard, key: SortKey) returns (up: seq<Ranking>, down: seq<Ranking>)
    requires d.sortConfig == SortConfig(key, Asc)
    requires DistinctKeys(Filter(d.CurrentData(), d.searchQuery), key)
    modifies d
    ensures down == Reverse(up)
  {
    up := d.SortedAndFilteredData();
    d.HandleSort(key);
    down := d.SortedAndFilteredData();
    DescIsReverseOfAsc(Filter(d.CurrentData(), d.searchQuery), up, down, key);
  }
}
