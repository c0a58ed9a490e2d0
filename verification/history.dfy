/** The in-memory search history (`save_search_to_history`): a log of at most 50 entries that
    keeps the most recent ones. Reading and writing the history file is not part of this model. */
module History {
  import opened Selection

  /** How many entries the history keeps. */
  const MaxHistory: nat := 50

  /** One recorded search; the timestamp is `datetime.now().isoformat()`, supplied from outside. */
  datatype HistoryEntry = HistoryEntry(timestamp: string, question: string, query: string, result: Selected)

  /** The last `n` elements of `s` (all of them when there are fewer). */
  function KeepLast<T>(s: seq<T>, n: nat): (r: seq<T>)
    ensures |r| == if |s| < n then |s| else n
    ensures r == s[|s| - |r|..]
  {
    if |s| <= n then s else s[|s| - n..]
  }

  /** Appending to the history: the new entry goes last and, once there are more than
      `MaxHistory` entries, the oldest are dropped. */
  function AppendEntry(log: seq<HistoryEntry>, entry: HistoryEntry): (r: seq<HistoryEntry>)
    ensures |r| == if |log| + 1 < MaxHistory then |log| + 1 else MaxHistory
    ensures r[|r| - 1] == entry
  {
    var appended := log + [entry];
    var r := if |appended| > MaxHistory then appended[|appended| - MaxHistory..] else appended;
    r
  }

  /** Appending is keeping the last `MaxHistory` entries of the log followed by the new entry. */
  lemma AppendKeepsLast(log: seq<HistoryEntry>, entry: HistoryEntry)
    ensures AppendEntry(log, entry) == KeepLast(log + [entry], MaxHistory)
  {
  }

  /** Trimming in between does not change what a later trim keeps. */
  lemma KeepLastAbsorbs<T>(s: seq<T>, t: seq<T>, n: nat)
    ensures KeepLast(KeepLast(s, n) + t, n) == KeepLast(s + t, n)
  {
    if |s| > n {
      var d := |s| - n;
      assert KeepLast(s, n) + t == (s + t)[d..];
      KeepLastOfSuffix(s + t, d, n);
    } else {
      assert KeepLast(s, n) == s;
    }
  }

  /** Dropping a prefix that the trim would drop anyway changes nothing. */
  lemma KeepLastOfSuffix<T>(x: seq<T>, d: nat, n: nat)
    requires d + n <= |x|
    ensures KeepLast(x[d..], n) == KeepLast(x, n)
  {
    assert x[d..][|x| - d - n..] == x[|x| - n..];
  }

  /** Appending entries one at a time keeps the last `MaxHistory` of the old log followed by all
      of them. */
  function AppendAll(log: seq<HistoryEntry>, entries: seq<HistoryEntry>): (r: seq<HistoryEntry>)
    ensures entries == [] ==> r == log
    ensures entries != [] ==> |r| == if |log| + |entries| < MaxHistory then |log| + |entries| else MaxHistory
    ensures entries != [] ==> r[|r| - 1] == entries[|entries| - 1]
    decreases |entries|
  {
    if entries == [] then log else AppendAll(AppendEntry(log, entries[0]), entries[1..])
  }

  lemma AppendAllCons(log: seq<HistoryEntry>, entry: HistoryEntry, entries: seq<HistoryEntry>)
    ensures AppendAll(log, [entry] + entries) == AppendAll(AppendEntry(log, entry), entries)
  {
    assert ([entry] + entries)[1..] == entries;
  }

  lemma {:induction false} AppendAllKeepsLast(log: seq<HistoryEntry>, entries: seq<HistoryEntry>)
    requires entries != []
    ensures AppendAll(log, entries) == KeepLast(log + entries, MaxHistory)
    decreases |entries|
  {
    var e := entries[0];
    var rest := entries[1..];
    assert log + entries == (log + [e]) + rest;
    AppendKeepsLast(log, e);
    if rest == [] {
      assert AppendAll(log, entries) == AppendAll(AppendEntry(log, e), rest);
    } else {
      AppendAllKeepsLast(AppendEntry(log, e), rest);
      KeepLastAbsorbs(log + [e], rest, MaxHistory);
    }
  }

  /** After `N` recorded searches starting from an empty history there are `min(N, 50)` entries,
      and they are the most recent ones in the order they were recorded. */
  lemma HistoryWindow(entries: seq<HistoryEntry>)
    ensures var h := AppendAll([], entries);
      && |h| == (if |entries| < MaxHistory then |entries| else MaxHistory)
      && h == entries[|entries| - |h|..]
  {
    var h := AppendAll([], entries);
    if entries == [] {
      assert h == [];
    } else {
      AppendAllKeepsLast([], entries);
      assert [] + entries == entries;
      assert h == KeepLast(entries, MaxHistory);
    }
  }
}
