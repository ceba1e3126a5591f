/** The `get-logs` query: a snapshot of the store, optionally narrowed by a
    case-insensitive text filter and by a timestamp, then cut to the last
    `lines` entries and reversed. */
module Query {
  import opened Wrappers
  import opened Js
  import opened IsoTime
  import opened LogStore

  /** `line.slice(1, line.indexOf("]"))`: the text between the opening
      bracket and the first closing bracket. */
  function EntryTimestamp(e: string): string {
    Slice(e, 1, IndexOf(e, ']'))
  }

  /** `new Date(<entry timestamp>).getTime()`; `None` is `NaN`. */
  function EntryTime(e: string): Option<int> {
    GetTime(EntryTimestamp(e))
  }

  /** The text filter: the entry, including its `[timestamp] ` prefix,
      contains `filter` when both are lower-cased. */
  predicate MatchesFilter(filter: string, e: string) {
    Includes(ToLower(e), ToLower(filter))
  }

  /** The time filter: the entry's timestamp parses and is later than
      `since` (`NaN > since` is false). */
  predicate IsNewerThan(since: int, e: string) {
    var t := EntryTime(e);
    t.Some? && t.value > since
  }

  /** `if (filter)`: present and not the empty string. */
  predicate FilterApplies(filter: Option<string>) {
    filter.Some? && filter.value != ""
  }

  /** `if (since)`: present and not zero. */
  predicate SinceApplies(since: Option<int>) {
    since.Some? && since.value != 0
  }

  /** Whether an entry passes both optional filters. */
  predicate Passes(filter: Option<string>, since: Option<int>, e: string) {
    (FilterApplies(filter) ==> MatchesFilter(filter.value, e))
    && (SinceApplies(since) ==> IsNewerThan(since.value, e))
  }

  /** The copy of the store after the optional filters: exactly the entries
      that pass both, in the store's order and with their repetitions. */
  function Selected(store: seq<string>, filter: Option<string>, since: Option<int>): (r: seq<string>)
    ensures r == Filter(store, e => Passes(filter, since, e))
  {
    var logs := store;
    var passes := e => Passes(filter, since, e);
    if FilterApplies(filter) then
      var matches := e => MatchesFilter(filter.value, e);
      if SinceApplies(since) then
        var newer := e => IsNewerThan(since.value, e);
        FilterTwice(logs, matches, newer, passes);
        Filter(Filter(logs, matches), newer)
      else
        FilterAgree(logs, matches, passes);
        Filter(logs, matches)
    else if SinceApplies(since) then
      var newer := e => IsNewerThan(since.value, e);
      FilterAgree(logs, newer, passes);
      Filter(logs, newer)
    else
      FilterKeepsAll(logs, passes);
      logs
  }

  /** The selection is a sub-multiset of the store; an entry is in it
      exactly when it is in the store and passes both filters. */
  lemma SelectedWithin(store: seq<string>, filter: Option<string>, since: Option<int>)
    ensures var r := Selected(store, filter, since);
      && multiset(r) <= multiset(store)
      && (forall e :: e in r ==> e in store && Passes(filter, since, e))
      && (forall e :: e in store && Passes(filter, since, e) ==> e in r)
  {
    var passes := e => Passes(filter, since, e);
    FilterSubMultiset(store, passes);
    var r := Filter(store, passes);
    forall e | e in store && Passes(filter, since, e)
      ensures e in r
    {
      var i :| 0 <= i < |store| && store[i] == e;
      assert passes(store[i]);
    }
    forall e | e in r
      ensures e in store && Passes(filter, since, e)
    {
      var i :| 0 <= i < |r| && r[i] == e;
      assert passes(r[i]);
    }
  }

  /** Neither filter applies: the whole store is selected, in order. */
  lemma SelectedWithoutFilters(store: seq<string>, filter: Option<string>, since: Option<int>)
    requires !FilterApplies(filter) && !SinceApplies(since)
    ensures Selected(store, filter, since) == store
  {
  }

  /** The handler body: `logs.slice(-lines).reverse()` of the selection. */
  function GetLogs(store: seq<string>, lines: int, filter: Option<string>, since: Option<int>): seq<string> {
    var logs := Selected(store, filter, since);
    Reverse(Slice(logs, -lines, |logs|))
  }

  /** The result holds the last `lines` selected entries, newest first. For
      `lines == 0` (`slice(-0)`) that is the whole selection; a negative
      `lines` instead drops that many of the oldest selected entries. */
  lemma GetLogsShape(store: seq<string>, lines: int, filter: Option<string>, since: Option<int>)
    ensures var sel, r := Selected(store, filter, since), GetLogs(store, lines, filter, since);
      && (lines > 0 ==> |r| == (if lines < |sel| then lines else |sel|)
                        && forall k :: 0 <= k < |r| ==> r[k] == sel[|sel| - 1 - k])
      && (lines == 0 ==> r == Reverse(sel))
      && (lines < 0 ==> r == Reverse(sel[if -lines < |sel| then -lines else |sel|..]))
  {
    ReverseSliceFromEnd(Selected(store, filter, since), lines);
  }

  /** The result is drawn from the store, every entry of it passes the
      filters that apply, and no entry appears more often than in the
      store. */
  lemma GetLogsFromStore(store: seq<string>, lines: int, filter: Option<string>, since: Option<int>)
    ensures var r := GetLogs(store, lines, filter, since);
      multiset(r) <= multiset(store)
      && forall k :: 0 <= k < |r| ==> r[k] in store && Passes(filter, since, r[k])
  {
    var sel := Selected(store, filter, since);
    SelectedWithin(store, filter, since);
    ReverseSliceWithin(sel, -lines, |sel|);
  }

  /** With two entries and no filter, the newer one comes first. */
  lemma NewestComesFirst(a: string, b: string)
    ensures GetLogs([a, b], 2, None, None) == [b, a]
  {
    assert Slice([a, b], -2, 2) == [a, b];
  }

  /** The text between `[` and the first `]` of `[<inner>] <rest>`, when
      `inner` has no `]`. */
  lemma BracketedText(inner: string, rest: string)
    requires ']' !in inner
    ensures EntryTimestamp("[" + inner + "] " + rest) == inner
  {
    var e := "[" + inner + "] " + rest;
    var k := |inner| + 1;
    assert e[..k] == "[" + inner;
    IndexOfAt(e, ']', k);
    assert e[1..k] == inner;
  }

  /** The timestamp text of a stored entry is the rendering it was made
      with. */
  lemma EntryTimestampOfStored(now: DateTime, line: string)
    requires ValidDateTime(now)
    ensures EntryTimestamp(FormatEntry(now, line)) == ToIsoString(now)
  {
    IsoStringHasNoBracket(now);
    BracketedText(ToIsoString(now), line);
  }

  /** The time filter reads back the timestamp a stored entry was made
      with. */
  lemma EntryTimeOfStored(now: DateTime, line: string)
    requires ValidDateTime(now)
    ensures EntryTime(FormatEntry(now, line)) == Some(EpochMillis(now))
  {
    EntryTimestampOfStored(now, line);
    GetTimeOfIso(now);
  }

  /** A stored entry passes a `since` filter exactly when it was stored
      after `since`. */
  lemma NewerThanIff(now: DateTime, line: string, since: int)
    requires ValidDateTime(now)
    ensures IsNewerThan(since, FormatEntry(now, line)) <==> EpochMillis(now) > since
  {
    EntryTimeOfStored(now, line);
  }

  /** The time filter reads an entry's own stamp. */
  lemma EntryTimeOfEntry(e: string)
    requires IsEntry(e)
    ensures EntryTime(e) == Some(EpochMillis(StampOf(e)))
  {
    assert ']' !in e[..25] by {
      assert e[..25] == [e[0]] + e[1..25];
    }
    IndexOfAt(e, ']', 25);
  }

  /** On a store made of entries, the `since` step keeps an entry exactly
      when it was stored after `since`. */
  lemma {:induction false} SinceOnEntries(store: seq<string>, since: int)
    requires AllEntries(store)
    ensures forall k :: 0 <= k < |store| ==>
      (IsNewerThan(since, store[k]) <==> EpochMillis(StampOf(store[k])) > since)
  {
    forall k | 0 <= k < |store|
      ensures IsNewerThan(since, store[k]) <==> EpochMillis(StampOf(store[k])) > since
    {
      EntryTimeOfEntry(store[k]);
    }
  }

  /** On a store made of entries, the answer is made of entries, and with
      a `since` every one of them was stored after `since`. */
  lemma GetLogsOfEntries(store: seq<string>, lines: int, filter: Option<string>, since: Option<int>)
    requires AllEntries(store)
    ensures var r := GetLogs(store, lines, filter, since);
      && AllEntries(r)
      && (SinceApplies(since) ==> forall k :: 0 <= k < |r| ==> EpochMillis(StampOf(r[k])) > since.value)
  {
    var r := GetLogs(store, lines, filter, since);
    GetLogsFromStore(store, lines, filter, since);
    forall k | 0 <= k < |r|
      ensures IsEntry(r[k])
      ensures SinceApplies(since) ==> EpochMillis(StampOf(r[k])) > since.value
    {
      var j :| 0 <= j < |store| && store[j] == r[k];
      if SinceApplies(since) {
        SinceOnEntries(store, since.value);
      }
    }
  }

  /** A stored entry matches a filter that its line contains, in any case. */
  lemma FilterSeesMessage(now: DateTime, line: string, filter: string)
    requires ValidDateTime(now) && Includes(ToLower(line), ToLower(filter))
    ensures MatchesFilter(filter, FormatEntry(now, line))
  {
    var prefix := "[" + ToIsoString(now) + "] ";
    assert FormatEntry(now, line) == prefix + line;
    ToLowerAppend(prefix, line);
    IncludesInfix(ToLower(prefix), ToLower(line), "", ToLower(filter));
    assert ToLower(prefix) + ToLower(line) + "" == ToLower(prefix + line);
  }

  /** The filter also sees the `[timestamp] ` prefix: a filter contained in
      it matches the entry whatever the line says. */
  lemma FilterSeesTimestamp(now: DateTime, line: string, filter: string)
    requires ValidDateTime(now) && Includes(ToLower("[" + ToIsoString(now) + "] "), ToLower(filter))
    ensures MatchesFilter(filter, FormatEntry(now, line))
  {
    var prefix := "[" + ToIsoString(now) + "] ";
    assert FormatEntry(now, line) == prefix + line;
    ToLowerAppend(prefix, line);
    IncludesInfix("", ToLower(prefix), ToLower(line), ToLower(filter));
    assert "" + ToLower(prefix) + ToLower(line) == ToLower(prefix + line);
  }
}
