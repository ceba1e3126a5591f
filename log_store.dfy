/** The bounded in-memory log store and the splitting of the pipe's text
    into stored lines. */
module LogStore {
  import opened Js
  import opened IsoTime

  /** Capacity of the store. */
  const MaxStoredLogs: nat := 100

  /** Line separator of the pipe's text. */
  const Newline: char := '\n'

  // ---------------------------------------------------------------------
  // Splitting the pending text into completed lines and a remainder
  // ---------------------------------------------------------------------

  /** The completed lines of `text`: every piece but the last. */
  function Completed(text: string): seq<string> {
    var pieces := Split(text, Newline);
    pieces[..|pieces| - 1]
  }

  /** What stays pending: the last piece, possibly empty. */
  function Pending(text: string): string {
    var pieces := Split(text, Newline);
    pieces[|pieces| - 1]
  }

  /** The text is exactly the completed lines, each followed by a newline,
      then the pending remainder; neither contains a newline. */
  lemma CompletedThenPending(text: string)
    ensures text == Terminated(Completed(text), Newline) + Pending(text)
    ensures Newline !in Pending(text)
    ensures forall i :: 0 <= i < |Completed(text)| ==> Newline !in Completed(text)[i]
  {
    JoinSplit(text, Newline);
    JoinIsTerminatedThenLast(Split(text, Newline), Newline);
  }

  /** Text without a newline completes no line and stays pending whole. */
  lemma NoNewlineStaysPending(text: string)
    requires Newline !in text
    ensures Completed(text) == [] && Pending(text) == text
  {
    SplitJoin([text], Newline);
  }

  // ---------------------------------------------------------------------
  // Stored entries
  // ---------------------------------------------------------------------

  /** `line.trim()` is truthy. */
  predicate IsStorable(line: string) {
    Trim(line) != []
  }

  /** A line is stored exactly when it has a character that is not white
      space. */
  lemma StorableIff(line: string)
    ensures IsStorable(line) <==> exists i :: 0 <= i < |line| && !IsWhiteSpace(line[i])
  {
    TrimEmptyIff(line);
  }

  /** The stored form `[<ISO timestamp>] <line>`, with the line untrimmed. */
  function FormatEntry(now: DateTime, line: string): string
    requires ValidDateTime(now)
  {
    "[" + ToIsoString(now) + "] " + line
  }

  /** The entries that a run of completed lines adds, in input order. */
  function Stored(now: DateTime, lines: seq<string>): (r: seq<string>)
    requires ValidDateTime(now)
    ensures |r| <= |lines|
    decreases |lines|
  {
    if lines == [] then []
    else
      var last := lines[|lines| - 1];
      Stored(now, lines[..|lines| - 1]) + (if IsStorable(last) then [FormatEntry(now, last)] else [])
  }

  /** Extending the lines by one extends the entries by that line's entry,
      if it is stored. */
  lemma StoredPrefix(now: DateTime, lines: seq<string>, i: nat)
    requires ValidDateTime(now) && i < |lines|
    ensures Stored(now, lines[..i + 1])
      == Stored(now, lines[..i]) + (if IsStorable(lines[i]) then [FormatEntry(now, lines[i])] else [])
  {
    assert lines[..i + 1][..i] == lines[..i];
  }

  /** The entries are exactly the storable lines, in order, each formatted. */
  lemma {:induction false} StoredIsFormattedFilter(now: DateTime, lines: seq<string>)
    requires ValidDateTime(now)
    ensures var kept := Filter(lines, IsStorable);
      |Stored(now, lines)| == |kept|
      && forall i :: 0 <= i < |kept| ==> Stored(now, lines)[i] == FormatEntry(now, kept[i])
    decreases |lines|
  {
    if lines != [] {
      var init, last := lines[..|lines| - 1], lines[|lines| - 1];
      StoredIsFormattedFilter(now, init);
      assert lines == init + [last];
      FilterSnoc(init, last, IsStorable);
    }
  }

  /** `[` + `inner` + `] ` + `rest`, with a 24-character `inner`: where
      the brackets and the text between them sit. */
  lemma BracketLayout(inner: string, rest: string)
    requires |inner| == 24
    ensures var e := "[" + inner + "] " + rest;
      |e| >= 27 && e[0] == '[' && e[25] == ']' && e[26] == ' ' && e[1..25] == inner
  {
    var e := "[" + inner + "] " + rest;
    assert e[1..25] == inner;
  }

  /** The shape of a stored entry: `[`, a timestamp without `]` that reads
      back as a date-time, then `] `. */
  predicate IsEntry(e: string) {
    && |e| >= 27 && e[0] == '[' && e[25] == ']' && e[26] == ' '
    && ']' !in e[1..25] && ParseIso(e[1..25]).Some?
  }

  /** The date-time an entry was stored at. */
  function StampOf(e: string): (d: DateTime)
    requires IsEntry(e)
    ensures ValidDateTime(d)
  {
    ParseIso(e[1..25]).value
  }

  /** A formatted line is an entry stamped with the time it was formatted
      at. */
  lemma FormatEntryIsEntry(now: DateTime, line: string)
    requires ValidDateTime(now)
    ensures IsEntry(FormatEntry(now, line)) && StampOf(FormatEntry(now, line)) == now
  {
    BracketLayout(ToIsoString(now), line);
    IsoStringHasNoBracket(now);
    ParseToIso(now);
  }

  /** Every element of `s` is an entry. */
  predicate AllEntries(s: seq<string>) {
    forall k :: 0 <= k < |s| ==> IsEntry(s[k])
  }

  /** Every entry a run of lines adds is stamped with the chunk's time. */
  lemma StoredAreEntries(now: DateTime, lines: seq<string>)
    requires ValidDateTime(now)
    ensures AllEntries(Stored(now, lines))
    ensures forall k :: 0 <= k < |Stored(now, lines)| ==> StampOf(Stored(now, lines)[k]) == now
  {
    var kept := Filter(lines, IsStorable);
    StoredIsFormattedFilter(now, lines);
    forall k | 0 <= k < |Stored(now, lines)|
      ensures IsEntry(Stored(now, lines)[k]) && StampOf(Stored(now, lines)[k]) == now
    {
      FormatEntryIsEntry(now, kept[k]);
    }
  }

  // ---------------------------------------------------------------------
  // The bounded store
  // ---------------------------------------------------------------------

  /** The newest `n` elements of `s`, in their order. */
  function Newest(s: seq<string>, n: nat): (r: seq<string>)
    ensures |r| == if |s| <= n then |s| else n
    ensures r == s[|s| - |r|..]
  {
    if |s| <= n then s else s[|s| - n..]
  }

  /** Keeping the newest elements keeps only entries of `s`. */
  lemma NewestOfEntries(s: seq<string>, n: nat)
    requires AllEntries(s)
    ensures AllEntries(Newest(s, n))
  {
    var r := Newest(s, n);
    forall k | 0 <= k < |r|
      ensures IsEntry(r[k])
    {
      assert r[k] == s[|s| - |r| + k];
    }
  }

  /** Pushing a chunk's entries into a store of entries leaves a store of
      entries. */
  lemma StoringKeepsEntries(store: seq<string>, now: DateTime, lines: seq<string>)
    requires ValidDateTime(now)
    requires AllEntries(store)
    ensures AllEntries(Newest(store + Stored(now, lines), MaxStoredLogs))
  {
    var added := Stored(now, lines);
    var all := store + added;
    StoredAreEntries(now, lines);
    forall k | 0 <= k < |all|
      ensures IsEntry(all[k])
    {
      if k >= |store| {
        assert all[k] == added[k - |store|];
      }
    }
    NewestOfEntries(all, MaxStoredLogs);
  }

  /** `logStore.push(e)` followed by one `shift()` when the store went over
      capacity. */
  function Push(store: seq<string>, e: string): seq<string> {
    var grown := store + [e];
    if |grown| > MaxStoredLogs then grown[1..] else grown
  }

  /** From a store within capacity, a push keeps the newest
      `MaxStoredLogs` of the old contents and the new entry. */
  lemma PushKeepsNewest(store: seq<string>, e: string)
    requires |store| <= MaxStoredLogs
    ensures Push(store, e) == Newest(store + [e], MaxStoredLogs)
  {
  }

  /** Pushing several entries one after another. */
  function PushAll(store: seq<string>, entries: seq<string>): seq<string>
    decreases |entries|
  {
    if entries == [] then store
    else Push(PushAll(store, entries[..|entries| - 1]), entries[|entries| - 1])
  }

  /** Pushing one more entry after a run of entries. */
  lemma PushAllSnoc(store: seq<string>, entries: seq<string>, e: string)
    ensures PushAll(store, entries + [e]) == Push(PushAll(store, entries), e)
  {
    assert (entries + [e])[..|entries|] == entries;
  }

  /** One more completed line: its entry is pushed when it is storable,
      otherwise the store stays as it is. */
  lemma StoreOneMore(start: seq<string>, now: DateTime, lines: seq<string>, i: nat)
    requires ValidDateTime(now) && i < |lines|
    ensures PushAll(start, Stored(now, lines[..i + 1]))
      == if IsStorable(lines[i]) then Push(PushAll(start, Stored(now, lines[..i])), FormatEntry(now, lines[i]))
         else PushAll(start, Stored(now, lines[..i]))
  {
    StoredPrefix(now, lines, i);
    if IsStorable(lines[i]) {
      PushAllSnoc(start, Stored(now, lines[..i]), FormatEntry(now, lines[i]));
    } else {
      assert Stored(now, lines[..i + 1]) == Stored(now, lines[..i]);
    }
  }

  /** Pushing entries into a store within capacity leaves exactly the newest
      `MaxStoredLogs` of the old contents followed by the entries. */
  lemma {:induction false} PushAllKeepsNewest(store: seq<string>, entries: seq<string>)
    requires |store| <= MaxStoredLogs
    ensures PushAll(store, entries) == Newest(store + entries, MaxStoredLogs)
    decreases |entries|
  {
    if entries != [] {
      var init, e := entries[..|entries| - 1], entries[|entries| - 1];
      PushAllKeepsNewest(store, init);
      var t := store + init;
      assert store + entries == t + [e];
      PushKeepsNewest(Newest(t, MaxStoredLogs), e);
      NewestTwice(t, [e], MaxStoredLogs);
    }
  }

  /** A single push evicts at most the oldest entry: the survivors keep
      their order and the new entry is the newest. */
  lemma PushEvictsOnlyOldest(store: seq<string>, e: string)
    requires |store| <= MaxStoredLogs
    ensures var r := Push(store, e);
      |r| <= MaxStoredLogs && r[|r| - 1] == e
      && (r == store + [e] || (|store| == MaxStoredLogs && r == store[1..] + [e]))
  {
    var r := Push(store, e);
    if |store| == MaxStoredLogs {
      assert (store + [e])[1..] == store[1..] + [e];
    }
  }

  /** Storing in two rounds keeps what storing in one round keeps: entries
      keep their order across chunks. */
  lemma NewestTwice(s: seq<string>, t: seq<string>, n: nat)
    ensures Newest(Newest(s, n) + t, n) == Newest(s + t, n)
  {
    var x := Newest(s, n);
    assert s == s[..|s| - |x|] + x;
    assert s + t == s[..|s| - |x|] + (x + t);
  }

  /** After more than `MaxStoredLogs` entries have gone into an empty
      store, it holds exactly the last `MaxStoredLogs` of them. */
  lemma {:induction false} StoreHoldsLastHundred(entries: seq<string>)
    requires |entries| > MaxStoredLogs
    ensures PushAll([], entries) == Newest(entries, MaxStoredLogs) == entries[|entries| - MaxStoredLogs..]
  {
    var empty: seq<string> := [];
    PushAllKeepsNewest(empty, entries);
    assert empty + entries == entries;
  }
}
