/** The pipe reader: the pending text, the log store and the session flags
    that the stream's `data`, `error` and `end` handlers and the directory
    watcher's callback update. */
module Relay {
  import opened Wrappers
  import opened Js
  import opened IsoTime
  import opened LogStore
  import Query

  datatype Platform = Posix | Win32

  /** Where the pipe lives on each platform. */
  function PipeName(p: Platform): string {
    match p
    case Win32 => "\\\\.\\pipe\\stdout_pipe"
    case Posix => "/tmp/stdout_pipe"
  }

  /** Path separators: `/`, and on Windows also `\`. */
  predicate IsSeparator(p: Platform, c: char) {
    c == '/' || (p == Win32 && c == '\\')
  }

  /** `path.basename(path)`: the part after the last separator. */
  function Basename(p: Platform, path: string): (r: string)
    ensures |r| <= |path| && r == path[|path| - |r|..]
    ensures forall i :: 0 <= i < |r| ==> !IsSeparator(p, r[i])
    ensures |r| < |path| ==> IsSeparator(p, path[|path| - |r| - 1])
    decreases |path|
  {
    if path == [] || IsSeparator(p, path[|path| - 1]) then []
    else Basename(p, path[..|path| - 1]) + [path[|path| - 1]]
  }

  /** The base name is the final separator-free segment of the path. */
  lemma {:induction false} BasenameOfSegment(p: Platform, dir: string, name: string)
    requires forall i :: 0 <= i < |name| ==> !IsSeparator(p, name[i])
    requires |dir| > 0 && IsSeparator(p, dir[|dir| - 1])
    ensures Basename(p, dir + name) == name
    decreases |name|
  {
    if name == [] {
      assert dir + name == dir;
    } else {
      var init := name[..|name| - 1];
      BasenameOfSegment(p, dir, init);
      assert (dir + name)[..|dir + name| - 1] == dir + init;
      assert init + [name[|name| - 1]] == name;
    }
  }

  /** On both platforms the watcher looks for `stdout_pipe`. */
  lemma PipeBasename(p: Platform)
    ensures Basename(p, PipeName(p)) == "stdout_pipe"
  {
    if p == Posix {
      assert PipeName(p) == "/tmp/" + "stdout_pipe";
      BasenameOfSegment(p, "/tmp/", "stdout_pipe");
    } else {
      assert PipeName(p) == "\\\\.\\pipe\\" + "stdout_pipe";
      BasenameOfSegment(p, "\\\\.\\pipe\\", "stdout_pipe");
    }
  }

  /** One reader for the one pipe: the pending text `buffer`, the store
      `logStore`, whether a stream is open (`currentStream` is set) and
      `isReading`. */
  class Reader {
    const platform: Platform
    var buffer: string
    var logStore: seq<string>
    var streamOpen: bool
    var isReading: bool
    /** How many read streams have been created so far. */
    ghost var streamsOpened: nat

    /** The store stays within capacity and holds only stamped entries, the
        pending text holds no complete line, and a stream is open exactly
        while a session is reading: so at most one session exists at a
        time. */
    ghost predicate Valid()
      reads this
    {
      && |logStore| <= MaxStoredLogs
      && AllEntries(logStore)
      && Newline !in buffer
      && (streamOpen <==> isReading)
    }

    /** The state before the first read: nothing pending, nothing stored,
        idle. */
    constructor (platform: Platform)
      ensures Valid() && this.platform == platform
      ensures buffer == [] && logStore == [] && !streamOpen && !isReading
      ensures streamsOpened == 0
    {
      this.platform := platform;
      buffer := [];
      logStore := [];
      streamOpen := false;
      isReading := false;
      streamsOpened := 0;
    }

    /** `startReading()`: does nothing while a stream is open or a session
        is reading; otherwise opens a stream and reads. `streamCreated` is
        false when `createReadStream` throws, which leaves the reader idle.
        The pending text and the store are never touched. */
    method StartReading(streamCreated: bool)
      requires Valid()
      modifies this`streamOpen, this`isReading, this`streamsOpened
      ensures Valid()
      ensures old(streamOpen || isReading) ==>
        streamOpen == old(streamOpen) && isReading == old(isReading)
        && streamsOpened == old(streamsOpened)
      ensures !old(streamOpen || isReading) ==>
        (isReading <==> streamCreated) && (streamOpen <==> streamCreated)
        && streamsOpened == old(streamsOpened) + (if streamCreated then 1 else 0)
    {
      if streamOpen || isReading {
        return;
      }
      isReading := true;
      if streamCreated {
        streamOpen := true;
        streamsOpened := streamsOpened + 1;
      } else {
        streamOpen := false;
        isReading := false;
      }
    }

    /** The `data` handler: the chunk joins the pending text, every
        completed line with a non-white-space character is stored as
        `[<now>] <line>` (pushing out the oldest entry beyond capacity), and
        the unterminated rest stays pending. */
    method OnData(chunk: string, now: DateTime)
      requires Valid() && ValidDateTime(now)
      modifies this`buffer, this`logStore
      ensures Valid()
      ensures old(buffer) + chunk == Terminated(Completed(old(buffer) + chunk), Newline) + buffer
      ensures buffer == Pending(old(buffer) + chunk)
      ensures logStore == Newest(old(logStore) + Stored(now, Completed(old(buffer) + chunk)), MaxStoredLogs)
    {
      buffer := buffer + chunk;
      ghost var text := buffer;
      var lines := Split(buffer, Newline);
      buffer := lines[|lines| - 1];
      lines := lines[..|lines| - 1];
      assert lines == Completed(text);
      ghost var start := logStore;
      StoreLines(lines, now);
      PushAllKeepsNewest(start, Stored(now, lines));
      assert logStore == Newest(start + Stored(now, lines), MaxStoredLogs);
      StoringKeepsEntries(start, now, lines);
      assert AllEntries(logStore);
      CompletedThenPending(text);
      assert Newline !in buffer;
      assert streamOpen <==> isReading;
      assert |logStore| <= MaxStoredLogs;
    }

    /** The loop of the `data` handler: each storable line is pushed as an
        entry, and the store is cut back to capacity after each push. */
    method StoreLines(lines: seq<string>, now: DateTime)
      requires |logStore| <= MaxStoredLogs && ValidDateTime(now)
      modifies this`logStore
      ensures |logStore| <= MaxStoredLogs
      ensures logStore == PushAll(old(logStore), Stored(now, lines))
    {
      ghost var start := logStore;
      for i := 0 to |lines|
        invariant |logStore| <= MaxStoredLogs
        invariant logStore == PushAll(start, Stored(now, lines[..i]))
      {
        var line := lines[i];
        StoreOneMore(start, now, lines, i);
        if IsStorable(line) {
          ghost var before := logStore;
          logStore := logStore + [FormatEntry(now, line)];
          if |logStore| > MaxStoredLogs {
            logStore := logStore[1..];
          }
          assert logStore == Push(before, FormatEntry(now, line));
        }
      }
      assert lines[..|lines|] == lines;
    }

    /** The `error` handler, for a missing pipe (`ENOENT`) and any other
        error alike: the reader becomes idle and does not reopen. The code
        only chooses which message is logged. */
    method OnError(code: Option<string>)
      requires Valid()
      modifies this`streamOpen, this`isReading
      ensures Valid() && !streamOpen && !isReading
    {
      streamOpen := false;
      isReading := false;
    }

    /** The `end` handler: the reader becomes idle; reading resumes only
        when the watcher sees the pipe again. */
    method OnEnd()
      requires Valid()
      modifies this`streamOpen, this`isReading
      ensures Valid() && !streamOpen && !isReading
    {
      streamOpen := false;
      isReading := false;
    }

    /** The directory watcher's callback: starts reading only for an event
        on the pipe's own name while idle, and otherwise changes nothing. */
    method OnWatchEvent(filename: Option<string>, streamCreated: bool)
      requires Valid()
      modifies this`streamOpen, this`isReading, this`streamsOpened
      ensures Valid()
      ensures var starts := filename == Some(Basename(platform, PipeName(platform))) && !old(isReading);
        && (starts ==>
              (isReading <==> streamCreated) && (streamOpen <==> streamCreated)
              && streamsOpened == old(streamsOpened) + (if streamCreated then 1 else 0))
        && (!starts ==>
              streamOpen == old(streamOpen) && isReading == old(isReading)
              && streamsOpened == old(streamsOpened))
    {
      if filename == Some(Basename(platform, PipeName(platform))) && !isReading {
        StartReading(streamCreated);
      }
    }

    /** The `get-logs` handler: answers from a copy of the store and leaves
        the reader unchanged. */
    method GetLogs(lines: int, filter: Option<string>, since: Option<int>) returns (r: seq<string>)
      requires Valid()
      ensures r == Query.GetLogs(logStore, lines, filter, since)
      ensures AllEntries(r)
      ensures Query.SinceApplies(since) ==>
        forall k :: 0 <= k < |r| ==> EpochMillis(StampOf(r[k])) > since.value
    {
      var logs := logStore;
      r := Query.GetLogs(logs, lines, filter, since);
      Query.GetLogsOfEntries(logs, lines, filter, since);
    }
  }

  /** The text `"abc\ndef\ngh"` completes the lines `abc` and `def`, both
      stored, and leaves `gh` pending. */
  lemma TwoLinesAndRest(now: DateTime)
    requires ValidDateTime(now)
    ensures Completed("ab" + "c\ndef\ngh") == ["abc", "def"]
    ensures Pending("ab" + "c\ndef\ngh") == "gh"
    ensures Stored(now, ["abc", "def"]) == [FormatEntry(now, "abc"), FormatEntry(now, "def")]
  {
    TwoLinesSplit();
    TwoLinesStored(now);
  }

  /** How `"abc\ndef\ngh"` splits. */
  lemma TwoLinesSplit()
    ensures Completed("ab" + "c\ndef\ngh") == ["abc", "def"]
    ensures Pending("ab" + "c\ndef\ngh") == "gh"
  {
    assert Join(["abc", "def", "gh"], Newline) == "ab" + "c\ndef\ngh";
    SplitJoin(["abc", "def", "gh"], Newline);
  }

  /** Both lines have visible text, so both are stored. */
  lemma TwoLinesStored(now: DateTime)
    requires ValidDateTime(now)
    ensures Stored(now, ["abc", "def"]) == [FormatEntry(now, "abc"), FormatEntry(now, "def")]
  {
    assert IsStorable("abc") by {
      assert TrimStart("abc") == "abc";
      assert TrimEnd("abc") == "abc";
    }
    assert IsStorable("def") by {
      assert TrimStart("def") == "def";
      assert TrimEnd("def") == "def";
    }
    StoredPrefix(now, ["abc", "def"], 0);
    StoredPrefix(now, ["abc", "def"], 1);
    assert ["abc", "def"][..2] == ["abc", "def"];
    assert ["abc", "def"][..0] == [];
  }

  /** Lines split across two chunks: `"ab"` then `"c\ndef\ngh"` store
      `abc` and `def`, and keep `gh` pending. */
  method SplitAcrossChunks(now: DateTime)
    requires ValidDateTime(now)
  {
    var reader := new Reader(Posix);
    reader.StartReading(true);
    assert reader.buffer + "ab" == "ab";
    NoNewlineStaysPending("ab");
    reader.OnData("ab", now);
    assert reader.buffer == "ab";
    assert reader.logStore == Newest([] + [], MaxStoredLogs) == [];
    TwoLinesAndRest(now);
    reader.OnData("c\ndef\ngh", now);
    assert reader.buffer == "gh";
    var stored := [FormatEntry(now, "abc"), FormatEntry(now, "def")];
    assert reader.logStore == Newest([] + stored, MaxStoredLogs);
    assert reader.logStore == stored;
  }
}
