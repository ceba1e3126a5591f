/** The JavaScript built-ins that the relay relies on, over Dafny strings
    (`seq<char>`) and sequences: `split`, `join`, `trim`, `toLowerCase`,
    `includes`, `indexOf`, `slice`, `filter` and `reverse`. */
module Js {

  // ---------------------------------------------------------------------
  // String.prototype.split with a one-character separator, and join
  // ---------------------------------------------------------------------

  /** `s.split(sep)`: the pieces between separators, in order. There is
      always at least one piece; `"".split(sep)` is `[""]`. */
  function Split(s: string, sep: char): (r: seq<string>)
    ensures |r| >= 1
    ensures forall i :: 0 <= i < |r| ==> sep !in r[i]
    decreases |s|
  {
    if s == [] then [""]
    else
      var rest := Split(s[1..], sep);
      if s[0] == sep then [""] + rest
      else [[s[0]] + rest[0]] + rest[1..]
  }

  /** `parts.join(sep)`; `[].join(sep)` is `""`. */
  function Join(parts: seq<string>, sep: char): string
    decreases |parts|
  {
    if |parts| == 0 then ""
    else if |parts| == 1 then parts[0]
    else parts[0] + [sep] + Join(parts[1..], sep)
  }

  /** Every piece followed by the separator: the text a writer sent for
      these completed lines. */
  function Terminated(lines: seq<string>, sep: char): string
    decreases |lines|
  {
    if lines == [] then "" else lines[0] + [sep] + Terminated(lines[1..], sep)
  }

  /** Splitting and joining again gives back the original text. */
  lemma {:induction false} JoinSplit(s: string, sep: char)
    ensures Join(Split(s, sep), sep) == s
    decreases |s|
  {
    if s != [] {
      JoinSplit(s[1..], sep);
      var rest := Split(s[1..], sep);
      if s[0] == sep {
        assert Split(s, sep) == [""] + rest;
        assert ([""] + rest)[1..] == rest;
        assert s == [sep] + s[1..];
      } else {
        assert Split(s, sep) == [[s[0]] + rest[0]] + rest[1..];
        if |rest| > 1 {
          assert Join(rest, sep) == rest[0] + [sep] + Join(rest[1..], sep);
          assert ([[s[0]] + rest[0]] + rest[1..])[1..] == rest[1..];
        }
        assert s == [s[0]] + s[1..];
      }
    }
  }

  /** Splitting text that starts with a separator-free prefix extends the
      first piece by that prefix. */
  lemma {:induction false} SplitPrefix(a: string, b: string, sep: char)
    requires sep !in a
    ensures Split(a + b, sep) == [a + Split(b, sep)[0]] + Split(b, sep)[1..]
    decreases |a|
  {
    if a != [] {
      SplitPrefix(a[1..], b, sep);
      var r, rest := Split(b, sep), Split(a[1..] + b, sep);
      assert (a + b)[1..] == a[1..] + b && (a + b)[0] == a[0] != sep;
      assert Split(a + b, sep) == [[a[0]] + rest[0]] + rest[1..];
      assert rest[0] == a[1..] + r[0] && rest[1..] == r[1..];
      assert [a[0]] + (a[1..] + r[0]) == a + r[0];
    } else {
      assert a + b == b;
      var r := Split(b, sep);
      assert a + r[0] == r[0];
      assert r == [r[0]] + r[1..];
    }
  }

  /** Joining separator-free pieces and splitting again gives back the
      pieces. */
  lemma {:induction false} SplitJoin(parts: seq<string>, sep: char)
    requires |parts| >= 1
    requires forall i :: 0 <= i < |parts| ==> sep !in parts[i]
    ensures Split(Join(parts, sep), sep) == parts
    decreases |parts|
  {
    if |parts| == 1 {
      SplitPrefix(parts[0], "", sep);
      assert Split("", sep) == [""];
      assert parts[0] + "" == parts[0];
    } else {
      var tail := Join(parts[1..], sep);
      SplitJoin(parts[1..], sep);
      SplitPrefix(parts[0], [sep] + tail, sep);
      assert parts[0] + [sep] + tail == parts[0] + ([sep] + tail);
      assert ([sep] + tail)[1..] == tail;
      var rest := Split([sep] + tail, sep);
      assert rest == [""] + parts[1..];
      assert rest[0] == "" && rest[1..] == parts[1..];
      assert parts[0] + rest[0] == parts[0];
      assert Join(parts, sep) == parts[0] + [sep] + tail;
      assert parts == [parts[0]] + parts[1..];
    }
  }

  /** The joined text is the completed pieces, each terminated by the
      separator, followed by the last piece. */
  lemma {:induction false} JoinIsTerminatedThenLast(parts: seq<string>, sep: char)
    requires |parts| >= 1
    ensures Join(parts, sep) == Terminated(parts[..|parts| - 1], sep) + parts[|parts| - 1]
    decreases |parts|
  {
    if |parts| > 1 {
      JoinIsTerminatedThenLast(parts[1..], sep);
      assert parts[..|parts| - 1][1..] == parts[1..][..|parts| - 2];
      assert parts[..|parts| - 1][0] == parts[0];
    }
  }

  // ---------------------------------------------------------------------
  // String.prototype.trim
  // ---------------------------------------------------------------------

  /** ECMAScript WhiteSpace and LineTerminator code points: tab, vertical
      tab, form feed, space, no-break space, the byte order mark, the other
      space separators (category Zs), line feed, carriage return, and the
      line and paragraph separators. */
  predicate IsWhiteSpace(c: char) {
    var n := c as int;
    n == 0x09 || n == 0x0A || n == 0x0B || n == 0x0C || n == 0x0D || n == 0x20
    || n == 0xA0 || n == 0x1680 || (0x2000 <= n <= 0x200A) || n == 0x2028
    || n == 0x2029 || n == 0x202F || n == 0x205F || n == 0x3000 || n == 0xFEFF
  }

  /** `s.trimStart()`: `s` without its leading white space. */
  function TrimStart(s: string): (r: string)
    ensures |r| <= |s|
    decreases |s|
  {
    if s != [] && IsWhiteSpace(s[0]) then TrimStart(s[1..]) else s
  }

  /** `s.trimEnd()`: `s` without its trailing white space. */
  function TrimEnd(s: string): (r: string)
    ensures |r| <= |s|
    decreases |s|
  {
    if s != [] && IsWhiteSpace(s[|s| - 1]) then TrimEnd(s[..|s| - 1]) else s
  }

  /** `s.trim()`. */
  function Trim(s: string): string {
    TrimEnd(TrimStart(s))
  }

  /** `trimStart` drops exactly the longest all-white-space prefix. */
  lemma {:induction false} TrimStartDrops(s: string)
    ensures var r := TrimStart(s);
      r == s[|s| - |r|..]
      && (r == [] || !IsWhiteSpace(r[0]))
      && forall i :: 0 <= i < |s| - |r| ==> IsWhiteSpace(s[i])
    decreases |s|
  {
    if s != [] && IsWhiteSpace(s[0]) {
      TrimStartDrops(s[1..]);
    }
  }

  /** `trimEnd` drops exactly the longest all-white-space suffix. */
  lemma {:induction false} TrimEndDrops(s: string)
    ensures var r := TrimEnd(s);
      r == s[..|r|]
      && (r == [] || !IsWhiteSpace(r[|r| - 1]))
      && forall i :: |r| <= i < |s| ==> IsWhiteSpace(s[i])
    decreases |s|
  {
    if s != [] && IsWhiteSpace(s[|s| - 1]) {
      TrimEndDrops(s[..|s| - 1]);
    }
  }

  /** `s.trim()` is empty (falsy) exactly when every character of `s` is
      white space. */
  lemma TrimEmptyIff(s: string)
    ensures Trim(s) == [] <==> forall i :: 0 <= i < |s| ==> IsWhiteSpace(s[i])
  {
    var t := TrimStart(s);
    TrimStartDrops(s);
    TrimEndDrops(t);
    if Trim(s) == [] {
      assert t == [];
    } else {
      assert t != [] && !IsWhiteSpace(t[0]);
      assert s[|s| - |t|] == t[0];
    }
  }

  // ---------------------------------------------------------------------
  // String.prototype.toLowerCase and String.prototype.includes
  // ---------------------------------------------------------------------

  /** Lower case of one character, for the ASCII letters. */
  function LowerChar(c: char): char {
    if 'A' <= c <= 'Z' then (c as int + 32) as char else c
  }

  /** `s.toLowerCase()`, restricted to ASCII letters. */
  function ToLower(s: string): (r: string)
    ensures |r| == |s|
  {
    seq(|s|, i requires 0 <= i < |s| => LowerChar(s[i]))
  }

  /** Lower-casing twice is lower-casing once: matching ignores the case
      of both sides, whatever their case. */
  lemma ToLowerIdempotent(s: string)
    ensures ToLower(ToLower(s)) == ToLower(s)
  {
  }

  /** `needle` occurs in `hay` starting at position `i`. */
  predicate OccursAt(hay: string, needle: string, i: int) {
    0 <= i <= |hay| - |needle| && hay[i..i + |needle|] == needle
  }

  /** `hay.includes(needle)`: `needle` occurs somewhere in `hay`. The
      empty needle is included in every string. */
  function Includes(hay: string, needle: string): (b: bool)
    ensures b <==> exists i :: OccursAt(hay, needle, i)
    decreases |hay|
  {
    if |needle| > |hay| then false
    else if hay[..|needle|] == needle then
      assert OccursAt(hay, needle, 0);
      true
    else
      var b := Includes(hay[1..], needle);
      forall i
        ensures OccursAt(hay[1..], needle, i) <==> OccursAt(hay, needle, i + 1)
      {
        if 0 <= i <= |hay| - 1 - |needle| {
          assert hay[1..][i..i + |needle|] == hay[i + 1..i + 1 + |needle|];
        }
      }
      assert !OccursAt(hay, needle, 0);
      assert forall i :: OccursAt(hay, needle, i) ==> OccursAt(hay[1..], needle, i - 1);
      b
  }

  /** A case-sensitive match is also a case-insensitive one. */
  lemma IncludesLower(hay: string, needle: string)
    requires Includes(hay, needle)
    ensures Includes(ToLower(hay), ToLower(needle))
  {
    var i :| OccursAt(hay, needle, i);
    var lh, ln := ToLower(hay), ToLower(needle);
    assert lh[i..i + |needle|] == ln;
    assert OccursAt(lh, ln, i);
  }

  /** Lower-casing works character by character, so it distributes over
      concatenation. */
  lemma ToLowerAppend(a: string, b: string)
    ensures ToLower(a + b) == ToLower(a) + ToLower(b)
  {
  }

  /** What a string includes, a longer string around it includes too. */
  lemma IncludesInfix(a: string, b: string, c: string, needle: string)
    requires Includes(b, needle)
    ensures Includes(a + b + c, needle)
  {
    var i :| OccursAt(b, needle, i);
    assert (a + b + c)[|a| + i..|a| + i + |needle|] == b[i..i + |needle|];
    assert OccursAt(a + b + c, needle, |a| + i);
  }

  // ---------------------------------------------------------------------
  // indexOf, slice, filter, reverse
  // ---------------------------------------------------------------------

  /** `s.indexOf(c)`: the first position of `c`, or -1 when there is none. */
  function IndexOf(s: string, c: char): (r: int)
    ensures -1 <= r < |s|
    ensures r == -1 <==> c !in s
    ensures r >= 0 ==> s[r] == c && c !in s[..r]
    decreases |s|
  {
    if s == [] then -1
    else if s[0] == c then 0
    else
      var k := IndexOf(s[1..], c);
      if k == -1 then -1
      else
        assert s[..k + 1] == [s[0]] + s[1..][..k];
        k + 1
  }

  /** The first occurrence is at `k` when `s[k]` is `c` and no earlier
      character is. */
  lemma {:induction false} IndexOfAt(s: string, c: char, k: nat)
    requires k < |s| && s[k] == c && c !in s[..k]
    ensures IndexOf(s, c) == k
    decreases k
  {
    if k > 0 {
      assert s[0] == s[..k][0];
      assert s[1..][..k - 1] == s[..k][1..];
      IndexOfAt(s[1..], c, k - 1);
    }
  }

  /** How `slice` resolves a relative index against a length: a negative
      index counts from the end, and the result is clamped to [0, len]. */
  function RelativeIndex(k: int, len: nat): (r: nat)
    ensures r <= len
  {
    if k < 0 then (if len + k < 0 then 0 else len + k)
    else if k < len then k else len
  }

  /** `s.slice(start, end)` for arrays and strings alike. */
  function Slice<T>(s: seq<T>, start: int, end: int): seq<T> {
    var from, to := RelativeIndex(start, |s|), RelativeIndex(end, |s|);
    if from < to then s[from..to] else []
  }

  /** `s.slice(-n)`, the form the query uses: for `n >= 0` the last `n`
      elements (all of them when `n` exceeds the length, and also for
      `n == 0`, since `-0` is `0`); for `n < 0` everything but the first
      `-n` elements. */
  lemma SliceFromEnd<T>(s: seq<T>, n: int)
    ensures n > 0 ==> Slice(s, -n, |s|) == s[|s| - (if n < |s| then n else |s|)..]
    ensures n == 0 ==> Slice(s, -n, |s|) == s
    ensures n < 0 ==> Slice(s, -n, |s|) == s[(if -n < |s| then -n else |s|)..]
  {
    assert s[0..|s|] == s;
  }

  /** `s.slice(-n).reverse()`: for `n > 0` the last `n` elements (all of
      them when there are fewer), last first; for `n == 0` all of `s`
      reversed; for `n < 0` all but the first `-n`, reversed. */
  lemma ReverseSliceFromEnd<T>(s: seq<T>, n: int)
    ensures var r := Reverse(Slice(s, -n, |s|));
      && (n > 0 ==> |r| == (if n < |s| then n else |s|)
                    && forall k :: 0 <= k < |r| ==> r[k] == s[|s| - 1 - k])
      && (n == 0 ==> r == Reverse(s))
      && (n < 0 ==> r == Reverse(s[(if -n < |s| then -n else |s|)..]))
  {
    SliceFromEnd(s, n);
    if n > 0 {
      var m := if n < |s| then n else |s|;
      var cut := Slice(s, -n, |s|);
      assert cut == s[|s| - m..];
      forall k | 0 <= k < m
        ensures Reverse(cut)[k] == s[|s| - 1 - k]
      {
        assert Reverse(cut)[k] == cut[m - 1 - k];
      }
    }
  }

  /** A slice is a run of consecutive elements of `s`. */
  lemma SliceIsRun<T>(s: seq<T>, start: int, end: int)
    ensures var r, from := Slice(s, start, end), RelativeIndex(start, |s|);
      from + |r| <= |s| && r == s[from..from + |r|] && multiset(r) <= multiset(s)
  {
    var r, from := Slice(s, start, end), RelativeIndex(start, |s|);
    assert s == s[..from] + r + s[from + |r|..];
  }

  /** Reversing a slice keeps only elements of `s`, none more often than
      in `s`. */
  lemma ReverseSliceWithin<T>(s: seq<T>, start: int, end: int)
    ensures var r := Reverse(Slice(s, start, end));
      multiset(r) <= multiset(s) && forall k :: 0 <= k < |r| ==> r[k] in s
  {
    var cut := Slice(s, start, end);
    SliceIsRun(s, start, end);
    ReversePermutes(cut);
    assert forall k :: 0 <= k < |cut| ==> cut[k] in s;
  }

  /** `s.filter(keep)`: the elements that `keep` accepts, in their order. */
  function Filter<T>(s: seq<T>, keep: T -> bool): (r: seq<T>)
    ensures |r| <= |s|
    ensures forall i :: 0 <= i < |r| ==> r[i] in s && keep(r[i])
    ensures forall i :: 0 <= i < |s| && keep(s[i]) ==> s[i] in r
    decreases |s|
  {
    if s == [] then []
    else
      var rest := Filter(s[1..], keep);
      assert s == [s[0]] + s[1..];
      (if keep(s[0]) then [s[0]] else []) + rest
  }

  /** Filtering keeps no element more often than it occurs. */
  lemma {:induction false} FilterSubMultiset<T>(s: seq<T>, keep: T -> bool)
    ensures multiset(Filter(s, keep)) <= multiset(s)
    decreases |s|
  {
    if s != [] {
      FilterSubMultiset(s[1..], keep);
      assert s == [s[0]] + s[1..];
    }
  }

  /** Filtering distributes over concatenation, so it keeps relative order. */
  lemma {:induction false} FilterAppend<T>(a: seq<T>, b: seq<T>, keep: T -> bool)
    ensures Filter(a + b, keep) == Filter(a, keep) + Filter(b, keep)
    decreases |a|
  {
    if a != [] {
      FilterAppend(a[1..], b, keep);
      assert (a + b)[1..] == a[1..] + b;
    } else {
      assert a + b == b;
    }
  }

  /** Filtering a sequence extended by one element. */
  lemma FilterSnoc<T>(s: seq<T>, x: T, keep: T -> bool)
    ensures Filter(s + [x], keep) == Filter(s, keep) + (if keep(x) then [x] else [])
  {
    FilterAppend(s, [x], keep);
    assert [x][1..] == [];
  }

  /** Filtering with two tests that agree on every element of `s` gives
      the same result. */
  lemma {:induction false} FilterAgree<T>(s: seq<T>, p: T -> bool, q: T -> bool)
    requires forall i :: 0 <= i < |s| ==> p(s[i]) == q(s[i])
    ensures Filter(s, p) == Filter(s, q)
    decreases |s|
  {
    if s != [] {
      FilterAgree(s[1..], p, q);
      assert p(s[0]) == q(s[0]);
    }
  }

  /** A test that accepts every element of `s` keeps all of `s`. */
  lemma {:induction false} FilterKeepsAll<T>(s: seq<T>, keep: T -> bool)
    requires forall i :: 0 <= i < |s| ==> keep(s[i])
    ensures Filter(s, keep) == s
    decreases |s|
  {
    if s != [] {
      FilterKeepsAll(s[1..], keep);
      assert keep(s[0]);
      assert [s[0]] + s[1..] == s;
    }
  }

  /** Filtering twice is filtering once with both tests. */
  lemma {:induction false} FilterTwice<T>(s: seq<T>, p: T -> bool, q: T -> bool, both: T -> bool)
    requires forall i :: 0 <= i < |s| ==> both(s[i]) == (p(s[i]) && q(s[i]))
    ensures Filter(Filter(s, p), q) == Filter(s, both)
    decreases |s|
  {
    if s != [] {
      FilterTwice(s[1..], p, q, both);
      assert both(s[0]) == (p(s[0]) && q(s[0]));
      var rest := Filter(s[1..], p);
      if p(s[0]) {
        assert Filter(s, p) == [s[0]] + rest;
        assert Filter([s[0]] + rest, q) == (if q(s[0]) then [s[0]] else []) + Filter(rest, q) by {
          assert ([s[0]] + rest)[1..] == rest;
        }
      } else {
        assert Filter(s, p) == rest;
      }
    }
  }

  /** `s.reverse()` (on a copy). */
  function Reverse<T>(s: seq<T>): (r: seq<T>)
    ensures |r| == |s|
    ensures forall k :: 0 <= k < |s| ==> r[k] == s[|s| - 1 - k]
    decreases |s|
  {
    if s == [] then [] else Reverse(s[1..]) + [s[0]]
  }

  /** Reversing keeps the same elements with the same multiplicities. */
  lemma {:induction false} ReversePermutes<T>(s: seq<T>)
    ensures multiset(Reverse(s)) == multiset(s)
    decreases |s|
  {
    if s != [] {
      ReversePermutes(s[1..]);
      assert s == [s[0]] + s[1..];
    }
  }
}
