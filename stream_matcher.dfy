/**
 What a matcher computes, on values: the detectors' cursors, one per pattern,
 and the table of matches built while a stream is fed to them byte by byte.
 `Feed` is the specification of `write`; the lemmas here state what it
 promises across chunk boundaries, about where reported matches end, about
 bytes no pattern contains, and about a pattern written whole.
 */
module StreamMatching {
  import opened MatchTable
  import opened SequenceDetection

  /** Every pattern is non-empty and each has an in-range cursor. */
  predicate ValidState(pats: seq<seq<Byte>>, cs: seq<nat>)
  {
    |cs| == |pats| && forall k :: 0 <= k < |pats| ==> ValidCursor(pats[k], cs[k])
  }

  /** The cursors of all detectors after each has consumed byte `b`. */
  function StepAll(pats: seq<seq<Byte>>, cs: seq<nat>, b: Byte): (r: seq<nat>)
    requires ValidState(pats, cs)
    ensures ValidState(pats, r)
  {
    seq(|pats|, k requires 0 <= k < |pats| => Step(pats[k], cs[k], b).cursor)
  }

  /** Which detectors report a completion on byte `b`. */
  function Matched(pats: seq<seq<Byte>>, cs: seq<nat>, b: Byte): (r: seq<bool>)
    requires ValidState(pats, cs)
    ensures |r| == |pats|
  {
    seq(|pats|, k requires 0 <= k < |pats| => Step(pats[k], cs[k], b).matched)
  }

  /** The pattern lengths, in detector order. */
  function Lengths(pats: seq<seq<Byte>>): (r: seq<int>)
    ensures |r| == |pats|
  {
    seq(|pats|, k requires 0 <= k < |pats| => |pats[k]|)
  }

  /** `acc` after the completions `hits[0..j)`, of patterns of lengths `lens`,
      all ending at absolute position `pos`, have been added in order, each at
      its start offset `pos - length + 1`. */
  function Record(acc: Matches, lens: seq<int>, hits: seq<bool>, pos: int, j: nat): Matches
    requires |hits| == |lens| && j <= |lens|
    decreases j
  {
    if j == 0 then acc
    else
      var m := Record(acc, lens, hits, pos, j - 1);
      if hits[j - 1] then Add(m, pos - lens[j - 1] + 1, lens[j - 1]) else m
  }

  /** One more detector recorded: the table grows by its completion, if any. */
  lemma RecordStep(acc: Matches, lens: seq<int>, hits: seq<bool>, pos: int, j: nat, m: Matches, m': Matches)
    requires |hits| == |lens| && j < |lens|
    requires m == Record(acc, lens, hits, pos, j)
    requires m' == if hits[j] then Add(m, pos - lens[j] + 1, lens[j]) else m
    ensures m' == Record(acc, lens, hits, pos, j + 1)
  {
  }

  /** The state of the detectors together with the table built so far. */
  datatype Scanned = Scanned(cursors: seq<nat>, table: Matches)

  /** The detectors, starting from cursors `cs`, consume `w`, whose first byte
      is at absolute offset `pos`; on each byte the completions are added to
      the table `acc` in detector order. `write` returns the table of
      `Feed(pats, cs, pos, chunk, map[])` and leaves its cursors behind. */
  function Feed(pats: seq<seq<Byte>>, cs: seq<nat>, pos: int, w: seq<Byte>, acc: Matches): (r: Scanned)
    requires ValidState(pats, cs)
    ensures ValidState(pats, r.cursors)
    decreases |w|
  {
    if w == [] then Scanned(cs, acc)
    else
      Feed(pats, StepAll(pats, cs, w[0]), pos + 1, w[1..],
           Record(acc, Lengths(pats), Matched(pats, cs, w[0]), pos, |pats|))
  }

  /** Feeding a single byte: every detector steps once and its completion,
      if any, is recorded. */
  lemma FeedOne(pats: seq<seq<Byte>>, cs: seq<nat>, pos: int, b: Byte, acc: Matches, cs': seq<nat>, res: Matches)
    requires ValidState(pats, cs)
    requires cs' == StepAll(pats, cs, b) && res == Record(acc, Lengths(pats), Matched(pats, cs, b), pos, |pats|)
    ensures Scanned(cs', res) == Feed(pats, cs, pos, [b], acc)
  {
    assert [b][1..] == [];
  }

  /** Feeding one more byte of `w` after its first `i`: the state reached
      on `w[..i]` is where the next byte's `Feed` starts. */
  lemma FeedSnoc(pats: seq<seq<Byte>>, cs: seq<nat>, pos: int, w: seq<Byte>, i: nat, acc: Matches,
                 mid: Scanned, next: Scanned)
    requires ValidState(pats, cs) && i < |w|
    requires mid == Feed(pats, cs, pos, w[..i], acc)
    requires ValidState(pats, mid.cursors) && next == Feed(pats, mid.cursors, pos + i, [w[i]], mid.table)
    ensures next == Feed(pats, cs, pos, w[..i + 1], acc)
  {
    assert w[..i + 1] == w[..i] + [w[i]];
    FeedConcat(pats, cs, pos, w[..i], [w[i]], acc);
  }

  /** Each detector evolves on its own: its cursor is that of the
      single-pattern run, whatever the offsets and the table. */
  lemma {:induction false} FeedCursor(pats: seq<seq<Byte>>, cs: seq<nat>, pos: int, w: seq<Byte>, acc: Matches, k: nat)
    requires ValidState(pats, cs) && k < |pats|
    ensures Feed(pats, cs, pos, w, acc).cursors[k] == Run(pats[k], cs[k], w)
    decreases |w|
  {
    if w != [] {
      FeedCursor(pats, StepAll(pats, cs, w[0]), pos + 1, w[1..],
                 Record(acc, Lengths(pats), Matched(pats, cs, w[0]), pos, |pats|), k);
    }
  }

  /** Feeding `x + y` in one go is feeding `x`, then `y` from where `x` left
      the detectors and the table, with offsets counted on from `pos + |x|`. */
  lemma {:induction false} FeedConcat(pats: seq<seq<Byte>>, cs: seq<nat>, pos: int, x: seq<Byte>, y: seq<Byte>, acc: Matches)
    requires ValidState(pats, cs)
    ensures var f := Feed(pats, cs, pos, x, acc);
            Feed(pats, cs, pos, x + y, acc) == Feed(pats, f.cursors, pos + |x|, y, f.table)
    decreases |x|
  {
    if x == [] {
      assert x + y == y;
    } else {
      var cs', acc' := StepAll(pats, cs, x[0]), Record(acc, Lengths(pats), Matched(pats, cs, x[0]), pos, |pats|);
      assert (x + y)[0] == x[0] && (x + y)[1..] == x[1..] + y;
      assert Feed(pats, cs, pos, x + y, acc) == Feed(pats, cs', pos + 1, x[1..] + y, acc');
      FeedConcat(pats, cs', pos + 1, x[1..], y, acc');
      assert Feed(pats, cs, pos, x, acc) == Feed(pats, cs', pos + 1, x[1..], acc');
    }
  }

  /** Recording into a merge with `a` is merging `a` into the recorded table. */
  lemma {:induction false} RecordMerge(a: Matches, m: Matches, lens: seq<int>, hits: seq<bool>, pos: int, j: nat)
    requires |hits| == |lens| && j <= |lens|
    ensures Record(Merge(a, m), lens, hits, pos, j) == Merge(a, Record(m, lens, hits, pos, j))
    decreases j
  {
    if j > 0 {
      RecordMerge(a, m, lens, hits, pos, j - 1);
      if hits[j - 1] {
        MergeAdd(a, Record(m, lens, hits, pos, j - 1), pos - lens[j - 1] + 1, lens[j - 1]);
      }
    }
  }

  /** Scanning into a table that already holds `a` is merging `a` with the
      table the same scan builds from `m`; the cursors do not depend on it. */
  lemma {:induction false} FeedMerge(pats: seq<seq<Byte>>, cs: seq<nat>, pos: int, w: seq<Byte>, a: Matches, m: Matches)
    requires ValidState(pats, cs)
    ensures var f := Feed(pats, cs, pos, w, m);
            Feed(pats, cs, pos, w, Merge(a, m)) == Scanned(f.cursors, Merge(a, f.table))
    decreases |w|
  {
    if w != [] {
      var hits := Matched(pats, cs, w[0]);
      RecordMerge(a, m, Lengths(pats), hits, pos, |pats|);
      FeedMerge(pats, StepAll(pats, cs, w[0]), pos + 1, w[1..], a, Record(m, Lengths(pats), hits, pos, |pats|));
    }
  }

  /** Chunking invariance for two chunks: one `write(x + y)` leaves the
      detectors where `write(x)` followed by `write(y)` does, and returns the
      keep-longest merge of the two tables those calls return. */
  lemma SplitWrite(pats: seq<seq<Byte>>, cs: seq<nat>, pos: int, x: seq<Byte>, y: seq<Byte>)
    requires ValidState(pats, cs)
    ensures var first := Feed(pats, cs, pos, x, map[]);
            var second := Feed(pats, first.cursors, pos + |x|, y, map[]);
            Feed(pats, cs, pos, x + y, map[]) == Scanned(second.cursors, Merge(first.table, second.table))
  {
    var first := Feed(pats, cs, pos, x, map[]);
    FeedConcat(pats, cs, pos, x, y, map[]);
    MergeEmpty(first.table);
    FeedMerge(pats, first.cursors, pos + |x|, y, first.table, map[]);
  }

  /** The chunks joined end to end. */
  function Concat(chunks: seq<seq<Byte>>): seq<Byte>
  {
    if chunks == [] then [] else chunks[0] + Concat(chunks[1..])
  }

  /** Successive `write` calls, one per chunk, starting from cursors `cs` at
      absolute offset `pos`: the final cursors and the merge of the returned
      tables. */
  function WriteAll(pats: seq<seq<Byte>>, cs: seq<nat>, pos: int, chunks: seq<seq<Byte>>): Scanned
    requires ValidState(pats, cs)
    decreases |chunks|
  {
    if chunks == [] then Scanned(cs, map[])
    else
      var first := Feed(pats, cs, pos, chunks[0], map[]);
      var rest := WriteAll(pats, first.cursors, pos + |chunks[0]|, chunks[1..]);
      Scanned(rest.cursors, Merge(first.table, rest.table))
  }

  /** Chunking invariance: however a byte string is split into successive
      `write` calls, the detectors end in the same state and the merged tables
      are the table of a single `write` of the whole string. */
  lemma {:induction false} ChunkingInvariance(pats: seq<seq<Byte>>, cs: seq<nat>, pos: int, chunks: seq<seq<Byte>>)
    requires ValidState(pats, cs)
    ensures WriteAll(pats, cs, pos, chunks) == Feed(pats, cs, pos, Concat(chunks), map[])
    decreases |chunks|
  {
    if chunks != [] {
      var first := Feed(pats, cs, pos, chunks[0], map[]);
      ChunkingInvariance(pats, first.cursors, pos + |chunks[0]|, chunks[1..]);
      SplitWrite(pats, cs, pos, chunks[0], Concat(chunks[1..]));
    }
  }

  /** Every entry of `m` has one of the lengths `lens` and ends at an absolute
      position in `lo..hi-1`. */
  ghost predicate CompletesIn(m: Matches, lens: seq<int>, lo: int, hi: int)
  {
    forall k :: k in m ==> m[k] in lens && lo <= k + m[k] - 1 < hi
  }

  /** Recording completions that end at `pos` keeps every entry's end in range. */
  lemma {:induction false} RecordCompletes(acc: Matches, lens: seq<int>, hits: seq<bool>, pos: int, lo: int, j: nat)
    requires |hits| == |lens| && j <= |lens|
    requires lo <= pos && CompletesIn(acc, lens, lo, pos + 1)
    ensures CompletesIn(Record(acc, lens, hits, pos, j), lens, lo, pos + 1)
    decreases j
  {
    if j > 0 {
      RecordCompletes(acc, lens, hits, pos, lo, j - 1);
      var m := Record(acc, lens, hits, pos, j - 1);
      if hits[j - 1] {
        AddEntries(m, pos - lens[j - 1] + 1, lens[j - 1]);
        assert lens[j - 1] in lens;
      }
    }
  }

  /** Every entry `Feed` adds ends on one of the bytes it consumed. */
  lemma {:induction false} FeedCompletes(pats: seq<seq<Byte>>, cs: seq<nat>, pos: int, w: seq<Byte>, acc: Matches, lo: int)
    requires ValidState(pats, cs)
    requires lo <= pos && CompletesIn(acc, Lengths(pats), lo, pos)
    ensures CompletesIn(Feed(pats, cs, pos, w, acc).table, Lengths(pats), lo, pos + |w|)
    decreases |w|
  {
    if w != [] {
      var hits := Matched(pats, cs, w[0]);
      RecordCompletes(acc, Lengths(pats), hits, pos, lo, |pats|);
      FeedCompletes(pats, StepAll(pats, cs, w[0]), pos + 1, w[1..], Record(acc, Lengths(pats), hits, pos, |pats|), lo);
    }
  }

  /** Each match `write` reports has the length of one of the patterns and
      completes on a byte of the chunk just written, even when it started in
      an earlier chunk. */
  lemma WriteCompletesInChunk(pats: seq<seq<Byte>>, cs: seq<nat>, pos: int, w: seq<Byte>)
    requires ValidState(pats, cs)
    ensures CompletesIn(Feed(pats, cs, pos, w, map[]).table, Lengths(pats), pos, pos + |w|)
  {
    FeedCompletes(pats, cs, pos, w, map[], pos);
  }

  /** With no detector reporting, recording changes nothing. */
  lemma {:induction false} RecordNothing(acc: Matches, lens: seq<int>, hits: seq<bool>, pos: int, j: nat)
    requires |hits| == |lens| && j <= |lens|
    requires forall k :: 0 <= k < j ==> !hits[k]
    ensures Record(acc, lens, hits, pos, j) == acc
    decreases j
  {
    if j > 0 {
      RecordNothing(acc, lens, hits, pos, j - 1);
    }
  }

  /** `b` occurs in none of the patterns. */
  predicate Foreign(pats: seq<seq<Byte>>, b: Byte)
  {
    forall k :: 0 <= k < |pats| ==> b !in pats[k]
  }

  /** A byte that occurs in no pattern completes none, and leaves every
      detector that had matched nothing at 0. */
  lemma ForeignByte(pats: seq<seq<Byte>>, cs: seq<nat>, b: Byte)
    requires ValidState(pats, cs) && Foreign(pats, b)
    ensures forall k :: 0 <= k < |pats| ==> !Matched(pats, cs, b)[k]
    ensures forall k :: 0 <= k < |pats| && cs[k] == 0 ==> StepAll(pats, cs, b)[k] == 0
  {
    forall k | 0 <= k < |pats|
      ensures !Matched(pats, cs, b)[k]
      ensures cs[k] == 0 ==> StepAll(pats, cs, b)[k] == 0
    {
      StepForeignByte(pats[k], cs[k], b);
    }
  }

  /** Bytes that occur in no pattern add nothing to the table, whatever the
      cursors. */
  lemma {:induction false} ForeignBytesReportNothing(pats: seq<seq<Byte>>, cs: seq<nat>, pos: int, w: seq<Byte>, acc: Matches)
    requires ValidState(pats, cs)
    requires forall i :: 0 <= i < |w| ==> Foreign(pats, w[i])
    ensures Feed(pats, cs, pos, w, acc).table == acc
    decreases |w|
  {
    if w != [] {
      ForeignByte(pats, cs, w[0]);
      RecordNothing(acc, Lengths(pats), Matched(pats, cs, w[0]), pos, |pats|);
      ForeignBytesReportNothing(pats, StepAll(pats, cs, w[0]), pos + 1, w[1..], acc);
    }
  }

  /** Fed bytes that occur in no pattern, detectors that had matched nothing
      still have matched nothing. */
  lemma {:induction false} ForeignBytesKeepReset(pats: seq<seq<Byte>>, cs: seq<nat>, pos: int, w: seq<Byte>, acc: Matches)
    requires ValidState(pats, cs) && forall k :: 0 <= k < |cs| ==> cs[k] == 0
    requires forall i :: 0 <= i < |w| ==> Foreign(pats, w[i])
    ensures Feed(pats, cs, pos, w, acc).cursors == cs
    decreases |w|
  {
    if w != [] {
      ForeignByte(pats, cs, w[0]);
      assert StepAll(pats, cs, w[0]) == cs;
      ForeignBytesKeepReset(pats, cs, pos + 1, w[1..], Record(acc, Lengths(pats), Matched(pats, cs, w[0]), pos, |pats|));
    }
  }

  /** A detector `i` bytes into its pattern, fed the rest of the pattern,
      reports it exactly once, at the offset where it started, and is back at 0. */
  lemma {:induction false} RestOfPatternReportedOnce(p: seq<Byte>, i: nat, base: int)
    requires i < |p|
    ensures Feed([p], [i], base + i, p[i..], map[]) == Scanned([0], map[base := |p|])
    decreases |p| - i
  {
    assert p[i..][0] == p[i] && p[i..][1..] == p[i + 1..];
    assert Step(p, i, p[i]) == Advance(p, i);
    assert Lengths([p]) == [|p|];
    if i + 1 == |p| {
      assert Matched([p], [i], p[i]) == [true];
      assert StepAll([p], [i], p[i]) == [0];
      assert p[i + 1..] == [];
    } else {
      assert Matched([p], [i], p[i]) == [false];
      assert StepAll([p], [i], p[i]) == [i + 1];
      RestOfPatternReportedOnce(p, i + 1, base);
    }
  }

  /** A single pattern written, whole, to a fresh detector is reported exactly
      once, at the offset where it starts, and the detector is back at 0. */
  lemma WholePatternReportedOnce(p: seq<Byte>, base: int)
    requires |p| > 0
    ensures Feed([p], [0], base, p, map[]) == Scanned([0], map[base := |p|])
  {
    RestOfPatternReportedOnce(p, 0, base);
    assert p[0..] == p;
  }
}
