/**
 The `matcher`: one sequence detector per pattern plus the absolute offset of
 the next byte of the stream. `write` feeds every byte of a chunk to every
 detector in order and returns a fresh table of the matches that complete in
 that chunk, each at its absolute start offset.
 */
module StreamMatcher {
  import opened MatchTable
  import opened SequenceDetection
  import opened StreamMatching

  /** `matcher`: its `matchers`, one sequence detector per pattern in order,
      and `currentIndex`, the absolute offset of the next byte of the stream. */
  class Matcher {
    const matchers: seq<SequenceDetector>
    var currentIndex: nat

    /** Every detector has an in-range cursor, and no two entries are the same
        detector. */
    ghost predicate Valid()
      reads matchers
    {
      && Distinct()
      && (forall k :: 0 <= k < |matchers| ==> matchers[k].Valid())
    }

    /** No detector occurs twice, so stepping one leaves the others alone. */
    predicate Distinct()
    {
      forall k, l :: 0 <= k < l < |matchers| ==> matchers[k] != matchers[l]
    }

    /** The patterns of the matchers, in order. */
    function Patterns(): seq<seq<Byte>>
    {
      seq(|matchers|, k requires 0 <= k < |matchers| => matchers[k].sequence)
    }

    /** The cursors of the matchers, in order. */
    ghost function Cursors(): seq<nat>
      reads matchers
    {
      seq(|matchers|, k requires 0 <= k < |matchers| reads matchers => matchers[k].currentIndex)
    }

    /** `newMatcher`: one fresh detector per pattern, in the given order, with
        nothing matched and the stream offset at 0. */
    constructor (sequences: seq<seq<Byte>>)
      requires forall k :: 0 <= k < |sequences| ==> |sequences[k]| > 0
      ensures Valid()
      ensures forall k :: 0 <= k < |matchers| ==> fresh(matchers[k])
      ensures Patterns() == sequences
      ensures Cursors() == seq(|sequences|, k => 0)
      ensures currentIndex == 0
    {
      var ds: seq<SequenceDetector> := [];
      for i := 0 to |sequences|
        invariant |ds| == i
        invariant forall k :: 0 <= k < i ==> fresh(ds[k]) && ds[k].Valid()
        invariant forall k :: 0 <= k < i ==> ds[k].sequence == sequences[k] && ds[k].currentIndex == 0
        invariant forall k, l :: 0 <= k < l < i ==> ds[k] != ds[l]
      {
        var d := new SequenceDetector(sequences[i]);
        ds := ds + [d];
      }
      matchers := ds;
      currentIndex := 0;
    }

    /** Detectors `[0, j)` have consumed `b` and their completions are in
        `res`; matchers `[j, n)` are untouched. */
    ghost predicate FedUpTo(j: nat, b: Byte, pos: int, acc: Matches, before: seq<nat>, res: Matches)
      requires ValidState(Patterns(), before) && j <= |matchers|
      reads matchers
    {
      && (forall k :: 0 <= k < j ==> matchers[k].currentIndex == StepAll(Patterns(), before, b)[k])
      && (forall k :: j <= k < |matchers| ==> matchers[k].currentIndex == before[k])
      && res == Record(acc, Lengths(Patterns()), Matched(Patterns(), before, b), pos, j)
    }

    /** Before the inner loop nothing has consumed `b` and nothing is recorded. */
    lemma FedNone(b: Byte, pos: int, acc: Matches)
      requires Valid()
      ensures ValidState(Patterns(), Cursors()) && FedUpTo(0, b, pos, acc, Cursors(), acc)
    {
    }

    /** After the inner loop every detector has consumed `b`: the cursors and
        the table are those of `Feed` on the one byte. */
    lemma FedAll(b: Byte, pos: int, acc: Matches, before: seq<nat>, res: Matches)
      requires Distinct() && ValidState(Patterns(), before)
      requires FedUpTo(|matchers|, b, pos, acc, before, res)
      ensures Valid() && Scanned(Cursors(), res) == Feed(Patterns(), before, pos, [b], acc)
    {
      assert Cursors() == StepAll(Patterns(), before, b);
      FeedOne(Patterns(), before, pos, b, acc, Cursors(), res);
    }

    /** The body of the inner loop of `write`: detector `j` consumes `b`. */
    method FeedDetector(j: nat, b: Byte, pos: int, ghost acc: Matches, ghost before: seq<nat>, res: Matches)
      returns (res': Matches)
      requires Distinct() && ValidState(Patterns(), before) && j < |matchers|
      requires FedUpTo(j, b, pos, acc, before, res)
      modifies matchers[j]
      ensures FedUpTo(j + 1, b, pos, acc, before, res')
    {
      ghost var pats := Patterns();
      var d := matchers[j];
      var matched := d.WriteByte(b);
      assert matched == Matched(pats, before, b)[j] && |d.sequence| == Lengths(pats)[j];
      assert d.currentIndex == StepAll(pats, before, b)[j];
      res' := res;
      if matched {
        res' := Add(res, pos - |d.sequence| + 1, |d.sequence|);
      }
      RecordStep(acc, Lengths(pats), Matched(pats, before, b), pos, j, res, res');
    }

    /** The inner loop of `write`: feeds byte `b`, at absolute position
        `pos`, to every detector in order, adding each completion to `acc`. */
    method FeedDetectors(b: Byte, pos: int, acc: Matches) returns (res: Matches)
      requires Valid()
      modifies matchers
      ensures Valid()
      ensures Scanned(Cursors(), res) == Feed(Patterns(), old(Cursors()), pos, [b], acc)
    {
      ghost var before := Cursors();
      FedNone(b, pos, acc);
      res := acc;
      for j := 0 to |matchers|
        invariant FedUpTo(j, b, pos, acc, before, res)
      {
        res := FeedDetector(j, b, pos, acc, before, res);
      }
      FedAll(b, pos, acc, before, res);
    }

    /** `write`: feeds the chunk, byte by byte, to every detector, returns
        the table of the matches completed in it, and advances the stream
        offset past it. */
    method Write(chunk: seq<Byte>) returns (res: Matches)
      requires Valid()
      modifies this, matchers
      ensures Valid()
      ensures currentIndex == old(currentIndex) + |chunk|
      ensures Scanned(Cursors(), res) == Feed(Patterns(), old(Cursors()), old(currentIndex), chunk, map[])
    {
      ghost var pats := Patterns();
      ghost var start := Cursors();
      res := map[];
      for i := 0 to |chunk|
        invariant Valid()
        invariant currentIndex == old(currentIndex)
        invariant Scanned(Cursors(), res) == Feed(pats, start, currentIndex, chunk[..i], map[])
      {
        ghost var mid := Scanned(Cursors(), res);
        res := FeedDetectors(chunk[i], currentIndex + i, res);
        FeedSnoc(pats, start, currentIndex, chunk, i, map[], mid, Scanned(Cursors(), res));
      }
      assert chunk[..|chunk|] == chunk;
      currentIndex := currentIndex + |chunk|;
    }
  }
}
