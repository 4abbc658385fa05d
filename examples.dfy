/**
 Concrete runs of the matcher on small patterns, written with byte values
 (`a` = 0x61, `b` = 0x62, `c` = 0x63, `f` = 0x66, `o` = 0x6F, `r` = 0x72).
 */
module MaskerExamples {
  import opened MatchTable
  import opened SequenceDetection
  import opened StreamMatching
  import opened StreamMatcher

  const FooFooBar: seq<Byte> := [0x66, 0x6F, 0x6F, 0x66, 0x6F, 0x6F, 0x62, 0x61, 0x72]
  const FooFooFooBar: seq<Byte> := [0x66, 0x6F, 0x6F, 0x66, 0x6F, 0x6F, 0x66, 0x6F, 0x6F, 0x62, 0x61, 0x72]
  const AA: seq<Byte> := [0x61, 0x61]
  const AAA: seq<Byte> := [0x61, 0x61, 0x61]
  const AAAA: seq<Byte> := [0x61, 0x61, 0x61, 0x61]
  const AAB: seq<Byte> := [0x61, 0x61, 0x62]
  const AACAB: seq<Byte> := [0x61, 0x61, 0x63, 0x61, 0x62]

  /** After `foofoo` a further `f` mismatches `b`; `findShift` falls back by
      3, to the prefix `foo`, from which the `f` is accepted. */
  lemma FooFooBarShift()
    ensures Shift(FooFooBar, 6) == 3
    ensures Step(FooFooBar, 6, 0x66) == StepResult(false, 4)
  {
  }

  /** Two detectors, at cursors `c` and `d`, consume byte `k` of a stream that
      starts at offset 0; the first one's completion is added first. */
  lemma FeedOneOfTwo(p: seq<Byte>, q: seq<Byte>, w: seq<Byte>, k: nat, c: nat, d: nat, acc: Matches,
                     c': nat, d': nat, mid: Matches, acc': Matches)
    requires ValidCursor(p, c) && ValidCursor(q, d) && k < |w|
    requires Step(p, c, w[k]).cursor == c' && Step(q, d, w[k]).cursor == d'
    requires mid == if Step(p, c, w[k]).matched then Add(acc, k - |p| + 1, |p|) else acc
    requires acc' == if Step(q, d, w[k]).matched then Add(mid, k - |q| + 1, |q|) else mid
    ensures Feed([p, q], [c, d], k, w[k..], acc) == Feed([p, q], [c', d'], k + 1, w[k + 1..], acc')
  {
    var r, t := Step(p, c, w[k]), Step(q, d, w[k]);
    assert w[k..][0] == w[k] && w[k..][1..] == w[k + 1..];
    assert StepAll([p, q], [c, d], w[k]) == [r.cursor, t.cursor];
    assert Matched([p, q], [c, d], w[k]) == [r.matched, t.matched];
    assert Lengths([p, q]) == [|p|, |q|];
    assert Record(acc, [|p|, |q|], [r.matched, t.matched], k, 1) == mid;
  }

  /** `Feed` for a single detector from byte `k` of `w` on, written
      without the per-detector sequences: the final cursor and the table. */
  function Scan(p: seq<Byte>, w: seq<Byte>, k: nat, c: nat, acc: Matches): (nat, Matches)
    requires ValidCursor(p, c) && k <= |w|
    decreases |w| - k
  {
    if k == |w| then (c, acc)
    else
      var r := Step(p, c, w[k]);
      Scan(p, w, k + 1, r.cursor, if r.matched then Add(acc, k - |p| + 1, |p|) else acc)
  }

  lemma {:induction false} FeedSingle(p: seq<Byte>, w: seq<Byte>, k: nat, c: nat, acc: Matches)
    requires ValidCursor(p, c) && k <= |w|
    ensures Feed([p], [c], k, w[k..], acc) == Scanned([Scan(p, w, k, c, acc).0], Scan(p, w, k, c, acc).1)
    decreases |w| - k
  {
    if k < |w| {
      var r := Step(p, c, w[k]);
      assert w[k..][0] == w[k] && w[k..][1..] == w[k + 1..];
      assert StepAll([p], [c], w[k]) == [r.cursor];
      assert Matched([p], [c], w[k]) == [r.matched];
      assert Lengths([p]) == [|p|];
      FeedSingle(p, w, k + 1, r.cursor, if r.matched then Add(acc, k - |p| + 1, |p|) else acc);
    }
  }

  /** The first six bytes, `foofoo`, each advance the detector. */
  lemma FooFooBarPrefix(p: seq<Byte>, w: seq<Byte>)
    requires p == FooFooBar && w == FooFooFooBar
    ensures Scan(p, w, 0, 0, map[]) == Scan(p, w, 6, 6, map[])
  {
    assert Scan(p, w, 0, 0, map[]) == Scan(p, w, 3, 3, map[]);
  }

  /** The next `f` mismatches `b`; the detector falls back and accepts it. */
  lemma FooFooBarFallback(p: seq<Byte>, w: seq<Byte>)
    requires p == FooFooBar && w == FooFooFooBar
    ensures Scan(p, w, 6, 6, map[]) == Scan(p, w, 7, 4, map[])
  {
    FooFooBarShift();
  }

  /** The remaining `oobar` completes the pattern at offset 3. */
  lemma FooFooBarSuffix(p: seq<Byte>, w: seq<Byte>)
    requires p == FooFooBar && w == FooFooFooBar
    ensures Scan(p, w, 7, 4, map[]) == (0, map[3 := 9])
  {
    assert Scan(p, w, 9, 6, map[]) == (0, map[3 := 9]);
  }

  /** `foofoobar` inside `foofoofoobar` is found, at offset 3: the fallback
      of `findShift` recovers the overlapping start. */
  lemma FooFooBarFound(p: seq<Byte>, w: seq<Byte>)
    requires p == FooFooBar && w == FooFooFooBar
    ensures Feed([p], [0], 0, w, map[]) == Scanned([0], map[3 := 9])
  {
    FooFooBarPrefix(p, w);
    FooFooBarFallback(p, w);
    FooFooBarSuffix(p, w);
    FeedSingle(p, w, 0, 0, map[]);
    assert w[0..] == w;
  }

  /** After a completion the detector restarts from 0, so matches of `aa` in
      `aaaa` do not overlap: offsets 0 and 2, not 1. */
  lemma RestartAfterMatch(p: seq<Byte>, w: seq<Byte>)
    requires p == AA && w == AAAA
    ensures Feed([p], [0], 0, w, map[]) == Scanned([0], map[0 := 2, 2 := 2])
  {
    assert Scan(p, w, 0, 0, map[]) == (0, map[0 := 2, 2 := 2]);
    FeedSingle(p, w, 0, 0, map[]);
    assert w[0..] == w;
  }

  /** Patterns `aa` and `aaa` on `aaaa`: the longer match at offset 0 wins
      over the shorter one, and `aa` is found again at offset 2; nothing is
      reported at offset 1. */
  lemma LongestAtEachOffset(p: seq<Byte>, q: seq<Byte>, w: seq<Byte>)
    requires p == AA && q == AAA && w == AAAA
    ensures Feed([p, q], [0, 0], 0, w, map[]) == Scanned([0, 1], map[0 := 3, 2 := 2])
  {
    var e: Matches := map[];
    FeedOneOfTwo(p, q, w, 0, 0, 0, e, 1, 1, e, e);
    FeedOneOfTwo(p, q, w, 1, 1, 1, e, 0, 2, map[0 := 2], map[0 := 2]);
    FeedOneOfTwo(p, q, w, 2, 0, 2, map[0 := 2], 1, 0, map[0 := 2], map[0 := 3]);
    FeedOneOfTwo(p, q, w, 3, 1, 0, map[0 := 3], 0, 1, map[0 := 3, 2 := 2], map[0 := 3, 2 := 2]);
    assert w[0..] == w && w[4..] == [];
  }

  /** `aa` advances the detector to cursor 2; then `c` mismatches `b`, the
      detector falls back to cursor 1, and `c` mismatches there too. */
  lemma FalsePositivePrefix(p: seq<Byte>, w: seq<Byte>)
    requires p == AAB && w == AACAB
    ensures Scan(p, w, 0, 0, map[]) == Scan(p, w, 3, 1, map[])
  {
    assert Shift(AAB, 2) == 1;
  }

  /** The single fallback can leave the detector out of step with the input:
      `aab` is reported at offset 2 of `aacab`, where the input reads `cab`. */
  lemma FalsePositive(p: seq<Byte>, w: seq<Byte>)
    requires p == AAB && w == AACAB
    ensures LosesAlignment(p, 2, w[2])
    ensures Feed([p], [0], 0, w, map[]) == Scanned([0], map[2 := 3])
    ensures w[2..5] != p
  {
    FalsePositivePrefix(p, w);
    assert Scan(p, w, 3, 1, map[]) == (0, map[2 := 3]);
    FeedSingle(p, w, 0, 0, map[]);
    assert w[0..] == w;
    assert w[2..5][0] != p[0];
  }

  /** The same run through the `Matcher` class: `newMatcher` then `write`. */
  method FooFooBarWrite() returns (res: Matches)
    ensures res == map[3 := 9]
  {
    var p, w := FooFooBar, FooFooFooBar;
    var m := new Matcher([p]);
    assert m.Cursors() == [0];
    res := m.Write(w);
    FooFooBarFound(p, w);
  }
}
