/**
 The per-pattern state machine (`sequenceDetector`): it consumes one byte at a
 time and reports whether that byte completes its pattern. `currentIndex` is
 the number of leading pattern bytes currently matched; on a mismatch it falls
 back once by the shift that `findShift` computes and retries the byte once.
 */
module SequenceDetection {

  type Byte = bv8

  /** Shifting the matched prefix `s[..c]` right by `k` keeps it consistent
      with the pattern: `s[0..c-k)` equals `s[k..c)`. */
  predicate IsShift(s: seq<Byte>, c: nat, k: nat)
    requires k <= c <= |s|
  {
    s[..c - k] == s[k..c]
  }

  /** `b` bytes form a proper border of `w`: a proper prefix that is also a suffix. */
  predicate IsBorder(w: seq<Byte>, b: nat)
  {
    b < |w| && w[..b] == w[|w| - b..]
  }

  /** `s[i..c-k)` equals `s[i+k..c)`, compared byte by byte from `i` on, as
      the inner loop of `findShift` compares them. */
  predicate Agree(s: seq<Byte>, c: nat, k: nat, i: nat)
    requires k <= c <= |s| && i <= c - k
    decreases c - k - i
  {
    i == c - k || (s[i] == s[i + k] && Agree(s, c, k, i + 1))
  }

  lemma {:induction false} AgreeIsShift(s: seq<Byte>, c: nat, k: nat, i: nat)
    requires k <= c <= |s| && i <= c - k
    ensures Agree(s, c, k, i) <==> s[i..c - k] == s[i + k..c]
    decreases c - k - i
  {
    if i < c - k {
      AgreeIsShift(s, c, k, i + 1);
      assert s[i..c - k] == [s[i]] + s[i + 1..c - k];
      assert s[i + k..c] == [s[i + k]] + s[i + k + 1..c];
    }
  }

  /** The brute-force search of `findShift`, from candidate `k` upward. The
      candidate `c` always succeeds, as the comparison is then empty. */
  function ShiftFrom(s: seq<Byte>, c: nat, k: nat): (r: nat)
    requires 1 <= k <= c <= |s|
    ensures k <= r <= c
    decreases c - k
  {
    if Agree(s, c, k, 0) then k else ShiftFrom(s, c, k + 1)
  }

  /** What `findShift` returns for cursor `c`: 0 when nothing is matched,
      otherwise a positive shift (the smallest consistent one, by `ShiftMinimal`). */
  function Shift(s: seq<Byte>, c: nat): (r: nat)
    requires c <= |s|
    ensures r <= c
    ensures r == 0 <==> c == 0
  {
    if c == 0 then 0 else ShiftFrom(s, c, 1)
  }

  lemma {:induction false} ShiftFromFirst(s: seq<Byte>, c: nat, k: nat)
    requires 1 <= k <= c <= |s|
    ensures IsShift(s, c, ShiftFrom(s, c, k))
    ensures forall j :: k <= j < ShiftFrom(s, c, k) ==> !IsShift(s, c, j)
    decreases c - k
  {
    AgreeIsShift(s, c, k, 0);
    if !Agree(s, c, k, 0) {
      ShiftFromFirst(s, c, k + 1);
    }
  }

  /** For a non-empty matched prefix, `findShift` returns the smallest
      positive shift that keeps it consistent with the pattern. */
  lemma ShiftMinimal(s: seq<Byte>, c: nat)
    requires 0 < c <= |s|
    ensures IsShift(s, c, Shift(s, c))
    ensures forall j :: 1 <= j < Shift(s, c) ==> !IsShift(s, c, j)
  {
    ShiftFromFirst(s, c, 1);
  }

  /** The cursor left after the shift is the length of the longest proper
      border of the matched prefix: the KMP failure function. */
  lemma ShiftIsLongestBorder(s: seq<Byte>, c: nat)
    requires 0 < c <= |s|
    ensures IsBorder(s[..c], c - Shift(s, c))
    ensures forall b: nat :: IsBorder(s[..c], b) ==> b <= c - Shift(s, c)
  {
    var w := s[..c];
    var k := Shift(s, c);
    ShiftMinimal(s, c);
    assert w[..c - k] == s[..c - k];
    assert w[c - (c - k)..] == s[k..c];
    forall b: nat | IsBorder(w, b)
      ensures b <= c - k
    {
      assert w[..b] == s[..c - (c - b)];
      assert w[|w| - b..] == s[c - b..c];
      assert IsShift(s, c, c - b);
    }
  }

  /** Outcome of feeding one byte: whether it completed the pattern, and the new cursor. */
  datatype StepResult = StepResult(matched: bool, cursor: nat)

  predicate ValidCursor(s: seq<Byte>, c: nat)
  {
    0 < |s| && c < |s|
  }

  /** The first branch of `writeByte`: the byte matches at the cursor. */
  function Advance(s: seq<Byte>, c: nat): (r: StepResult)
    requires ValidCursor(s, c)
    ensures ValidCursor(s, r.cursor)
    ensures r.matched <==> c + 1 == |s|
    ensures r.matched ==> r.cursor == 0
    ensures !r.matched ==> r.cursor == c + 1
  {
    if c + 1 == |s| then StepResult(true, 0) else StepResult(false, c + 1)
  }

  /** One call of `writeByte(b)` with cursor `c`, the single retry included. */
  function Step(s: seq<Byte>, c: nat, b: Byte): (r: StepResult)
    requires ValidCursor(s, c)
    ensures ValidCursor(s, r.cursor)
    ensures r.matched ==> r.cursor == 0 && b == s[|s| - 1]
    ensures s[c] == b ==> r == Advance(s, c)
  {
    if s[c] == b then Advance(s, c)
    else
      var shifted := c - Shift(s, c);
      if s[shifted] == b then Advance(s, shifted) else StepResult(false, shifted)
  }

  /** The cursor after feeding the bytes `w` one at a time from cursor `c`. */
  function Run(s: seq<Byte>, c: nat, w: seq<Byte>): (r: nat)
    requires ValidCursor(s, c)
    ensures ValidCursor(s, r)
    decreases |w|
  {
    if w == [] then c else Run(s, Step(s, c, w[0]).cursor, w[1..])
  }

  /** Feeding `x` and then `y` leaves the cursor where feeding `x + y` does:
      the detector's state carries across chunk boundaries. */
  lemma {:induction false} RunConcat(s: seq<Byte>, c: nat, x: seq<Byte>, y: seq<Byte>)
    requires ValidCursor(s, c)
    ensures Run(s, c, x + y) == Run(s, Run(s, c, x), y)
    decreases |x|
  {
    if x == [] {
      assert x + y == y;
    } else {
      assert (x + y)[0] == x[0] && (x + y)[1..] == x[1..] + y;
      RunConcat(s, Step(s, c, x[0]).cursor, x[1..], y);
    }
  }

  /** `h` ends with the first `c` bytes of the pattern. */
  predicate Aligned(h: seq<Byte>, s: seq<Byte>, c: nat)
  {
    c <= |h| && c <= |s| && h[|h| - c..] == s[..c]
  }

  /** The one case in which `writeByte` loses track of the input: the byte
      mismatches, the fallback keeps a non-empty prefix, and the byte mismatches
      there too; the cursor is then left at the shifted value. */
  predicate LosesAlignment(s: seq<Byte>, c: nat, b: Byte)
    requires ValidCursor(s, c)
  {
    var shifted := c - Shift(s, c);
    s[c] != b && shifted > 0 && s[shifted] != b
  }

  /** The fallback of `findShift` keeps the cursor consistent with the
      history: a shorter prefix of the pattern still ends it. */
  lemma ShiftKeepsAlignment(h: seq<Byte>, s: seq<Byte>, c: nat)
    requires 0 < c <= |s| && Aligned(h, s, c)
    ensures Aligned(h, s, c - Shift(s, c))
  {
    var d := c - Shift(s, c);
    ShiftMinimal(s, c);
    assert h[|h| - d..] == h[|h| - c..][c - d..];
  }

  /** Accepting byte `b` at a consistent cursor `d`: either the history with
      `b` ends with the whole pattern, or the next cursor is consistent. */
  lemma AdvanceExtendsAlignment(h: seq<Byte>, s: seq<Byte>, d: nat, b: Byte)
    requires ValidCursor(s, d) && Aligned(h, s, d) && s[d] == b
    ensures Advance(s, d).matched ==> |s| <= |h| + 1 && (h + [b])[|h| + 1 - |s|..] == s
    ensures !Advance(s, d).matched ==> Aligned(h + [b], s, Advance(s, d).cursor)
  {
    var h' := h + [b];
    assert h'[|h'| - (d + 1)..] == h[|h| - d..] + [b];
    assert s[..d + 1] == s[..d] + [s[d]];
    if d + 1 == |s| {
      assert s[..d + 1] == s;
    }
  }

  /** From a cursor that agrees with the history `h`, a step that does not lose
      alignment reports a match only when `h + [b]` really ends with the whole
      pattern, and otherwise leaves a cursor that agrees with `h + [b]`. */
  lemma StepFromAligned(h: seq<Byte>, s: seq<Byte>, c: nat, b: Byte)
    requires ValidCursor(s, c) && Aligned(h, s, c)
    requires !LosesAlignment(s, c, b)
    ensures Step(s, c, b).matched ==> |s| <= |h| + 1 && (h + [b])[|h| + 1 - |s|..] == s
    ensures !Step(s, c, b).matched ==> Aligned(h + [b], s, Step(s, c, b).cursor)
  {
    if s[c] == b {
      AdvanceExtendsAlignment(h, s, c, b);
    } else {
      var d := c - Shift(s, c);
      if c > 0 {
        ShiftKeepsAlignment(h, s, c);
      }
      if s[d] == b {
        AdvanceExtendsAlignment(h, s, d, b);
      } else {
        assert d == 0;
      }
    }
  }

  /** A byte that occurs nowhere in the pattern never completes it, and a
      detector that has matched nothing stays at 0. */
  lemma StepForeignByte(s: seq<Byte>, c: nat, b: Byte)
    requires ValidCursor(s, c) && b !in s
    ensures !Step(s, c, b).matched
    ensures Step(s, c, b).cursor == c - Shift(s, c)
    ensures c == 0 ==> Step(s, c, b).cursor == 0
  {
    assert s[c] != b;
    assert s[c - Shift(s, c)] != b;
  }

  /** A detector at cursor `i`, fed the pattern bytes up to `k < |s|`, ends
      at cursor `k`: it follows its own pattern without falling back. */
  lemma {:induction false} RunOwnPrefix(s: seq<Byte>, i: nat, k: nat)
    requires i <= k < |s|
    ensures Run(s, i, s[i..k]) == k
    decreases k - i
  {
    if i < k {
      assert s[i..k][0] == s[i] && s[i..k][1..] == s[i + 1..k];
      RunOwnPrefix(s, i + 1, k);
    }
  }

  /** `sequenceDetector`: one pattern and the count of its leading bytes
      matched so far. */
  class SequenceDetector {
    const sequence: seq<Byte>
    var currentIndex: nat

    predicate Valid()
      reads this
    {
      ValidCursor(sequence, currentIndex)
    }

    /** A detector for a non-empty pattern, with nothing matched yet. */
    constructor (sequence: seq<Byte>)
      requires |sequence| > 0
      ensures Valid()
      ensures this.sequence == sequence && currentIndex == 0
    {
      this.sequence := sequence;
      currentIndex := 0;
    }

    /** `findShift`: the brute-force search for the smallest positive shift
        under which the matched prefix stays consistent with the pattern. */
    method FindShift() returns (shift: nat)
      requires Valid()
      ensures shift == Shift(sequence, currentIndex)
    {
      var offset := 1;
      while offset <= currentIndex
        invariant 1 <= offset <= currentIndex || (currentIndex == 0 && offset == 1)
        invariant offset <= currentIndex ==>
          ShiftFrom(sequence, currentIndex, offset) == Shift(sequence, currentIndex)
      {
        var ok := true;
        var i := 0;
        while i < currentIndex - offset
          invariant 0 <= i <= currentIndex - offset
          invariant ok
          invariant Agree(sequence, currentIndex, offset, i) == Agree(sequence, currentIndex, offset, 0)
        {
          if sequence[i] != sequence[i + offset] {
            ok := false;
            break;
          }
          i := i + 1;
        }
        if ok {
          return offset;
        }
        offset := offset + 1;
      }
      return currentIndex;
    }

    /** `writeByte`: consumes one byte and reports whether it completes the
        pattern. On a mismatch the cursor falls back by `FindShift`, and the
        byte is retried only when it matches at the shifted cursor, so the
        retry takes the first branch and the recursion stops there. */
    method WriteByte(b: Byte) returns (matched: bool)
      requires Valid()
      modifies this
      ensures Valid()
      ensures matched ==> currentIndex == 0
      ensures matched == Step(sequence, old(currentIndex), b).matched
      ensures currentIndex == Step(sequence, old(currentIndex), b).cursor
      decreases if sequence[currentIndex] == b then 0 else 1
    {
      if sequence[currentIndex] == b {
        currentIndex := currentIndex + 1;
        if currentIndex == |sequence| {
          currentIndex := 0;
          return true;
        }
        return false;
      }
      var shift := FindShift();
      currentIndex := currentIndex - shift;
      if sequence[currentIndex] == b {
        matched := WriteByte(b);
        return;
      }
      return false;
    }
  }
}
