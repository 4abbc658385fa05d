/**
 The set of matches reported by one `write` call: a map from the absolute
 stream offset at which a match starts to the length of that match.
 */
module MatchTable {

  type Matches = map<int, int>

  function Max(a: int, b: int): (r: int)
    ensures r >= a && r >= b && (r == a || r == b)
  {
    if a < b then b else a
  }

  /** Records a match of `length` bytes at `index`, keeping the longer length
      when a match is already recorded there. */
  function Add(m: Matches, index: int, length: int): Matches
  {
    if index !in m || m[index] < length then m[index := length] else m
  }

  /** `Add` inserts the new offset, keeps the longer of two lengths recorded
      at the same offset, and changes no other entry. */
  lemma AddEntries(m: Matches, index: int, length: int)
    ensures Add(m, index, length).Keys == m.Keys + {index}
    ensures index !in m ==> Add(m, index, length)[index] == length
    ensures index in m ==> Add(m, index, length)[index] == Max(m[index], length)
    ensures forall k :: k in m && k != index ==> Add(m, index, length)[k] == m[k]
  {
  }

  /** Folds every entry of `b` into `a` with keep-longest insertion. */
  function Merge(a: Matches, b: Matches): Matches
  {
    map k | k in a.Keys + b.Keys ::
      if k in a && (k !in b || b[k] <= a[k]) then a[k] else b[k]
  }

  /** `Merge` keeps every offset of either table and, where both record one,
      the longer length. */
  lemma MergeEntries(a: Matches, b: Matches)
    ensures Merge(a, b).Keys == a.Keys + b.Keys
    ensures forall k :: k in a && k !in b ==> Merge(a, b)[k] == a[k]
    ensures forall k :: k !in a && k in b ==> Merge(a, b)[k] == b[k]
    ensures forall k :: k in a && k in b ==> Merge(a, b)[k] == Max(a[k], b[k])
  {
  }

  /** Two insertions give the same table in either order. */
  lemma AddCommutes(m: Matches, i: int, a: int, j: int, b: int)
    ensures Add(Add(m, i, a), j, b) == Add(Add(m, j, b), i, a)
  {
    var left, right := Add(Add(m, i, a), j, b), Add(Add(m, j, b), i, a);
    forall k | k in left
      ensures left[k] == right[k]
    {
      if k == i && k == j {
        if k in m {
          assert left[k] == Max(Max(m[k], a), b);
          assert right[k] == Max(Max(m[k], b), a);
        }
      }
    }
  }

  /** Inserting the same match twice is the same as inserting it once. */
  lemma AddIdempotent(m: Matches, i: int, l: int)
    ensures Add(Add(m, i, l), i, l) == Add(m, i, l)
  {
  }

  /** Merging an empty table changes nothing. */
  lemma MergeEmpty(a: Matches)
    ensures Merge(a, map[]) == a
  {
  }

  /** Merging with a table that received one more insertion is the same as
      performing that insertion on the merged table: `Merge` is the fold of
      `Add` over the entries of its second argument. */
  lemma MergeAdd(a: Matches, b: Matches, i: int, l: int)
    ensures Merge(a, Add(b, i, l)) == Add(Merge(a, b), i, l)
  {
    var left, right := Merge(a, Add(b, i, l)), Add(Merge(a, b), i, l);
    forall k | k in left
      ensures left[k] == right[k]
    {
      if k == i && k in a && k in b {
        assert left[k] == Max(a[k], Max(b[k], l));
        assert right[k] == Max(Max(a[k], b[k]), l);
      }
    }
  }
}
