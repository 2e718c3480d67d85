/** Substring search that compares last characters first and skips ahead. */
module Search {

  /** The largest 64-bit size, which stands for no position. */
  const NPOS: nat := 0xFFFF_FFFF_FFFF_FFFF

  /** The needle lies at place i of the haystack. */
  ghost predicate Occurs<T>(h: seq<T>, needle: seq<T>, i: int, eq: (T, T) -> bool) {
    0 <= i && i + |needle| <= |h| && forall j :: 0 <= j < |needle| ==> eq(h[i + j], needle[j])
  }

  /** Two characters that a third equals are equal: what an equivalence gives and skipping needs. */
  ghost predicate Euclidean<T(!new)>(eq: (T, T) -> bool) {
    forall x, a, b :: eq(x, a) && eq(x, b) ==> eq(b, a)
  }

  /** Places before i where the search has looked. */
  ghost predicate NoneBefore<T>(h: seq<T>, needle: seq<T>, pos: nat, i: int, eq: (T, T) -> bool) {
    forall k :: pos <= k < i ==> !Occurs(h, needle, k, eq)
  }

  /** The distance to the next character of the needle that equals its last, or its length. */
  ghost predicate IsSkip<T>(needle: seq<T>, skip: nat, eq: (T, T) -> bool) {
    && 0 < skip <= |needle|
    && forall p :: |needle| - 1 - skip < p < |needle| - 1 ==> !eq(needle[p], needle[|needle| - 1])
  }

  /** With the last character matched, no occurrence starts before the skip is over. */
  lemma SkipIsSafe<T(!new)>(h: seq<T>, needle: seq<T>, i: nat, skip: nat, k: nat, eq: (T, T) -> bool)
    requires Euclidean(eq) && IsSkip(needle, skip, eq) && i + |needle| <= |h|
    requires eq(h[i + |needle| - 1], needle[|needle| - 1]) && !Occurs(h, needle, i, eq)
    requires i <= k < i + skip
    ensures !Occurs(h, needle, k, eq)
  {
    var p := |needle| - 1 - (k - i);
    var x, y := h[k + p], needle[p];
    assert Occurs(h, needle, k, eq) ==> eq(x, y);
  }

  method ComputeSkip<T(!new)>(needle: seq<T>, eq: (T, T) -> bool) returns (skip: nat)
    requires needle != []
    ensures IsSkip(needle, skip, eq)
  {
    var last := |needle| - 1;
    skip := 1;
    while skip <= last && !eq(needle[last - skip], needle[last])
      invariant 1 <= skip <= |needle| && forall p :: last - skip < p < last ==> !eq(needle[p], needle[last])
    {
      skip := skip + 1;
    }
  }

  /** The needle compared character by character. */
  method Matches<T>(h: seq<T>, needle: seq<T>, i: nat, eq: (T, T) -> bool) returns (found: bool)
    requires i + |needle| <= |h|
    ensures found == Occurs(h, needle, i, eq)
  {
    for j := 0 to |needle|
      invariant forall k :: 0 <= k < j ==> eq(h[i + k], needle[k])
    {
      if !eq(h[i + j], needle[j]) {
        return false;
      }
    }
    return true;
  }

  /** qfind from a position: the least place where the needle occurs, or -1 when there is none. */
  method Find<T(!new)>(h: seq<T>, needle: seq<T>, pos: nat, eq: (T, T) -> bool) returns (r: int)
    requires Euclidean(eq)
    ensures r >= 0 ==> pos <= r && Occurs(h, needle, r, eq) && NoneBefore(h, needle, pos, r, eq)
    ensures r < 0 ==> forall k :: k >= pos ==> !Occurs(h, needle, k, eq)
  {
    if |needle| + pos > |h| {
      return -1;
    }
    if needle == [] {
      return pos;
    }
    r := Scan(h, needle, pos, eq);
  }

  /**
   * find of fbstring, where sizes and positions are 64-bit words: the sum of two of them may wrap,
   * and the second half of the guard catches every such start.
   */
  method FindInString<T(!new)>(h: seq<T>, needle: seq<T>, pos: nat, eq: (T, T) -> bool) returns (r: nat)
    requires Euclidean(eq) && |h| < NPOS && |needle| <= NPOS && pos <= NPOS
    ensures r < NPOS ==> pos <= r && Occurs(h, needle, r, eq) && NoneBefore(h, needle, pos, r, eq)
    ensures r >= NPOS ==> r == NPOS && forall k :: k >= pos ==> !Occurs(h, needle, k, eq)
  {
    var sum := (|needle| + pos) % (NPOS + 1);
    if sum > |h| || sum < pos {
      return NPOS;
    }
    if needle == [] {
      return pos;
    }
    var i := Scan(h, needle, pos, eq);
    r := if i < 0 then NPOS else i;
  }

  /** The loop both share. */
  method Scan<T(!new)>(h: seq<T>, needle: seq<T>, pos: nat, eq: (T, T) -> bool) returns (r: int)
    requires Euclidean(eq) && needle != [] && |needle| + pos <= |h|
    ensures r >= 0 ==> pos <= r && Occurs(h, needle, r, eq) && NoneBefore(h, needle, pos, r, eq)
    ensures r < 0 ==> forall k :: k >= pos ==> !Occurs(h, needle, k, eq)
  {
    var last := |needle| - 1;
    var skip, i, iEnd := 0, pos, |h| - last;
    while i < iEnd
      invariant pos <= i && iEnd == |h| - last && (skip != 0 ==> IsSkip(needle, skip, eq))
      invariant NoneBefore(h, needle, pos, i, eq)
      decreases iEnd - i
    {
      i := LastMatch(h, needle, i, eq);
      if i == iEnd {
        return -1;
      }
      var found := Matches(h, needle, i, eq);
      if found {
        return i;
      }
      if skip == 0 {
        skip := ComputeSkip(needle, eq);
      }
      forall k | i <= k < i + skip
        ensures !Occurs(h, needle, k, eq)
      {
        SkipIsSafe(h, needle, i, skip, k, eq);
      }
      i := i + skip;
    }
    return -1;
  }

  /** The next place where the last character of the needle matches. */
  method LastMatch<T>(h: seq<T>, needle: seq<T>, start: nat, eq: (T, T) -> bool) returns (i: nat)
    requires needle != [] && start + |needle| <= |h|
    ensures start <= i <= |h| - |needle| + 1 && NoneBefore(h, needle, start, i, eq)
    ensures i <= |h| - |needle| ==> eq(h[i + |needle| - 1], needle[|needle| - 1])
  {
    var last := |needle| - 1;
    i := start;
    while i < |h| - last && !eq(h[i + last], needle[last])
      invariant start <= i <= |h| - last && NoneBefore(h, needle, start, i, eq)
    {
      assert !Occurs(h, needle, i, eq);
      i := i + 1;
    }
  }
}
