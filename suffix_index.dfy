/**
 * The compressed suffix array the mapper builds over its reference text,
 * seen through the queries the mapper makes of it: the rank-to-position
 * map, `backward_search`, `psi` and the symbol-class boundaries `C`.
 * The index is built once and never changed, so it is a value.
 */
module SuffixIndex {

  /** Ranks are held in `uint32_t`; two of them are added before halving, so at most 2^31 ranks. */
  const MaxSaSize: nat := 0x8000_0000

  /** A closed interval `[lo, hi]` of suffix ranks; empty when `lo > hi`. */
  datatype SaInterval = SaInterval(lo: int, hi: int)

  /**
   * The index over `text`. Rank `r` holds the suffix starting at `sa[r]`;
   * position `|text|` is the sentinel, which sorts before every symbol.
   * `psi[r]` is the rank of the suffix one position later. Ranks in
   * `[C[i], C[i+1])` are the suffixes whose first symbol is `comp2char[i]`;
   * class 0 holds only the sentinel.
   */
  datatype Csa = Csa(text: seq<char>, sa: seq<nat>, psi: seq<nat>, C: seq<nat>, comp2char: seq<char>)

  /** Strict lexicographic order on strings; a proper prefix sorts first, as the sentinel makes it. */
  predicate LexLess(a: seq<char>, b: seq<char>)
    decreases |a|
  {
    |b| > 0 && (|a| == 0 || a[0] < b[0] || (a[0] == b[0] && LexLess(a[1..], b[1..])))
  }

  ghost predicate Valid(csa: Csa) {
    && |csa.sa| == |csa.text| + 1
    && (forall r :: 0 <= r < |csa.sa| ==> csa.sa[r] <= |csa.text|)
    && csa.sa[0] == |csa.text|
    // ranks are sorted by suffix
    && (forall i, j {:trigger LexLess(csa.text[csa.sa[i]..], csa.text[csa.sa[j]..])} ::
          0 <= i < j < |csa.sa| ==> LexLess(csa.text[csa.sa[i]..], csa.text[csa.sa[j]..]))
    // psi steps one position forward in the text, wrapping from the sentinel to position 0
    && |csa.psi| == |csa.sa|
    && (forall r {:trigger csa.psi[r]} :: 0 <= r < |csa.sa| ==>
          csa.psi[r] < |csa.sa| && csa.sa[csa.psi[r]] == (if csa.sa[r] == |csa.text| then 0 else csa.sa[r] + 1))
    // the symbol classes partition the ranks in order
    && |csa.comp2char| >= 1
    && |csa.C| == |csa.comp2char| + 1
    && csa.C[0] == 0 && csa.C[1] == 1
    && csa.C[|csa.comp2char|] == |csa.sa|
    && (forall i, j :: 0 <= i <= j < |csa.C| ==> csa.C[i] <= csa.C[j])
    && (forall r, i :: 1 <= i < |csa.comp2char| && csa.C[i] <= r < csa.C[i + 1] && r < |csa.sa| && csa.sa[r] < |csa.text| ==>
          csa.text[csa.sa[r]] == csa.comp2char[i])
  }

  /** The suffix at rank `r` starts with `p`. */
  predicate Matches(csa: Csa, p: seq<char>, r: int) {
    0 <= r < |csa.sa| && csa.sa[r] <= |csa.text| && p <= csa.text[csa.sa[r]..]
  }

  /** A string that lies, in suffix order, between two strings that start with `p` starts with `p` too. */
  lemma {:induction false} PrefixBetween(a: seq<char>, b: seq<char>, c: seq<char>, p: seq<char>)
    requires LexLess(a, b) && LexLess(b, c)
    requires p <= a && p <= c
    ensures p <= b
  {
    if |p| > 0 {
      assert a[0] == p[0] == c[0];
      assert b[0] == p[0];
      PrefixBetween(a[1..], b[1..], c[1..], p[1..]);
    }
  }

  /** Two strings that agree on `m` symbols and then differ upwards, or where the first ends, are in order. */
  lemma {:induction false} LexLessAt(a: seq<char>, b: seq<char>, m: nat)
    requires m <= |a| && m < |b| && a[..m] == b[..m]
    requires m == |a| || a[m] < b[m]
    ensures LexLess(a, b)
  {
    if m > 0 {
      assert a[0] == a[..m][0] == b[..m][0] == b[0];
      assert a[1..][..m - 1] == a[..m][1..] == b[..m][1..] == b[1..][..m - 1];
      LexLessAt(a[1..], b[1..], m - 1);
    }
  }

  /** The order is strict: no two strings are each below the other. */
  lemma {:induction false} LexLessAsymmetric(a: seq<char>, b: seq<char>)
    requires LexLess(a, b)
    decreases |a|
    ensures !LexLess(b, a)
  {
    if |a| > 0 && a[0] == b[0] && LexLess(a[1..], b[1..]) {
      LexLessAsymmetric(a[1..], b[1..]);
    }
  }

  /** The ranks whose suffixes start with `p` are contiguous. */
  lemma MatchesBetween(csa: Csa, p: seq<char>, i: int, j: int, k: int)
    requires Valid(csa)
    requires i <= j <= k
    requires Matches(csa, p, i) && Matches(csa, p, k)
    ensures Matches(csa, p, j)
  {
    if i < j < k {
      PrefixBetween(csa.text[csa.sa[i]..], csa.text[csa.sa[j]..], csa.text[csa.sa[k]..], p);
    }
  }

  /** Only rank 0 holds the sentinel: every other rank starts at a symbol of the text. */
  lemma RankZeroIsSentinel(csa: Csa, r: nat)
    requires Valid(csa) && r < |csa.sa|
    ensures r == 0 <==> csa.sa[r] == |csa.text|
  {
    if r > 0 {
      assert LexLess(csa.text[csa.sa[0]..], csa.text[csa.sa[r]..]);
    }
  }

  /** The first rank at or after `r` whose suffix starts with `p`, or `|sa|` when there is none. */
  function FirstMatch(csa: Csa, p: seq<char>, r: nat): (f: nat)
    requires r <= |csa.sa|
    decreases |csa.sa| - r
    ensures r <= f <= |csa.sa|
    ensures f < |csa.sa| ==> Matches(csa, p, f)
  {
    if r == |csa.sa| then r
    else if Matches(csa, p, r) then r
    else FirstMatch(csa, p, r + 1)
  }

  /** No rank between `r` and `FirstMatch(csa, p, r)` matches. */
  lemma {:induction false} FirstMatchIsFirst(csa: Csa, p: seq<char>, r: nat, q: nat)
    requires r <= |csa.sa| && r <= q < FirstMatch(csa, p, r)
    decreases q - r
    ensures !Matches(csa, p, q)
  {
    if r < q {
      FirstMatchIsFirst(csa, p, r + 1, q);
    }
  }

  /** The last rank before `r` whose suffix starts with `p`, or -1 when there is none. */
  function LastMatch(csa: Csa, p: seq<char>, r: nat): (l: int)
    requires r <= |csa.sa|
    ensures -1 <= l < r
    ensures l >= 0 ==> Matches(csa, p, l)
  {
    if r == 0 then -1
    else if Matches(csa, p, r - 1) then r - 1
    else LastMatch(csa, p, r - 1)
  }

  /** No rank between `LastMatch(csa, p, r)` and `r` matches. */
  lemma {:induction false} LastMatchIsLast(csa: Csa, p: seq<char>, r: nat, q: int)
    requires r <= |csa.sa| && LastMatch(csa, p, r) < q < r
    ensures !Matches(csa, p, q)
  {
    if q < r - 1 {
      LastMatchIsLast(csa, p, r - 1, q);
    }
  }

  /**
   * `backward_search` over the whole index: from the first to the last rank
   * whose suffix starts with `p`, or an empty interval when there is none.
   * On a valid index these are exactly the matching ranks (`BackwardSearchExact`).
   */
  function BackwardSearch(csa: Csa, p: seq<char>): (iv: SaInterval)
    ensures 0 <= iv.lo <= |csa.sa| && -1 <= iv.hi < |csa.sa|
    ensures iv.lo <= iv.hi ==> Matches(csa, p, iv.lo) && Matches(csa, p, iv.hi)
  {
    var f := FirstMatch(csa, p, 0);
    if f == |csa.sa| then SaInterval(|csa.sa|, |csa.sa| - 1) else SaInterval(f, LastMatch(csa, p, |csa.sa|))
  }

  /** On a sorted index the interval holds exactly the ranks whose suffixes start with `p`. */
  lemma BackwardSearchExact(csa: Csa, p: seq<char>)
    requires Valid(csa)
    ensures var iv := BackwardSearch(csa, p);
      forall r :: 0 <= r < |csa.sa| ==> (iv.lo <= r <= iv.hi <==> Matches(csa, p, r))
  {
    var iv := BackwardSearch(csa, p);
    forall r | 0 <= r < |csa.sa| ensures iv.lo <= r <= iv.hi <==> Matches(csa, p, r) {
      if iv.lo <= r <= iv.hi {
        MatchesBetween(csa, p, iv.lo, r, iv.hi);
      } else if r < iv.lo {
        FirstMatchIsFirst(csa, p, 0, r);
      } else {
        LastMatchIsLast(csa, p, |csa.sa|, r);
      }
    }
  }

  /** An interval found for a non-empty pattern never includes the sentinel's rank 0. */
  lemma BackwardSearchAvoidsSentinel(csa: Csa, p: seq<char>)
    requires Valid(csa) && |p| > 0
    ensures BackwardSearch(csa, p).lo >= 1
  {
    assert csa.text[csa.sa[0]..] == [];
    assert !Matches(csa, p, 0);
    BackwardSearchExact(csa, p);
  }

  /** `getPositionAt`: the text position of the suffix at a rank; only rank 0 gives the sentinel's position. */
  function PositionAt(csa: Csa, index: nat): (pos: nat)
    requires Valid(csa) && index < |csa.sa|
    ensures pos <= |csa.text|
    ensures index == 0 <==> pos == |csa.text|
    ensures forall p :: Matches(csa, p, index) <==> p <= csa.text[pos..]
  {
    RankZeroIsSentinel(csa, index);
    csa.sa[index]
  }

  /**
   * The rank holding text position `p`: reached from the sentinel's rank by
   * following `psi` one position at a time, so `sa` is onto the positions.
   */
  function RankOfPos(csa: Csa, p: nat): (r: nat)
    requires Valid(csa) && p <= |csa.text|
    ensures r < |csa.sa| && csa.sa[r] == p
  {
    if p == 0 then csa.psi[0] else csa.psi[RankOfPos(csa, p - 1)]
  }

  /** Every substring of the text is found: its interval contains the rank of each occurrence. */
  lemma BackwardSearchFindsOccurrence(csa: Csa, p: seq<char>, pos: nat)
    requires Valid(csa) && pos + |p| <= |csa.text|
    requires csa.text[pos..pos + |p|] == p
    ensures var iv := BackwardSearch(csa, p); iv.lo <= RankOfPos(csa, pos) <= iv.hi
  {
    var r := RankOfPos(csa, pos);
    assert Matches(csa, p, r);
    BackwardSearchExact(csa, p);
  }
}
