/**
 * Extension of a seed interval to the maximal mappable prefix (MMP) of a
 * read. `MmpIntervalNaive` compares the read against the text directly;
 * `MmpIntervalPsi` walks the index with `psi` and reads each suffix's
 * leading symbol from the class boundaries `C`. Both binary-search the
 * interval, keep the longest match seen at any probe, and finish with one
 * `backward_search` over the read's prefix of that length.
 */
module Mmp {
  import opened Encoding
  import opened SuffixIndex

  /** The end-of-line symbol `'A' - 1`, returned past the end of the text or the read. */
  const EOL: char := '@'

  /** EOL sorts below every base, so a read that runs out compares as smaller than any suffix that goes on. */
  lemma EolSortsFirst(c: char)
    requires IsBase(c)
    ensures EOL < c
  {
  }

  /**
   * The length of the common run of `u` and `v` from index `i` on: the
   * symbols agree and the read's symbol is not EOL.
   */
  function CommonRun(u: seq<char>, v: seq<char>, i: nat): (r: nat)
    decreases |u| - i
    ensures i <= r
    ensures r > i ==> r <= |u| && r <= |v|
    ensures forall x :: i <= x < r ==> x < |u| && x < |v| && u[x] == v[x] && u[x] != EOL
    ensures !(r < |u| && r < |v| && u[r] == v[r] && u[r] != EOL)
  {
    if i < |u| && i < |v| && u[i] == v[i] && u[i] != EOL then CommonRun(u, v, i + 1) else i
  }

  /** Skipping a stretch already known to agree does not change the run. */
  lemma {:induction false} CommonRunSkip(u: seq<char>, v: seq<char>, i: nat, m: nat)
    requires i <= m <= |u| && m <= |v|
    requires forall x :: i <= x < m ==> u[x] == v[x] && u[x] != EOL
    decreases m - i
    ensures CommonRun(u, v, i) == CommonRun(u, v, m)
  {
    if i < m {
      CommonRunSkip(u, v, i + 1, m);
    }
  }

  /** The suffix at rank `r` (empty for a position outside the text, which a valid index never holds). */
  function SuffixAt(csa: Csa, r: nat): (s: seq<char>)
    requires r < |csa.sa|
  {
    if csa.sa[r] <= |csa.text| then csa.text[csa.sa[r]..] else []
  }

  /** How far the read, from `startAt`, agrees with the suffix at rank `r`. */
  function Run(csa: Csa, read: seq<char>, startAt: nat, r: nat): (len: nat)
    requires startAt <= |read| && r < |csa.sa|
    ensures startAt + len <= |read|
  {
    CommonRun(read[startAt..], SuffixAt(csa, r), 0)
  }

  /** Every rank of the seed interval agrees with the read's first K symbols. */
  ghost predicate SeedAgrees(csa: Csa, left: nat, right: nat, read: seq<char>, startAt: nat)
    requires startAt <= |read| && right < |csa.sa|
  {
    forall r :: left <= r <= right ==> Run(csa, read, startAt, r) >= K
  }

  /** A run of length at least `m` at rank `r` means the suffix there starts with the read's next `m` symbols. */
  lemma RunMatches(csa: Csa, read: seq<char>, startAt: nat, r: nat, m: nat)
    requires Valid(csa) && r < |csa.sa|
    requires startAt + m <= |read| && Run(csa, read, startAt, r) >= m
    ensures Matches(csa, read[startAt..startAt + m], r)
  {
    var u, v := read[startAt..], SuffixAt(csa, r);
    assert read[startAt..startAt + m] == v[..m] by {
      forall x | 0 <= x < m ensures read[startAt + x] == v[x] {
        assert u[x] == v[x];
      }
    }
  }

  /** Conversely, a suffix that starts with the read's next `m` symbols, none of them EOL, gives a run of at least `m`. */
  lemma MatchesRun(csa: Csa, read: seq<char>, startAt: nat, r: nat, m: nat)
    requires r < |csa.sa| && startAt + m <= |read|
    requires Matches(csa, read[startAt..startAt + m], r)
    requires forall x :: startAt <= x < startAt + m ==> read[x] != EOL
    ensures Run(csa, read, startAt, r) >= m
  {
    var u, v := read[startAt..], SuffixAt(csa, r);
    var p := read[startAt..startAt + m];
    assert forall x :: 0 <= x < m ==> u[x] == p[x] && p[x] == v[x] && u[x] != EOL by {
      assert forall x :: 0 <= x < m ==> u[x] == read[startAt + x];
    }
    CommonRunSkip(u, v, 0, m);
  }

  /** A rank between two ranks that agree with the read for `m` symbols agrees with it for `m` symbols too. */
  lemma RunBetween(csa: Csa, read: seq<char>, startAt: nat, i: nat, j: nat, k: nat, m: nat)
    requires Valid(csa) && i <= j <= k < |csa.sa|
    requires startAt + m <= |read|
    requires Run(csa, read, startAt, i) >= m && Run(csa, read, startAt, k) >= m
    ensures Run(csa, read, startAt, j) >= m
  {
    var u := read[startAt..];
    var p := read[startAt..startAt + m];
    RunMatches(csa, read, startAt, i, m);
    RunMatches(csa, read, startAt, k, m);
    MatchesBetween(csa, p, i, j, k);
    var v := SuffixAt(csa, j);
    assert p <= v;
    assert forall x :: 0 <= x < m ==> u[x] == v[x] && u[x] != EOL by {
      var vi := SuffixAt(csa, i);
      assert forall x :: 0 <= x < m ==> u[x] == vi[x] && u[x] != EOL;
      assert forall x :: 0 <= x < m ==> u[x] == p[x] && p[x] == v[x];
    }
    CommonRunSkip(u, v, 0, m);
  }

  /**
   * `getCharsNaive`: the text symbol at `index1` and the read symbol at
   * `index2`, each EOL when out of bounds.
   */
  function GetCharsNaive(text: seq<char>, index1: nat, index2: nat, read: seq<char>): (chars: (char, char))
    ensures index1 >= |text| ==> chars.0 == EOL
    ensures index2 >= |read| ==> chars.1 == EOL
    ensures (chars.1 != EOL && chars.0 == chars.1) <==>
      (index1 < |text| && index2 < |read| && read[index2] != EOL && text[index1] == read[index2])
  {
    (if index1 < |text| then text[index1] else EOL, if index2 < |read| then read[index2] else EOL)
  }

  /** The loop over `C` in `getCharsPSI`: the symbol of the first class `i` with `C[i] <= r < C[i+1]`. */
  function ClassSearch(C: seq<nat>, comp2char: seq<char>, r: nat, i: nat): (c: char)
    decreases |C| - i
    ensures c == EOL || (i < |comp2char| && c in comp2char[i..])
  {
    if i + 1 < |C| && i < |comp2char| then
      if C[i] <= r < C[i + 1] then comp2char[i] else ClassSearch(C, comp2char, r, i + 1)
    else EOL
  }

  /** On a valid index the class search finds the leading symbol of every non-sentinel suffix. */
  lemma {:induction false} ClassSearchFinds(csa: Csa, r: nat, i: nat)
    requires Valid(csa) && 1 <= r < |csa.sa|
    requires i < |csa.comp2char| && csa.C[i] <= r
    decreases |csa.C| - i
    ensures csa.sa[r] < |csa.text|
    ensures ClassSearch(csa.C, csa.comp2char, r, i) == csa.text[csa.sa[r]]
  {
    RankZeroIsSentinel(csa, r);
    if r >= csa.C[i + 1] {
      assert i + 1 < |csa.comp2char|;
      ClassSearchFinds(csa, r, i + 1);
    } else {
      assert i != 0;
    }
  }

  /**
   * `getCharsPSI`: the leading symbol of the suffix at rank `index1` (EOL for
   * the sentinel's rank 0) and the read symbol at `index2` (EOL at the end).
   */
  function GetCharsPsi(csa: Csa, index1: nat, index2: nat, read: seq<char>): (chars: (char, char))
    requires Valid(csa) && index1 < |csa.sa| && index2 <= |read|
    ensures index1 == 0 ==> chars.0 == EOL
    ensures index1 != 0 ==> csa.sa[index1] < |csa.text| && chars.0 == csa.text[csa.sa[index1]]
    ensures index2 == |read| ==> chars.1 == EOL
    ensures index2 < |read| ==> chars.1 == read[index2]
  {
    if index1 != 0 then
      ClassSearchFinds(csa, index1, 0);
      (ClassSearch(csa.C, csa.comp2char, index1, 0), if index2 != |read| then read[index2] else EOL)
    else
      (EOL, if index2 != |read| then read[index2] else EOL)
  }

  /**
   * The copy of the read's matched prefix into the `mmp` string, one symbol
   * at a time, before the final `backward_search`.
   */
  method ExtractPrefix(read: seq<char>, startAt: nat, len: nat) returns (mmp: seq<char>)
    requires startAt + len <= |read|
    ensures mmp == read[startAt..startAt + len]
  {
    mmp := [];
    var i := startAt;
    while i < startAt + len
      invariant startAt <= i <= startAt + len
      invariant mmp == read[startAt..i]
    {
      mmp := mmp + [read[i]];
      i := i + 1;
    }
  }

  /**
   * One extension loop of `getMMPIntervalNaive`: starting at depth `from`,
   * step while the text at `pos + depth` and the read at `startAt + depth`
   * agree. Returns the depth reached and the pair of symbols that stopped it.
   */
  method ExtendNaive(csa: Csa, pos: nat, startAt: nat, read: seq<char>, from: nat)
    returns (depth: nat, chars: (char, char))
    requires pos <= |csa.text| && startAt <= |read|
    ensures depth == CommonRun(read[startAt..], csa.text[pos..], from)
    ensures startAt + from <= |read| ==> startAt + depth <= |read|
    ensures chars == GetCharsNaive(csa.text, pos + depth, startAt + depth, read)
  {
    ghost var u, v := read[startAt..], csa.text[pos..];
    depth := from;
    chars := GetCharsNaive(csa.text, pos + depth, startAt + depth, read);
    while chars.1 != EOL && chars.0 == chars.1
      invariant from <= depth
      invariant CommonRun(u, v, depth) == CommonRun(u, v, from)
      invariant chars == GetCharsNaive(csa.text, pos + depth, startAt + depth, read)
      decreases |read| - (startAt + depth)
    {
      assert u[depth] == v[depth];
      depth := depth + 1;
      chars := GetCharsNaive(csa.text, pos + depth, startAt + depth, read);
    }
  }

  /**
   * The inner loop of `getMMPIntervalPSI`: from rank `middle`, follow `psi`
   * while the leading symbol of the current suffix equals the read's next
   * symbol. Returns the number of symbols matched and the pair that stopped it.
   */
  method WalkPsi(csa: Csa, middle: nat, startAt: nat, read: seq<char>)
    returns (curMMP: nat, chars: (char, char))
    requires Valid(csa) && middle < |csa.sa| && startAt <= |read|
    ensures curMMP == Run(csa, read, startAt, middle)
    ensures startAt + curMMP <= |read|
    ensures chars.1 == if startAt + curMMP < |read| then read[startAt + curMMP] else EOL
    ensures chars.0 == if csa.sa[middle] + curMMP < |csa.text| then csa.text[csa.sa[middle] + curMMP] else EOL
    ensures chars == StopPair(csa, read, startAt, middle)
  {
    ghost var u, v := read[startAt..], SuffixAt(csa, middle);
    curMMP := 0;
    var index: nat := middle;
    chars := GetCharsPsi(csa, index, startAt + curMMP, read);
    while chars.1 != EOL && chars.0 == chars.1
      invariant index < |csa.sa| && csa.sa[index] == csa.sa[middle] + curMMP
      invariant startAt + curMMP <= |read|
      invariant CommonRun(u, v, curMMP) == CommonRun(u, v, 0)
      invariant chars == GetCharsPsi(csa, index, startAt + curMMP, read)
      decreases |read| - (startAt + curMMP)
    {
      assert u[curMMP] == v[curMMP];
      curMMP := curMMP + 1;
      index := csa.psi[index];
      chars := GetCharsPsi(csa, index, startAt + curMMP, read);
    }
    RankZeroIsSentinel(csa, index);
  }

  /** Every read symbol from `startAt` on sorts above EOL, as every base does. */
  predicate ReadAboveEol(read: seq<char>, startAt: nat)
  {
    forall x :: startAt <= x < |read| ==> EOL < read[x]
  }

  /** An ACGT read's symbols all sort above EOL. */
  lemma AcgtAboveEol(read: seq<char>, startAt: nat)
    requires IsAcgt(read)
    ensures ReadAboveEol(read, startAt)
  {
    forall x | startAt <= x < |read| ensures EOL < read[x] {
      EolSortsFirst(read[x]);
    }
  }

  /** The largest of a non-empty sequence of lengths. */
  function MaxOf(s: seq<nat>): (m: nat)
    requires |s| > 0
    ensures forall i :: 0 <= i < |s| ==> s[i] <= m
  {
    if |s| == 1 then s[0]
    else
      var rest := MaxOf(s[1..]);
      if rest < s[0] then s[0] else rest
  }

  /** Some element of a non-empty sequence is its largest. */
  lemma {:induction false} MaxOfReached(s: seq<nat>) returns (i: nat)
    requires |s| > 0
    ensures i < |s| && s[i] == MaxOf(s)
  {
    if |s| == 1 {
      i := 0;
    } else {
      var j := MaxOfReached(s[1..]);
      i := if MaxOf(s[1..]) < s[0] then 0 else j + 1;
    }
  }

  /** The runs of the read, from `startAt`, against the ranks `lo` to `hi` in order. */
  function Runs(csa: Csa, read: seq<char>, startAt: nat, lo: nat, hi: nat): (s: seq<nat>)
    requires startAt <= |read| && lo <= hi < |csa.sa|
  {
    seq<nat>(hi + 1 - lo, i requires 0 <= i < hi + 1 - lo => Run(csa, read, startAt, lo + i))
  }

  /** The longest run of the read, from `startAt`, against any rank of `[lo, hi]`. */
  function MaxRun(csa: Csa, read: seq<char>, startAt: nat, lo: nat, hi: nat): (m: nat)
    requires startAt <= |read| && lo <= hi < |csa.sa|
    ensures forall r :: lo <= r <= hi ==> Run(csa, read, startAt, r) <= m
  {
    var s := Runs(csa, read, startAt, lo, hi);
    assert forall r :: lo <= r <= hi ==> s[r - lo] == Run(csa, read, startAt, r);
    MaxOf(s)
  }

  /** Some rank of `[lo, hi]` reaches the longest run. */
  lemma MaxRunReached(csa: Csa, read: seq<char>, startAt: nat, lo: nat, hi: nat) returns (r: nat)
    requires startAt <= |read| && lo <= hi < |csa.sa|
    ensures lo <= r <= hi && Run(csa, read, startAt, r) == MaxRun(csa, read, startAt, lo, hi)
  {
    var i := MaxOfReached(Runs(csa, read, startAt, lo, hi));
    r := lo + i;
  }

  /** No rank of `[lo, hi]` runs for more than `m` symbols. */
  ghost predicate RunsAtMost(csa: Csa, read: seq<char>, startAt: nat, lo: nat, hi: nat, m: nat)
    requires startAt <= |read| && hi < |csa.sa|
  {
    forall r :: lo <= r <= hi ==> Run(csa, read, startAt, r) <= m
  }

  /** A bound on every run of `[lo, hi]` that some rank of it reaches is the longest run. */
  lemma MaxRunIs(csa: Csa, read: seq<char>, startAt: nat, lo: nat, hi: nat, best: nat, m: nat)
    requires startAt <= |read| && lo <= best <= hi < |csa.sa|
    requires RunsAtMost(csa, read, startAt, lo, hi, m)
    requires Run(csa, read, startAt, best) == m
    ensures MaxRun(csa, read, startAt, lo, hi) == m
  {
    var r := MaxRunReached(csa, read, startAt, lo, hi);
  }

  /**
   * The pair of symbols at which the read's run against rank `r` stops: the
   * suffix's symbol and the read's symbol there, each EOL past its end.
   */
  function StopPair(csa: Csa, read: seq<char>, startAt: nat, r: nat): (char, char)
    requires startAt <= |read| && r < |csa.sa|
  {
    var m := Run(csa, read, startAt, r);
    (if csa.sa[r] + m < |csa.text| then csa.text[csa.sa[r] + m] else EOL,
     if startAt + m < |read| then read[startAt + m] else EOL)
  }

  /** The pair that stops a naive extension at rank `r` after its full run is the stopping pair of `r`. */
  lemma NaiveStopPair(csa: Csa, read: seq<char>, startAt: nat, r: nat, pos: nat, depth: nat, chars: (char, char))
    requires startAt <= |read| && r < |csa.sa|
    requires pos == csa.sa[r] && depth == Run(csa, read, startAt, r)
    requires chars == GetCharsNaive(csa.text, pos + depth, startAt + depth, read)
    ensures chars == StopPair(csa, read, startAt, r)
  {
  }

  /** The symbol of `s` at `m`, EOL past its end. */
  function SymbolAt(s: seq<char>, m: nat): char {
    if m < |s| then s[m] else EOL
  }

  /**
   * When `q` runs further against `a` than against `b`, and `b` stops
   * below `q`, then `b` sorts before `a`: they agree up to where `b` stops,
   * and there `a` carries `q`'s symbol.
   */
  lemma RunsPastBelow(q: seq<char>, a: seq<char>, b: seq<char>)
    requires CommonRun(q, a, 0) > CommonRun(q, b, 0)
    requires SymbolAt(b, CommonRun(q, b, 0)) < SymbolAt(q, CommonRun(q, b, 0))
    ensures LexLess(b, a)
  {
    var m := CommonRun(q, b, 0);
    assert m < |q| && m < |a| && q[m] == a[m];
    assert b[..m] == a[..m] by {
      assert forall x :: 0 <= x < m ==> b[x] == q[x] == a[x];
    }
    LexLessAt(b, a, m);
  }

  /**
   * When `q`, whose symbols sort above EOL, runs further against `c` than
   * against `b`, and `b` stops above `q`, then `c` sorts before `b`.
   */
  lemma RunsPastAbove(q: seq<char>, b: seq<char>, c: seq<char>)
    requires forall x :: 0 <= x < |q| ==> EOL < q[x]
    requires CommonRun(q, c, 0) > CommonRun(q, b, 0)
    requires SymbolAt(q, CommonRun(q, b, 0)) < SymbolAt(b, CommonRun(q, b, 0))
    ensures LexLess(c, b)
  {
    var m := CommonRun(q, b, 0);
    assert m < |q| && m < |c| && q[m] == c[m] && EOL < q[m];
    assert m < |b|;
    assert c[..m] == b[..m] by {
      assert forall x :: 0 <= x < m ==> c[x] == q[x] == b[x];
    }
    LexLessAt(c, b, m);
  }

  /** The stopping pair of rank `r` in terms of the read and the suffix. */
  lemma StopPairSymbols(csa: Csa, read: seq<char>, startAt: nat, r: nat)
    requires Valid(csa) && startAt <= |read| && r < |csa.sa|
    ensures var m := Run(csa, read, startAt, r);
      StopPair(csa, read, startAt, r) == (SymbolAt(SuffixAt(csa, r), m), SymbolAt(read[startAt..], m))
  {
  }

  /** On a valid index the suffixes are sorted by rank. */
  lemma SuffixesSorted(csa: Csa, i: nat, j: nat)
    requires Valid(csa) && i < j < |csa.sa|
    ensures LexLess(SuffixAt(csa, i), SuffixAt(csa, j))
  {
    assert SuffixAt(csa, i) == csa.text[csa.sa[i]..] && SuffixAt(csa, j) == csa.text[csa.sa[j]..];
  }

  /**
   * When the suffix at rank `j` stops below the read, no rank before `j`
   * runs further: its suffix would sort after the one at `j`.
   */
  lemma StopBelow(csa: Csa, read: seq<char>, startAt: nat, i: nat, j: nat)
    requires Valid(csa) && startAt <= |read| && i <= j < |csa.sa|
    requires StopPair(csa, read, startAt, j).0 < StopPair(csa, read, startAt, j).1
    ensures Run(csa, read, startAt, i) <= Run(csa, read, startAt, j)
  {
    var q, a, b := read[startAt..], SuffixAt(csa, i), SuffixAt(csa, j);
    if i < j && CommonRun(q, a, 0) > CommonRun(q, b, 0) {
      StopPairSymbols(csa, read, startAt, j);
      RunsPastBelow(q, a, b);
      SuffixesSorted(csa, i, j);
      LexLessAsymmetric(b, a);
      assert false;
    }
  }

  /**
   * When the suffix at rank `j` stops above the read, no rank after `j`
   * runs further: its suffix would sort before the one at `j`. This needs
   * the read's symbol where the run stopped to sort above EOL.
   */
  lemma StopAbove(csa: Csa, read: seq<char>, startAt: nat, j: nat, k: nat)
    requires Valid(csa) && startAt <= |read| && j <= k < |csa.sa|
    requires ReadAboveEol(read, startAt)
    requires StopPair(csa, read, startAt, j).1 != EOL
    requires !(StopPair(csa, read, startAt, j).0 < StopPair(csa, read, startAt, j).1)
    ensures Run(csa, read, startAt, k) <= Run(csa, read, startAt, j)
  {
    var q, b, c := read[startAt..], SuffixAt(csa, j), SuffixAt(csa, k);
    if j < k && CommonRun(q, c, 0) > CommonRun(q, b, 0) {
      var m := CommonRun(q, b, 0);
      StopPairSymbols(csa, read, startAt, j);
      assert forall x :: 0 <= x < |q| ==> EOL < q[x] by {
        assert forall x :: 0 <= x < |q| ==> q[x] == read[startAt + x];
      }
      assert SymbolAt(q, m) != SymbolAt(b, m);
      RunsPastAbove(q, b, c);
      SuffixesSorted(csa, j, k);
      LexLessAsymmetric(c, b);
      assert false;
    }
  }

  /** Every rank of `[left, right]` outside the live range `[lo, hi]` runs for at most `m` symbols. */
  ghost predicate Eliminated(csa: Csa, read: seq<char>, startAt: nat, left: nat, lo: int, hi: int, right: nat, m: nat)
    requires startAt <= |read| && right < |csa.sa|
  {
    forall r :: left <= r <= right && (r < lo || hi < r) ==> Run(csa, read, startAt, r) <= m
  }

  /** A probe at `middle` whose suffix stops below the read eliminates `[lo, middle]`. */
  lemma EliminateBelow(csa: Csa, read: seq<char>, startAt: nat, left: nat, lo: nat, hi: nat, right: nat, m: nat, middle: nat)
    requires Valid(csa) && startAt <= |read| && right < |csa.sa|
    requires left <= lo <= middle <= hi <= right
    requires Eliminated(csa, read, startAt, left, lo, hi, right, m)
    requires Run(csa, read, startAt, middle) <= m
    requires StopPair(csa, read, startAt, middle).0 < StopPair(csa, read, startAt, middle).1
    ensures Eliminated(csa, read, startAt, left, middle + 1, hi, right, m)
  {
    forall r | left <= r <= right && (r < middle + 1 || hi < r)
      ensures Run(csa, read, startAt, r) <= m
    {
      if lo <= r <= middle {
        StopBelow(csa, read, startAt, r, middle);
      }
    }
  }

  /** A probe at `middle` whose suffix stops above the read eliminates `[middle, hi]`. */
  lemma EliminateAbove(csa: Csa, read: seq<char>, startAt: nat, left: nat, lo: nat, hi: nat, right: nat, m: nat, middle: nat)
    requires Valid(csa) && startAt <= |read| && right < |csa.sa|
    requires left <= lo <= middle <= hi <= right
    requires Eliminated(csa, read, startAt, left, lo, hi, right, m)
    requires Run(csa, read, startAt, middle) <= m
    requires ReadAboveEol(read, startAt)
    requires StopPair(csa, read, startAt, middle).1 != EOL
    requires !(StopPair(csa, read, startAt, middle).0 < StopPair(csa, read, startAt, middle).1)
    ensures Eliminated(csa, read, startAt, left, lo, middle - 1, right, m)
  {
    forall r | left <= r <= right && (r < lo || middle - 1 < r)
      ensures Run(csa, read, startAt, r) <= m
    {
      if middle <= r <= hi {
        StopAbove(csa, read, startAt, middle, r);
      }
    }
  }

  /** Once the live range is empty, every rank of `[left, right]` is eliminated. */
  lemma EliminatedAll(csa: Csa, read: seq<char>, startAt: nat, left: nat, lo: int, hi: int, right: nat, m: nat)
    requires startAt <= |read| && right < |csa.sa|
    requires Eliminated(csa, read, startAt, left, lo, hi, right, m) && hi < lo
    ensures RunsAtMost(csa, read, startAt, left, right, m)
  {
  }

  /**
   * A probe whose run reaches the end of the read, which is where the read
   * gives EOL when its symbols sort above EOL, bounds every run.
   */
  lemma ReadExhausted(csa: Csa, read: seq<char>, startAt: nat, lo: nat, hi: nat, r: nat, m: nat)
    requires startAt <= |read| && r < |csa.sa| && hi < |csa.sa|
    requires ReadAboveEol(read, startAt)
    requires StopPair(csa, read, startAt, r).1 == EOL && Run(csa, read, startAt, r) <= m
    ensures RunsAtMost(csa, read, startAt, lo, hi, m)
  {
    assert startAt + Run(csa, read, startAt, r) == |read|;
  }

  /** Raising the bound keeps every eliminated rank eliminated. */
  lemma EliminatedGrows(csa: Csa, read: seq<char>, startAt: nat, left: nat, lo: int, hi: int, right: nat, m: nat, m': nat)
    requires startAt <= |read| && right < |csa.sa|
    requires Eliminated(csa, read, startAt, left, lo, hi, right, m) && m <= m'
    ensures Eliminated(csa, read, startAt, left, lo, hi, right, m')
  {
  }

  /**
   * What a binary search over `[left, right]` knows with the live range
   * `[lo, hi]`: `best` reaches the longest run `m` seen so far, and, when
   * the read's symbols sort above EOL, no rank outside the live range runs
   * further.
   */
  ghost predicate Search(csa: Csa, read: seq<char>, startAt: nat, left: nat, right: nat, lo: int, hi: int, best: nat, m: nat)
    requires startAt <= |read| && right < |csa.sa|
  {
    && left <= best <= right && Run(csa, read, startAt, best) == m
    && (ReadAboveEol(read, startAt) ==> Eliminated(csa, read, startAt, left, lo, hi, right, m))
  }

  /**
   * What a finished search has found: `best` reaches the longest run `m`
   * seen, and, when the read's symbols sort above EOL, no rank of
   * `[left, right]` runs further.
   */
  ghost predicate SearchResult(csa: Csa, read: seq<char>, startAt: nat, left: nat, right: nat, best: nat, m: nat)
    requires startAt <= |read| && right < |csa.sa|
  {
    && left <= best <= right && Run(csa, read, startAt, best) == m
    && (ReadAboveEol(read, startAt) ==> RunsAtMost(csa, read, startAt, left, right, m))
  }

  /** A finished search's result is the run of a rank of `[left, right]` and, above EOL, the longest one. */
  lemma SearchResultIsMax(csa: Csa, read: seq<char>, startAt: nat, left: nat, right: nat, best: nat, m: nat)
    requires startAt <= |read| && right < |csa.sa|
    requires SearchResult(csa, read, startAt, left, right, best, m)
    ensures exists r :: left <= r <= right && Run(csa, read, startAt, r) == m
    ensures ReadAboveEol(read, startAt) ==> m == MaxRun(csa, read, startAt, left, right)
  {
    if ReadAboveEol(read, startAt) {
      MaxRunIs(csa, read, startAt, left, right, best, m);
    }
  }

  /** A search whose live range is empty is finished. */
  lemma SearchDone(csa: Csa, read: seq<char>, startAt: nat, left: nat, right: nat, lo: int, hi: int, best: nat, m: nat)
    requires startAt <= |read| && right < |csa.sa|
    requires Search(csa, read, startAt, left, right, lo, hi, best, m) && hi < lo
    ensures SearchResult(csa, read, startAt, left, right, best, m)
  {
    if ReadAboveEol(read, startAt) {
      EliminatedAll(csa, read, startAt, left, lo, hi, right, m);
    }
  }

  /**
   * One probe of a binary search at `middle`, after which the longest run
   * is `m'`, reached at `best'`: either the probe itself or the earlier
   * best. When the probe's run reaches the end of the read the search is
   * finished; otherwise the live range moves to the side of the read. Before
   * the first probe (`probed` false) the live range is all of `[left, right]`.
   */
  lemma SearchStep(csa: Csa, read: seq<char>, startAt: nat, left: nat, right: nat, lo: nat, hi: nat,
                   probed: bool, best: nat, m: nat, middle: nat, best': nat, m': nat)
    requires Valid(csa) && startAt <= |read| && right < |csa.sa|
    requires left <= lo <= middle <= hi <= right
    requires probed ==> Search(csa, read, startAt, left, right, lo, hi, best, m)
    requires !probed ==> lo == left && hi == right && m == 0
    requires m' == if m < Run(csa, read, startAt, middle) then Run(csa, read, startAt, middle) else m
    requires (best' == middle && m' == Run(csa, read, startAt, middle)) || (probed && best' == best && m' == m)
    ensures var chars := StopPair(csa, read, startAt, middle);
      && (chars.1 == EOL ==> SearchResult(csa, read, startAt, left, right, best', m'))
      && (chars.1 != EOL && chars.0 < chars.1 ==> Search(csa, read, startAt, left, right, middle + 1, hi, best', m'))
      && (chars.1 != EOL && !(chars.0 < chars.1) ==> Search(csa, read, startAt, left, right, lo, middle - 1, best', m'))
  {
    var chars := StopPair(csa, read, startAt, middle);
    if ReadAboveEol(read, startAt) {
      if chars.1 == EOL {
        ReadExhausted(csa, read, startAt, left, right, middle, m');
      } else {
        if probed {
          EliminatedGrows(csa, read, startAt, left, lo, hi, right, m, m');
        }
        assert Eliminated(csa, read, startAt, left, lo, hi, right, m');
        if chars.0 < chars.1 {
          EliminateBelow(csa, read, startAt, left, lo, hi, right, m', middle);
        } else {
          EliminateAbove(csa, read, startAt, left, lo, hi, right, m', middle);
        }
      }
    }
  }

  /**
   * The binary search of `getMMPIntervalPSI` over `[left, right]`. It stops
   * when the interval is exhausted or the read is, and returns the longest
   * run seen at any probed rank. Each comparison discards the half of the
   * live range that sorts on the wrong side of the read, so when the read's
   * symbols sort above EOL the result is the longest run over the whole of
   * `[left, right]`.
   */
  method ProbePsi(csa: Csa, left: nat, right: nat, startAt: nat, read: seq<char>) returns (maxMMP: nat)
    requires Valid(csa) && |csa.sa| <= MaxSaSize
    requires 1 <= left && right < |csa.sa|
    requires startAt <= |read|
    ensures startAt + maxMMP <= |read|
    ensures left <= right ==> exists r :: left <= r <= right && Run(csa, read, startAt, r) == maxMMP
    ensures left <= right && ReadAboveEol(read, startAt) ==> maxMMP == MaxRun(csa, read, startAt, left, right)
    ensures left > right ==> maxMMP == 0
  {
    var left_ := left;
    var right_ := right;
    maxMMP := 0;
    ghost var best: nat, probed := left, false;
    while left_ <= right_
      invariant left <= left_ && right_ <= right
      invariant startAt + maxMMP <= |read|
      invariant probed ==> Search(csa, read, startAt, left, right, left_, right_, best, maxMMP)
      invariant !probed ==> left_ == left && right_ == right && maxMMP == 0
      decreases right_ + 1 - left_
    {
      assert left_ + right_ < 2 * MaxSaSize;  // the uint32_t sum does not wrap
      var middle: nat := (left_ + right_) / 2;
      var curMMP, chars := WalkPsi(csa, middle, startAt, read);
      ghost var best0, max0 := best, maxMMP;
      if curMMP > maxMMP {
        maxMMP := curMMP;
      }
      if curMMP == maxMMP {
        best := middle;
      }
      SearchStep(csa, read, startAt, left, right, left_, right_, probed, best0, max0, middle, best, maxMMP);
      probed := true;
      if chars.1 == EOL {
        break;
      }
      if chars.0 < chars.1 {
        left_ := middle + 1;
      } else {
        // middle >= left >= 1, so middle - 1 does not wrap
        right_ := middle - 1;
      }
    }
    if left <= right {
      if left_ > right_ {
        SearchDone(csa, read, startAt, left, right, left_, right_, best, maxMMP);
      }
      SearchResultIsMax(csa, read, startAt, left, right, best, maxMMP);
    }
  }

  /**
   * `getMMPIntervalPSI`: the interval of the read's prefix of length
   * `maxMMP`, the longest run seen by the binary search. The interval holds
   * every rank of `[left, right]` that reaches that run, and when the read's
   * symbols sort above EOL no rank of `[left, right]` runs further.
   */
  method MmpIntervalPsi(csa: Csa, left: nat, right: nat, startAt: nat, read: seq<char>)
    returns (iv: SaInterval, maxMMP: nat)
    requires Valid(csa) && |csa.sa| <= MaxSaSize
    requires 1 <= left && right < |csa.sa|
    requires startAt <= |read|
    ensures startAt + maxMMP <= |read|
    ensures iv == BackwardSearch(csa, read[startAt..startAt + maxMMP])
    ensures left <= right ==>
      && iv.lo <= iv.hi
      && forall r :: left <= r <= right && Run(csa, read, startAt, r) == maxMMP ==> iv.lo <= r <= iv.hi
    ensures left <= right && ReadAboveEol(read, startAt) ==> maxMMP == MaxRun(csa, read, startAt, left, right)
    ensures left > right ==> maxMMP == 0 && iv == SaInterval(0, |csa.sa| - 1)
  {
    maxMMP := ProbePsi(csa, left, right, startAt, read);
    var mmp := ExtractPrefix(read, startAt, maxMMP);
    iv := BackwardSearch(csa, mmp);
    BackwardSearchExact(csa, mmp);
    if left <= right {
      IntervalHoldsBest(csa, read, startAt, left, right, maxMMP, iv);
    } else {
      EmptyPatternMatchesAll(csa, mmp);
    }
  }

  /**
   * The interval of the read's prefix of length `m` holds every rank that
   * runs for `m` symbols, so it is non-empty when some rank of `[left, right]` does.
   */
  lemma IntervalHoldsBest(csa: Csa, read: seq<char>, startAt: nat, left: nat, right: nat, m: nat, iv: SaInterval)
    requires Valid(csa) && startAt + m <= |read| && right < |csa.sa|
    requires iv == BackwardSearch(csa, read[startAt..startAt + m])
    requires exists r :: left <= r <= right && Run(csa, read, startAt, r) == m
    ensures iv.lo <= iv.hi
    ensures forall r :: left <= r <= right && Run(csa, read, startAt, r) == m ==> iv.lo <= r <= iv.hi
  {
    BackwardSearchExact(csa, read[startAt..startAt + m]);
    forall r | left <= r <= right && Run(csa, read, startAt, r) == m
      ensures iv.lo <= r <= iv.hi
    {
      RunMatches(csa, read, startAt, r, m);
    }
  }

  /** Every rank's suffix starts with the empty pattern. */
  lemma EmptyPatternMatchesAll(csa: Csa, p: seq<char>)
    requires Valid(csa) && p == []
    ensures forall r :: 0 <= r < |csa.sa| ==> Matches(csa, p, r)
  {
    forall r | 0 <= r < |csa.sa| ensures Matches(csa, p, r) {
      assert csa.sa[r] <= |csa.text|;
    }
  }

  /**
   * When the read is known to agree with the suffix at rank `r` for `m`
   * symbols, extending from depth `m` reaches the full run.
   */
  lemma ExtendFrom(csa: Csa, read: seq<char>, startAt: nat, r: nat, m: nat)
    requires r < |csa.sa| && startAt <= |read|
    requires Run(csa, read, startAt, r) >= m
    ensures CommonRun(read[startAt..], SuffixAt(csa, r), m) == Run(csa, read, startAt, r)
  {
    var u, v := read[startAt..], SuffixAt(csa, r);
    if m > 0 {
      CommonRunSkip(u, v, 0, m);
    }
  }

  /**
   * The ranks `lo <= hi` of the seed interval where the read's runs are
   * known to be `LP` and `RP`.
   */
  ghost predicate Bracket(csa: Csa, read: seq<char>, startAt: nat, lo: nat, hi: nat, LP: nat, RP: nat)
    requires startAt <= |read|
  {
    lo <= hi < |csa.sa| && Run(csa, read, startAt, lo) == LP && Run(csa, read, startAt, hi) == RP
  }

  /**
   * A probe between two bracketing ranks agrees with the read for at least
   * the smaller of their runs, so extending from there reaches its full run.
   */
  lemma ProbeBetween(csa: Csa, read: seq<char>, startAt: nat, lo: nat, middle: nat, hi: nat, LP: nat, RP: nat)
    requires Valid(csa) && startAt <= |read|
    requires Bracket(csa, read, startAt, lo, hi, LP, RP) && lo <= middle <= hi
    requires startAt + LP <= |read| && startAt + RP <= |read|
    ensures var m := if LP < RP then LP else RP;
      CommonRun(read[startAt..], SuffixAt(csa, middle), m) == Run(csa, read, startAt, middle)
  {
    var m := if LP < RP then LP else RP;
    RunBetween(csa, read, startAt, lo, middle, hi, m);
    ExtendFrom(csa, read, startAt, middle, m);
  }

  /**
   * One probe of `getMMPIntervalNaive`: take the text position of rank `r`
   * with `getPositionAt` and extend from depth `from`. When the read is
   * known to agree with that suffix for `from` symbols, the depth reached is
   * the rank's run and the pair returned is the one where that run stops.
   */
  method ProbeRank(csa: Csa, r: nat, startAt: nat, read: seq<char>, from: nat)
    returns (depth: nat, chars: (char, char))
    requires Valid(csa) && r < |csa.sa| && startAt + from <= |read|
    ensures from <= depth && startAt + depth <= |read|
    ensures CommonRun(read[startAt..], SuffixAt(csa, r), from) == Run(csa, read, startAt, r) ==>
      depth == Run(csa, read, startAt, r) && chars == StopPair(csa, read, startAt, r)
  {
    var pos := PositionAt(csa, r);
    depth, chars := ExtendNaive(csa, pos, startAt, read, from);
    if depth == Run(csa, read, startAt, r) {
      NaiveStopPair(csa, read, startAt, r, pos, depth, chars);
    }
  }

  /** `LP` and `RP` are the read's exact runs at the two ends of the non-empty range `[left, right]`. */
  ghost predicate EndsExact(csa: Csa, read: seq<char>, startAt: nat, left: nat, right: nat, LP: nat, RP: nat)
    requires startAt <= |read| && right < |csa.sa|
  {
    left <= right && Run(csa, read, startAt, left) == LP && Run(csa, read, startAt, right) == RP
  }

  /**
   * The binary search of `getMMPIntervalNaive` between the two ends of the
   * seed interval, whose depths are `LP` and `RP`, after those ends gave the
   * longest run `maxMMP0`. Each probe starts at the smaller of the depths
   * known at the current ends. When `LP` and `RP` are the exact runs at the
   * two ends (as they are when every rank of the seed interval agrees with
   * the read's first K symbols), each probe's depth is exactly that rank's
   * run, and each comparison discards the half of the live range that sorts
   * on the wrong side of the read.
   */
  method BisectNaive(csa: Csa, left: nat, right: nat, startAt: nat, read: seq<char>,
                     LP: nat, RP: nat, maxMMP0: nat, ghost best0: nat)
    returns (maxMMP: nat)
    requires Valid(csa) && |csa.sa| <= MaxSaSize
    requires 1 <= left && right < |csa.sa|
    requires K <= LP <= maxMMP0 && K <= RP <= maxMMP0 && startAt + maxMMP0 <= |read|
    requires EndsExact(csa, read, startAt, left, right, LP, RP) ==>
      left <= best0 <= right && Run(csa, read, startAt, best0) == maxMMP0
    ensures maxMMP0 <= maxMMP && startAt + maxMMP <= |read|
    ensures EndsExact(csa, read, startAt, left, right, LP, RP) ==>
      exists r :: left <= r <= right && Run(csa, read, startAt, r) == maxMMP
    ensures EndsExact(csa, read, startAt, left, right, LP, RP) && ReadAboveEol(read, startAt) ==>
      maxMMP == MaxRun(csa, read, startAt, left, right)
  {
    ghost var agrees := EndsExact(csa, read, startAt, left, right, LP, RP);
    maxMMP := maxMMP0;
    ghost var best := best0;
    var left_, right_, LP_, RP_ := left, right, LP, RP;
    ghost var loW: nat, hiW: nat := left, right;
    while left_ <= right_
      invariant left <= left_ && right_ <= right
      invariant maxMMP0 <= maxMMP && startAt + maxMMP <= |read|
      invariant K <= LP_ <= maxMMP && K <= RP_ <= maxMMP
      invariant agrees ==> left <= loW <= left_ && right_ <= hiW <= right && Bracket(csa, read, startAt, loW, hiW, LP_, RP_)
      invariant agrees ==> Search(csa, read, startAt, left, right, left_, right_, best, maxMMP)
      decreases right_ + 1 - left_
    {
      assert left_ + right_ < 2 * MaxSaSize;  // the uint32_t sum does not wrap
      var middle: nat := (left_ + right_) / 2;
      var MP := if LP_ < RP_ then LP_ else RP_;
      if agrees {
        ProbeBetween(csa, read, startAt, loW, middle, hiW, LP_, RP_);
      }
      var chars;
      MP, chars := ProbeRank(csa, middle, startAt, read, MP);
      ghost var best1, max1 := best, maxMMP;
      if maxMMP < MP {
        maxMMP := MP;
        best := middle;
      }
      if agrees {
        SearchStep(csa, read, startAt, left, right, left_, right_, true, best1, max1, middle, best, maxMMP);
      }
      if chars.1 == EOL {
        break;
      }
      if chars.0 < chars.1 {
        left_ := middle + 1;
        LP_ := MP;
        loW := middle;
      } else {
        // middle >= left >= 1, so middle - 1 does not wrap
        right_ := middle - 1;
        RP_ := MP;
        hiW := middle;
      }
    }
    if agrees {
      if left_ > right_ {
        SearchDone(csa, read, startAt, left, right, left_, right_, best, maxMMP);
      }
      SearchResultIsMax(csa, read, startAt, left, right, best, maxMMP);
    }
  }

  /**
   * The probing part of `getMMPIntervalNaive`: extend at both ends of the
   * seed interval from depth K, then binary-search between them; stop as
   * soon as an extension runs to the end of the read. Whatever the seed,
   * the result is at least K. When every rank of the seed interval agrees
   * with the read's first K symbols, the result is the run of one of its
   * ranks, and when the read's symbols also sort above EOL it is the
   * longest run over the whole seed interval.
   */
  method ProbeNaive(csa: Csa, left: nat, right: nat, startAt: nat, read: seq<char>) returns (maxMMP: nat)
    requires Valid(csa) && |csa.sa| <= MaxSaSize
    requires 1 <= left < |csa.sa| && right < |csa.sa|
    requires startAt + K <= |read|
    ensures K <= maxMMP && startAt + maxMMP <= |read|
    ensures left <= right && SeedAgrees(csa, left, right, read, startAt) ==>
      exists r :: left <= r <= right && Run(csa, read, startAt, r) == maxMMP
    ensures left <= right && SeedAgrees(csa, left, right, read, startAt) && ReadAboveEol(read, startAt) ==>
      maxMMP == MaxRun(csa, read, startAt, left, right)
  {
    ghost var agrees := left <= right && SeedAgrees(csa, left, right, read, startAt);
    ghost var above := ReadAboveEol(read, startAt);
    maxMMP := 0;
    var leftPos := PositionAt(csa, left);
    if agrees {
      ExtendFrom(csa, read, startAt, left, K);
    }
    var LP, chars := ExtendNaive(csa, leftPos, startAt, read, K);
    if maxMMP < LP {
      maxMMP := LP;
    }
    ghost var best := left;
    if chars.1 != EOL {
      var rightPos := PositionAt(csa, right);
      if agrees {
        ExtendFrom(csa, read, startAt, right, K);
      }
      var RP;
      RP, chars := ExtendNaive(csa, rightPos, startAt, read, K);
      if maxMMP < RP {
        maxMMP := RP;
        best := right;
      }
      if chars.1 != EOL {
        maxMMP := BisectNaive(csa, left, right, startAt, read, LP, RP, maxMMP, best);
        return;
      }
    }
    if agrees {
      assert Run(csa, read, startAt, best) == maxMMP;
      if above {
        MaxRunIs(csa, read, startAt, left, right, best, maxMMP);
      }
    }
  }

  /**
   * `getMMPIntervalNaive`: the interval of the read's prefix of length
   * `maxMMP`. When the seed interval is non-empty and agrees with the read's
   * first K symbols, the interval holds every rank of the seed interval
   * that reaches `maxMMP`, and when the read's symbols also sort above EOL
   * no rank of the seed interval runs further.
   */
  method MmpIntervalNaive(csa: Csa, left: nat, right: nat, startAt: nat, read: seq<char>)
    returns (iv: SaInterval, maxMMP: nat)
    requires Valid(csa) && |csa.sa| <= MaxSaSize
    requires 1 <= left < |csa.sa| && right < |csa.sa|
    requires startAt + K <= |read|
    ensures K <= maxMMP && startAt + maxMMP <= |read|
    ensures iv == BackwardSearch(csa, read[startAt..startAt + maxMMP])
    ensures left <= right && SeedAgrees(csa, left, right, read, startAt) ==>
      && iv.lo <= iv.hi
      && forall r :: left <= r <= right && Run(csa, read, startAt, r) == maxMMP ==> iv.lo <= r <= iv.hi
    ensures left <= right && SeedAgrees(csa, left, right, read, startAt) && ReadAboveEol(read, startAt) ==>
      maxMMP == MaxRun(csa, read, startAt, left, right)
  {
    maxMMP := ProbeNaive(csa, left, right, startAt, read);
    var mmp := ExtractPrefix(read, startAt, maxMMP);
    iv := BackwardSearch(csa, mmp);
    if left <= right && SeedAgrees(csa, left, right, read, startAt) {
      IntervalHoldsBest(csa, read, startAt, left, right, maxMMP, iv);
    }
  }
}
