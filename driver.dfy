/**
 * The per-read flow of the mapper's `main`: normalise the read, pick its
 * seed, look the seed up in the seed table, extend it to the maximal
 * mappable prefix, and scan for the next informative position (NIP), where
 * the text at the two ends of the prefix's interval first disagrees.
 */
module Driver {
  import opened Encoding
  import opened SuffixIndex
  import opened SeedTable
  import opened Mmp

  /** What the flow reports for one read. */
  datatype ReadOutcome =
    | TooShort
    | Unmapped
    | NoInterval
    | Mapped(seed: seq<char>, interval: SaInterval, mmpLen: nat, pos1: nat, pos2: nat, nip: nat)

  /** What normalisation keeps of one input symbol: a base of either case, upper-cased; nothing else. */
  function KeepBase(c: char): (s: seq<char>)
    ensures IsBase(Upper(c)) ==> s == [Upper(c)]
    ensures !IsBase(Upper(c)) ==> s == []
  {
    match c
    case 'A' | 'a' => ['A']
    case 'C' | 'c' => ['C']
    case 'G' | 'g' => ['G']
    case 'T' | 't' => ['T']
    case _ => []
  }

  /** The normalised read: the bases of `raw`, in order and upper-cased. */
  function Normalized(raw: seq<char>): (read: seq<char>)
    ensures IsAcgt(read) && |read| <= |raw|
  {
    if |raw| == 0 then [] else Normalized(raw[..|raw| - 1]) + KeepBase(raw[|raw| - 1])
  }

  /** Normalisation works symbol by symbol: it distributes over concatenation. */
  lemma {:induction false} NormalizedAppend(a: seq<char>, b: seq<char>)
    ensures Normalized(a + b) == Normalized(a) + Normalized(b)
    decreases |b|
  {
    if |b| > 0 {
      var b' := b[..|b| - 1];
      assert (a + b)[..|a + b| - 1] == a + b';
      NormalizedAppend(a, b');
    } else {
      assert a + b == a;
    }
  }

  /** A read that is already upper-case ACGT is left as it is. */
  lemma {:induction false} NormalizedAcgt(s: seq<char>)
    requires IsAcgt(s)
    ensures Normalized(s) == s
  {
    if |s| > 0 {
      var p, c := s[..|s| - 1], s[|s| - 1];
      NormalizedAcgt(p);
      assert IsBase(c) && KeepBase(c) == [c];
      assert s == p + [c];
    }
  }

  /** Normalising twice is normalising once. */
  lemma NormalizedIdempotent(s: seq<char>)
    ensures Normalized(Normalized(s)) == Normalized(s)
  {
    NormalizedAcgt(Normalized(s));
  }

  /** A line with no base in it normalises to the empty read. */
  lemma {:induction false} NormalizedDropsOthers(s: seq<char>)
    requires forall i :: 0 <= i < |s| ==> !IsBase(Upper(s[i]))
    ensures Normalized(s) == []
  {
    if |s| > 0 {
      NormalizedDropsOthers(s[..|s| - 1]);
    }
  }

  /** The normalisation loop of `main`, appending one base at a time. */
  method NormalizeRead(temp: seq<char>) returns (read: seq<char>)
    ensures read == Normalized(temp)
  {
    read := [];
    var i := 0;
    while i < |temp|
      invariant 0 <= i <= |temp|
      invariant read == Normalized(temp[..i])
    {
      assert temp[..i + 1][..i] == temp[..i];
      match temp[i] {
        case 'A' | 'a' => read := read + ['A'];
        case 'C' | 'c' => read := read + ['C'];
        case 'G' | 'g' => read := read + ['G'];
        case 'T' | 't' => read := read + ['T'];
        case _ =>
      }
      i := i + 1;
    }
    assert temp[..|temp|] == temp;
  }

  /** The seed of a read: its first K symbols, or the whole read when it is shorter. */
  function SeedOf(read: seq<char>): (kMer: seq<char>)
    ensures |kMer| == if |read| >= K then K else |read|
    ensures kMer <= read
  {
    if |read| >= K then read[..K] else read
  }

  /** The seed's key fits the 16-bit key of the seed table, so the lookup with it does not truncate. */
  lemma SeedKeyFits(read: seq<char>)
    ensures KeyOf(SeedOf(read)) < KeySpace
  {
    Pow4OfK();
    Pow4Monotone(|SeedOf(read)|, K);
  }

  /**
   * A read shorter than K is seeded on its whole length, and its key can be
   * the key of a full window: the one-symbol read "C" has the key of the
   * window "AAAAAAAC". Its lookup then succeeds, and the extension that
   * follows starts K symbols into a read of length 1: extending from depth
   * K stops at once at K, so the prefix copy runs past the read.
   */
  lemma ShortSeedCollides()
    ensures var read := Normalized("c");
      && read == "C" && |read| < K
      && KeyOf(SeedOf(read)) == KeyOf("AAAAAAAC")
      && forall v :: CommonRun(read, v, K) == K > |read|
  {
    assert Normalized("c") == Normalized("c"[..0]) + KeepBase('c');
    assert KeyOf("C") == 1 by {
      assert "C"[..0] == [];
    }
    Pow4OfK();
    KeyOfDecodeKey(1, K);
    assert DecodeKey(1, K) == "AAAAAAAC";
  }

  /** The text at `pos1 + i` and at `pos2 + i` is there and agrees. */
  predicate AgreeAt(line: seq<char>, pos1: nat, pos2: nat, i: nat) {
    pos1 + i < |line| && pos2 + i < |line| && line[pos1 + i] == line[pos2 + i]
  }

  /**
   * The divergence offset from `i` on: the first offset, below `|line|`, at
   * which the text at `pos1` and at `pos2` disagrees or one of them runs out.
   */
  function Diverge(line: seq<char>, pos1: nat, pos2: nat, i: nat): (d: nat)
    decreases |line| - i
    ensures i <= d
    ensures i <= |line| ==> d <= |line|
    ensures forall x :: i <= x < d ==> AgreeAt(line, pos1, pos2, x)
    ensures d < |line| ==> !AgreeAt(line, pos1, pos2, d)
  {
    if i < |line| && AgreeAt(line, pos1, pos2, i) then Diverge(line, pos1, pos2, i + 1) else i
  }

  /** The result of the NIP loop as the source writes it. */
  datatype ScanResult = Stopped(nip: nat) | ReadPastEnd(index: nat)

  /**
   * The character the NIP loop reads at `line[i]`: the string's terminating
   * NUL at `i == |line|`, nothing defined beyond.
   */
  function CharAt(line: seq<char>, i: nat): (c: Option<char>)
    ensures i < |line| ==> c == Some(line[i])
    ensures i == |line| ==> c == Some(0 as char)
    ensures i > |line| ==> c == None
  {
    if i < |line| then Some(line[i]) else if i == |line| then Some(0 as char) else None
  }

  datatype Option<T> = None | Some(value: T)

  /**
   * The NIP loop of `main` as written: bounded by `|line|` only, it reads
   * `line[pos1 + nip]` and `line[pos2 + nip]` however far past the end
   * they lie.
   */
  function NipAsWritten(line: seq<char>, pos1: nat, pos2: nat, nip: nat): (r: ScanResult)
    decreases |line| - nip
    ensures r.Stopped? ==> nip <= r.nip && (nip <= |line| ==> r.nip <= |line|)
    ensures r.ReadPastEnd? ==> r.index > |line|
  {
    if nip >= |line| then Stopped(nip)
    else
      match (CharAt(line, pos1 + nip), CharAt(line, pos2 + nip))
      case (Some(ch1), Some(ch2)) => if ch1 != ch2 then Stopped(nip) else NipAsWritten(line, pos1, pos2, nip + 1)
      case (None, _) => ReadPastEnd(pos1 + nip)
      case (_, None) => ReadPastEnd(pos2 + nip)
  }

  /**
   * Where the corrected scan stops inside the text, the loop as written
   * stops at the same offset.
   */
  lemma {:induction false} NipAsWrittenInside(line: seq<char>, pos1: nat, pos2: nat, i: nat)
    requires i <= |line|
    requires var d := Diverge(line, pos1, pos2, i); d == |line| || (pos1 + d < |line| && pos2 + d < |line|)
    decreases |line| - i
    ensures NipAsWritten(line, pos1, pos2, i) == Stopped(Diverge(line, pos1, pos2, i))
  {
    if i < |line| && AgreeAt(line, pos1, pos2, i) {
      NipAsWrittenInside(line, pos1, pos2, i + 1);
    }
  }

  /**
   * On the text "ACGTACGTTT", the read "GTACGTTT" occurs only at position 2,
   * so both ends of its interval are position 2; the loop as written reads
   * the NUL at `line[10]` and then `line[11]`, past the end.
   */
  lemma NipReadsPastEnd()
    ensures NipAsWritten("ACGTACGTTT", 2, 2, K) == ReadPastEnd(11)
  {
    var line := "ACGTACGTTT";
    assert NipAsWritten(line, 2, 2, 9) == ReadPastEnd(11);
    assert NipAsWritten(line, 2, 2, 8) == NipAsWritten(line, 2, 2, 9);
  }

  /**
   * The NIP loop with the bound check the loop lacks: it also stops when
   * either position would leave the text.
   */
  method NipScan(line: seq<char>, pos1: nat, pos2: nat, from: nat) returns (nip: nat)
    ensures nip == Diverge(line, pos1, pos2, from)
  {
    nip := from;
    while nip < |line|
      invariant from <= nip
      invariant Diverge(line, pos1, pos2, nip) == Diverge(line, pos1, pos2, from)
      decreases |line| - nip
    {
      if pos1 + nip >= |line| || pos2 + nip >= |line| {
        break;
      }
      var ch1 := line[pos1 + nip];
      var ch2 := line[pos2 + nip];
      if ch1 != ch2 {
        break;
      }
      nip := nip + 1;
    }
  }

  /**
   * Over an ACGT text, the seed interval found for an ACGT read agrees with
   * the read's first K symbols at every rank.
   */
  lemma SeedIntervalAgrees(csa: Csa, read: seq<char>)
    requires Valid(csa) && IsAcgt(csa.text)
    requires IsAcgt(read) && |read| >= K
    requires KeyOf(read[..K]) in Table(csa, map[], WindowCount(|csa.text|))
    ensures var iv := Table(csa, map[], WindowCount(|csa.text|))[KeyOf(read[..K])];
      1 <= iv.lo <= iv.hi < |csa.sa| && SeedAgrees(csa, iv.lo, iv.hi, read, 0)
  {
    var seed := read[..K];
    var n := WindowCount(|csa.text|);
    assert IsAcgt(seed);
    TableHasSeed(csa, seed);
    var iv := BackwardSearch(csa, seed);
    assert Table(csa, map[], n)[KeyOf(seed)] == iv;
    TableEntries(csa, n);
    assert iv.hi < |csa.sa|;
    BackwardSearchExact(csa, seed);
    forall r | iv.lo <= r <= iv.hi ensures Run(csa, read, 0, r) >= K {
      assert Matches(csa, read[0..K], r);
      MatchesRun(csa, read, 0, r, K);
    }
  }

  /**
   * An occurrence of a prefix of the read at least K long lies at a rank of
   * the seed's interval, and there the read runs for at least that prefix.
   */
  lemma OccurrenceInSeedInterval(csa: Csa, read: seq<char>, n: nat, pos: nat)
    requires Valid(csa) && IsAcgt(read) && K <= n <= |read|
    requires OccursAt(read[..n], csa.text, pos)
    ensures var iv := BackwardSearch(csa, read[..K]); var r := RankOfPos(csa, pos);
      iv.lo <= r <= iv.hi && Run(csa, read, 0, r) >= n
  {
    var r := RankOfPos(csa, pos);
    assert read[..n] <= csa.text[pos..];
    assert read[..K] <= read[..n];
    assert Matches(csa, read[..K], r);
    BackwardSearchExact(csa, read[..K]);
    assert read[0..n] == read[..n];
    MatchesRun(csa, read, 0, r, n);
  }

  /**
   * Over the interval of an ACGT read's seed, the longest run is the
   * longest prefix of the read that occurs in the text: no longer prefix
   * occurs anywhere.
   */
  lemma NoLongerPrefixOccurs(csa: Csa, read: seq<char>, lo: nat, hi: nat)
    requires Valid(csa) && IsAcgt(read) && K <= |read|
    requires lo <= hi < |csa.sa|
    requires BackwardSearch(csa, read[..K]) == SaInterval(lo, hi)
    ensures forall n :: MaxRun(csa, read, 0, lo, hi) < n <= |read| ==> !OccursIn(read[..n], csa.text)
  {
    var m := MaxRun(csa, read, 0, lo, hi);
    assert K <= m by {
      BackwardSearchExact(csa, read[..K]);
      assert read[0..K] == read[..K];
      MatchesRun(csa, read, 0, lo, K);
    }
    forall n | m < n <= |read| ensures !OccursIn(read[..n], csa.text) {
      if OccursIn(read[..n], csa.text) {
        var pos: nat :| OccursAt(read[..n], csa.text, pos);
        OccurrenceInSeedInterval(csa, read, n, pos);
        assert false;
      }
    }
  }

  /**
   * The part of `main` after a successful seed lookup: extend the seed
   * interval to the MMP with `getMMPIntervalNaive`, take the text positions
   * at both ends of the MMP's interval, and scan for the NIP from depth K.
   * An empty MMP interval, where the source would read the index at a rank
   * outside it, is reported as `NoInterval`; it cannot happen when the seed
   * interval is non-empty and agrees with the read's first K symbols.
   */
  method ExtendSeed(csa: Csa, read: seq<char>, seed: SaInterval) returns (outcome: ReadOutcome)
    requires Valid(csa) && |csa.sa| <= MaxSaSize
    requires |read| >= K
    requires 1 <= seed.lo < |csa.sa| && 0 <= seed.hi < |csa.sa|
    ensures outcome.Mapped? || outcome.NoInterval?
    ensures outcome.Mapped? ==>
      && outcome.seed == read[..K]
      && K <= outcome.mmpLen <= |read|
      && outcome.interval == BackwardSearch(csa, read[..outcome.mmpLen])
      && outcome.pos1 <= |csa.text| && read[..outcome.mmpLen] <= csa.text[outcome.pos1..]
      && outcome.pos2 <= |csa.text| && read[..outcome.mmpLen] <= csa.text[outcome.pos2..]
      && outcome.nip == Diverge(csa.text, outcome.pos1, outcome.pos2, K)
    ensures seed.lo <= seed.hi && SeedAgrees(csa, seed.lo, seed.hi, read, 0) ==> outcome.Mapped?
    ensures seed.lo <= seed.hi && SeedAgrees(csa, seed.lo, seed.hi, read, 0) && IsAcgt(read) ==>
      outcome.Mapped? && outcome.mmpLen == MaxRun(csa, read, 0, seed.lo, seed.hi)
  {
    var startAt := 0;
    if IsAcgt(read) {
      AcgtAboveEol(read, startAt);
    }
    var iv, mmpLen := MmpIntervalNaive(csa, seed.lo, seed.hi, startAt, read);
    if iv.lo > iv.hi {
      return NoInterval;
    }
    var pos1 := PositionAt(csa, iv.lo);
    var pos2 := PositionAt(csa, iv.hi);
    var nip := NipScan(csa.text, pos1, pos2, startAt + K);
    outcome := Mapped(read[..K], iv, mmpLen, pos1, pos2, nip);
  }

  /**
   * The flow of `main` for one read line against the table that
   * `populateHashMap` built from an empty map. A read shorter than K is
   * reported as too short instead of being seeded on its whole length.
   * Over an ACGT text a read is unmapped exactly when its seed does not
   * occur in the text, and a mapped read always has a non-empty MMP interval.
   */
  method ProcessRead(csa: Csa, table: map<nat, SaInterval>, temp: seq<char>)
    returns (read: seq<char>, outcome: ReadOutcome)
    requires Valid(csa) && |csa.sa| <= MaxSaSize
    requires table == Table(csa, map[], WindowCount(|csa.text|))
    ensures read == Normalized(temp)
    ensures outcome.TooShort? <==> |read| < K
    ensures |read| >= K ==> (outcome.Unmapped? <==> KeyOf(read[..K]) !in table)
    ensures outcome.Mapped? ==>
      && outcome.seed == read[..K]
      && K <= outcome.mmpLen <= |read|
      && outcome.interval == BackwardSearch(csa, read[..outcome.mmpLen])
      && outcome.pos1 <= |csa.text| && read[..outcome.mmpLen] <= csa.text[outcome.pos1..]
      && outcome.pos2 <= |csa.text| && read[..outcome.mmpLen] <= csa.text[outcome.pos2..]
      && outcome.nip == Diverge(csa.text, outcome.pos1, outcome.pos2, K)
    ensures IsAcgt(csa.text) ==> !outcome.NoInterval?
    ensures IsAcgt(csa.text) && |read| >= K ==> (outcome.Unmapped? <==> !OccursIn(read[..K], csa.text))
    ensures IsAcgt(csa.text) && outcome.Mapped? ==>
      forall n :: outcome.mmpLen < n <= |read| ==> !OccursIn(read[..n], csa.text)
  {
    read := NormalizeRead(temp);
    var kMer := SeedOf(read);
    var key := GetHashKey(kMer);
    if |read| < K {
      return read, TooShort;
    }
    if IsAcgt(csa.text) {
      TableHasSeed(csa, kMer);
    }
    if key !in table {
      return read, Unmapped;
    }
    var interval1 := table[key];
    TableEntries(csa, WindowCount(|csa.text|));
    if IsAcgt(csa.text) {
      SeedIntervalAgrees(csa, read);
    }
    outcome := ExtendSeed(csa, read, interval1);
    if IsAcgt(csa.text) {
      NoLongerPrefixOccurs(csa, read, interval1.lo, interval1.hi);
    }
  }
}
