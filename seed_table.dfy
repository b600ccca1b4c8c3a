/**
 * The seed table (`populateHashMap`): a window of K symbols slides over the
 * text, and the first time a window's key is seen the interval of suffixes
 * starting with that window is stored under the key.
 */
module SeedTable {
  import opened Encoding
  import opened SuffixIndex

  /** The number of full windows of a text of length `n`. */
  function WindowCount(n: nat): (c: nat)
    ensures n >= K ==> c + K - 1 == n
    ensures n < K ==> c == 0
  {
    if n >= K then n - K + 1 else 0
  }

  /** The window starting at text position `j`. */
  function Window(text: seq<char>, j: nat): (w: seq<char>)
    requires j + K <= |text|
    ensures |w| == K
  {
    text[j..j + K]
  }

  /**
   * The table after the windows starting at 0 .. j-1 have been visited:
   * a window's key is inserted only when it is absent, and an entry is
   * never overwritten.
   */
  function Table(csa: Csa, m0: map<nat, SaInterval>, j: nat): (t: map<nat, SaInterval>)
    requires j <= WindowCount(|csa.text|)
    ensures m0.Keys <= t.Keys
  {
    if j == 0 then m0
    else
      var m := Table(csa, m0, j - 1);
      var w := Window(csa.text, j - 1);
      if KeyOf(w) in m then m else m[KeyOf(w) := BackwardSearch(csa, w)]
  }

  /** `populateHashMap`, adding to `kmerMap` the windows of the indexed text. */
  method PopulateHashMap(csa: Csa, kmerMap: map<nat, SaInterval>) returns (m: map<nat, SaInterval>)
    ensures m == Table(csa, kmerMap, WindowCount(|csa.text|))
    ensures |csa.text| < K ==> m == kmerMap
  {
    var stringSize := |csa.text|;
    var it: nat := 0;
    var num: nat := 0;
    var cur: nat := 0;
    m := kmerMap;
    while cur < stringSize
      invariant cur <= stringSize
      invariant cur >= K ==> it == cur - K + 1
      invariant cur < K ==> it == 0
      invariant num == RollingKey(csa.text, cur)
      invariant it <= WindowCount(stringSize) && m == Table(csa, kmerMap, it)
    {
      num := RollKey(num, csa.text[cur]);
      cur := cur + 1;
      if cur >= K {
        // the window just completed starts at `it == cur - K`
        RollingKeyAtWindow(csa.text, cur);
        m := InsertWindow(csa, kmerMap, m, it, num);
        it := it + 1;
      }
    }
  }

  /** The insertion in `populateHashMap`: the key of window `it` is added with its interval unless already present. */
  method InsertWindow(csa: Csa, kmerMap: map<nat, SaInterval>, m: map<nat, SaInterval>, it: nat, num: nat)
    returns (m': map<nat, SaInterval>)
    requires it < WindowCount(|csa.text|) && m == Table(csa, kmerMap, it)
    requires num == KeyOf(Window(csa.text, it))
    ensures m' == Table(csa, kmerMap, it + 1)
  {
    TableStep(csa, kmerMap, it);
    m' := m;
    if num !in m {
      var iv := BackwardSearch(csa, csa.text[it..it + K]);
      m' := m[num := iv];
    }
  }

  /** One more window: its key is inserted with its interval unless the key is already there. */
  lemma TableStep(csa: Csa, m0: map<nat, SaInterval>, j: nat)
    requires j < WindowCount(|csa.text|)
    ensures var m, w := Table(csa, m0, j), Window(csa.text, j);
      Table(csa, m0, j + 1) == if KeyOf(w) in m then m else m[KeyOf(w) := BackwardSearch(csa, w)]
  {
  }

  /** Once a full window has been read, the rolling key is the key of the window ending at `cur`. */
  lemma RollingKeyAtWindow(text: seq<char>, cur: nat)
    requires K <= cur <= |text|
    ensures RollingKey(text, cur) == KeyOf(Window(text, cur - K))
  {
    RollingKeyIsWindowKey(text, cur);
    assert LastK(text[..cur]) == Window(text, cur - K);
  }

  /** Some window starting before `j` has key `key`. */
  predicate KeySeen(text: seq<char>, key: nat, j: nat)
    requires j <= WindowCount(|text|)
  {
    j > 0 && (KeyOf(Window(text, j - 1)) == key || KeySeen(text, key, j - 1))
  }

  /** The keys of the table are the old keys plus the key of every window visited. */
  lemma {:induction false} TableKeys(csa: Csa, m0: map<nat, SaInterval>, j: nat)
    requires j <= WindowCount(|csa.text|)
    ensures forall k :: k in Table(csa, m0, j) <==> k in m0 || KeySeen(csa.text, k, j)
  {
    if j > 0 {
      TableKeys(csa, m0, j - 1);
    }
  }

  /** Entries are never overwritten: whatever the table holds after `i` windows it still holds after `j`. */
  lemma {:induction false} TableGrows(csa: Csa, m0: map<nat, SaInterval>, i: nat, j: nat)
    requires i <= j <= WindowCount(|csa.text|)
    decreases j - i
    ensures forall k :: k in Table(csa, m0, i) ==> k in Table(csa, m0, j) && Table(csa, m0, j)[k] == Table(csa, m0, i)[k]
  {
    if i < j {
      TableGrows(csa, m0, i, j - 1);
      forall k | k in Table(csa, m0, i)
        ensures k in Table(csa, m0, j) && Table(csa, m0, j)[k] == Table(csa, m0, i)[k]
      {
        TableKeepsEntry(csa, m0, j - 1, k);
      }
    }
  }

  /** Visiting one more window keeps every entry already in the table. */
  lemma TableKeepsEntry(csa: Csa, m0: map<nat, SaInterval>, j: nat, k: nat)
    requires j < WindowCount(|csa.text|) && k in Table(csa, m0, j)
    ensures k in Table(csa, m0, j + 1) && Table(csa, m0, j + 1)[k] == Table(csa, m0, j)[k]
  {
  }

  /**
   * First insert wins: a key that was not there before maps to the interval
   * of the first window with that key.
   */
  lemma TableFirstWins(csa: Csa, m0: map<nat, SaInterval>, j: nat, i: nat)
    requires j <= WindowCount(|csa.text|)
    requires i < j && KeyOf(Window(csa.text, i)) !in m0
    requires !KeySeen(csa.text, KeyOf(Window(csa.text, i)), i)
    ensures var key := KeyOf(Window(csa.text, i));
      key in Table(csa, m0, j) && Table(csa, m0, j)[key] == BackwardSearch(csa, Window(csa.text, i))
  {
    TableKeys(csa, m0, i);
    TableStep(csa, m0, i);
    TableGrows(csa, m0, i + 1, j);
  }

  /**
   * Built from an empty map over an upper-case ACGT text, the table maps the
   * key of every window to exactly the interval of that window, and the
   * interval is non-empty and never holds the sentinel's rank.
   */
  lemma TableSound(csa: Csa, i: nat)
    requires Valid(csa) && IsAcgt(csa.text)
    requires i < WindowCount(|csa.text|)
    ensures var table := Table(csa, map[], WindowCount(|csa.text|));
      var w := Window(csa.text, i);
      && KeyOf(w) in table
      && table[KeyOf(w)] == BackwardSearch(csa, w)
      && 1 <= table[KeyOf(w)].lo <= table[KeyOf(w)].hi
  {
    var n := WindowCount(|csa.text|);
    var w := Window(csa.text, i);
    var first := FirstWindowWithKey(csa.text, KeyOf(w), i);
    var wf := Window(csa.text, first);
    assert IsAcgt(wf) && IsAcgt(w) by {
      assert forall x :: 0 <= x < K ==> wf[x] == csa.text[first + x] && w[x] == csa.text[i + x];
    }
    KeyInjective(wf, w);
    TableFirstWins(csa, map[], n, first);
    BackwardSearchFindsOccurrence(csa, w, i);
    BackwardSearchAvoidsSentinel(csa, w);
  }

  /** A window before `j` with key `key`, when one has been seen. */
  lemma {:induction false} KeySeenWitness(text: seq<char>, key: nat, j: nat) returns (i: nat)
    requires j <= WindowCount(|text|) && KeySeen(text, key, j)
    ensures i < j && KeyOf(Window(text, i)) == key
  {
    if KeyOf(Window(text, j - 1)) == key {
      i := j - 1;
    } else {
      i := KeySeenWitness(text, key, j - 1);
    }
  }

  /** The earliest window, at or before window `i`, whose key is `key`. */
  lemma FirstWindowWithKey(text: seq<char>, key: nat, i: nat) returns (first: nat)
    requires i < WindowCount(|text|) && KeyOf(Window(text, i)) == key
    ensures first <= i && KeyOf(Window(text, first)) == key
    ensures !KeySeen(text, key, first)
  {
    first := i;
    while KeySeen(text, key, first)
      invariant first <= i && KeyOf(Window(text, first)) == key
      decreases first
    {
      first := KeySeenWitness(text, key, first);
    }
  }

  /** Every entry of a table built from an empty map is a non-empty interval that avoids the sentinel's rank. */
  lemma {:induction false} TableEntries(csa: Csa, j: nat)
    requires Valid(csa) && j <= WindowCount(|csa.text|)
    ensures forall k :: k in Table(csa, map[], j) ==>
      1 <= Table(csa, map[], j)[k].lo <= Table(csa, map[], j)[k].hi < |csa.sa|
  {
    if j > 0 {
      TableEntries(csa, j - 1);
      var w := Window(csa.text, j - 1);
      BackwardSearchFindsOccurrence(csa, w, j - 1);
      BackwardSearchAvoidsSentinel(csa, w);
    }
  }

  /** `p` occurs in `text` at position `pos`. */
  predicate OccursAt(p: seq<char>, text: seq<char>, pos: nat) {
    pos + |p| <= |text| && text[pos..pos + |p|] == p
  }

  ghost predicate OccursIn(p: seq<char>, text: seq<char>) {
    exists pos: nat :: OccursAt(p, text, pos)
  }

  /** A key in the table built from an empty map over an ACGT text is the key of a K-mer that occurs there. */
  lemma TableKeyOccurs(csa: Csa, seed: seq<char>)
    requires Valid(csa) && IsAcgt(csa.text)
    requires IsAcgt(seed) && |seed| == K
    requires KeyOf(seed) in Table(csa, map[], WindowCount(|csa.text|))
    ensures OccursIn(seed, csa.text)
  {
    var n := WindowCount(|csa.text|);
    TableKeys(csa, map[], n);
    var i := KeySeenWitness(csa.text, KeyOf(seed), n);
    var w := Window(csa.text, i);
    assert IsAcgt(w) by {
      assert forall x :: 0 <= x < K ==> w[x] == csa.text[i + x];
    }
    KeyInjective(w, seed);
    assert OccursAt(seed, csa.text, i);
  }

  /**
   * Over an upper-case ACGT text, the table built from an empty map holds
   * the key of an ACGT K-mer exactly when the K-mer occurs in the text, and
   * then it holds the K-mer's own interval.
   */
  lemma TableHasSeed(csa: Csa, seed: seq<char>)
    requires Valid(csa) && IsAcgt(csa.text)
    requires IsAcgt(seed) && |seed| == K
    ensures var table := Table(csa, map[], WindowCount(|csa.text|));
      && (KeyOf(seed) in table <==> OccursIn(seed, csa.text))
      && (KeyOf(seed) in table ==> table[KeyOf(seed)] == BackwardSearch(csa, seed))
  {
    if KeyOf(seed) in Table(csa, map[], WindowCount(|csa.text|)) {
      TableKeyOccurs(csa, seed);
    }
    if OccursIn(seed, csa.text) {
      var pos: nat :| OccursAt(seed, csa.text, pos);
      TableSound(csa, pos);
    }
  }
}
