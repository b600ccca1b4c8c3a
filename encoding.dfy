/**
 * The 2-bit k-mer key shared by the seed table and by read seeding
 * (`getHashKey` and the rolling key inside `populateHashMap`).
 */
module Encoding {

  /** The k-mer length, fixed at compile time. */
  const K: nat := 8

  /** One past the largest value of the 16-bit key that the seed table stores. */
  const KeySpace: nat := 0x1_0000

  /** The largest value of a signed 32-bit `int`, the type `getHashKey` accumulates in. */
  const IntMax: nat := 0x7FFF_FFFF

  function Pow4(n: nat): (p: nat)
    ensures p >= 1
  {
    if n == 0 then 1 else 4 * Pow4(n - 1)
  }

  lemma {:induction false} Pow4Monotone(m: nat, n: nat)
    requires m <= n
    ensures Pow4(m) <= Pow4(n)
  {
    if m < n {
      Pow4Monotone(m, n - 1);
    }
  }

  lemma Pow4OfK()
    ensures Pow4(K) == KeySpace
  {
  }

  /** A symbol of the alphabet, in upper case. */
  predicate IsBase(c: char) {
    c == 'A' || c == 'C' || c == 'G' || c == 'T'
  }

  predicate IsAcgt(s: seq<char>) {
    forall i :: 0 <= i < |s| ==> IsBase(s[i])
  }

  /** The 2-bit code of one symbol; anything that is not A, C, G or T (in either case) counts as A. */
  function Code(c: char): (r: nat)
    ensures r < 4
  {
    match c
    case 'C' | 'c' => 1
    case 'G' | 'g' => 2
    case 'T' | 't' => 3
    case _ => 0
  }

  /** A base of either case gets its position in "ACGT"; every other symbol gets A's code. */
  lemma CodeNamesBase(c: char)
    ensures IsBase(Upper(c)) ==> "ACGT"[Code(c)] == Upper(c)
    ensures !IsBase(Upper(c)) ==> Code(c) == 0
  {
  }

  /** The symbol whose code is `d`: the inverse of `Code` on upper-case bases. */
  function Base(d: nat): (c: char)
    requires d < 4
    ensures IsBase(c) && Code(c) == d
  {
    if d == 0 then 'A' else if d == 1 then 'C' else if d == 2 then 'G' else 'T'
  }

  /** Upper-casing of one ASCII letter; every other symbol is left alone. */
  function Upper(c: char): (u: char)
    ensures 'a' <= c <= 'z' ==> 'A' <= u <= 'Z'
    ensures !('a' <= c <= 'z') ==> u == c
  {
    if 'a' <= c <= 'z' then (c as int - 32) as char else c
  }

  function UpperAll(s: seq<char>): (u: seq<char>)
    ensures |u| == |s|
  {
    seq(|s|, i requires 0 <= i < |s| => Upper(s[i]))
  }

  /**
   * The key of a string: two bits per symbol, the first symbol in the most
   * significant position.
   */
  function KeyOf(s: seq<char>): (key: nat)
    ensures key < Pow4(|s|)
  {
    if |s| == 0 then 0 else KeyOf(s[..|s| - 1]) * 4 + Code(s[|s| - 1])
  }

  /** The string of `len` upper-case bases whose key is `key` (read from the low bits up). */
  function DecodeKey(key: nat, len: nat): (s: seq<char>)
    ensures |s| == len && IsAcgt(s)
  {
    if len == 0 then [] else DecodeKey(key / 4, len - 1) + [Base(key % 4)]
  }

  /** Decoding a key in range and encoding it again gives the key back. */
  lemma {:induction false} KeyOfDecodeKey(key: nat, len: nat)
    requires key < Pow4(len)
    ensures KeyOf(DecodeKey(key, len)) == key
  {
    if len > 0 {
      var s := DecodeKey(key, len);
      KeyOfDecodeKey(key / 4, len - 1);
      assert s[..len - 1] == DecodeKey(key / 4, len - 1);
    }
  }

  /** Encoding an upper-case ACGT string and decoding the key gives the string back. */
  lemma {:induction false} DecodeKeyOf(s: seq<char>)
    requires IsAcgt(s)
    ensures DecodeKey(KeyOf(s), |s|) == s
  {
    if |s| > 0 {
      var p := s[..|s| - 1];
      DecodeKeyOf(p);
      var c := s[|s| - 1];
      assert KeyOf(s) / 4 == KeyOf(p);
      assert KeyOf(s) % 4 == Code(c);
      assert Base(Code(c)) == c;
      assert s == p + [c];
    }
  }

  /** Two upper-case ACGT strings of one length with one key are the same string. */
  lemma KeyInjective(s: seq<char>, t: seq<char>)
    requires IsAcgt(s) && IsAcgt(t) && |s| == |t|
    requires KeyOf(s) == KeyOf(t)
    ensures s == t
  {
    DecodeKeyOf(s);
    DecodeKeyOf(t);
  }

  /** Matching is case-insensitive: upper-casing a string does not change its key. */
  lemma {:induction false} KeyOfUpperAll(s: seq<char>)
    ensures KeyOf(UpperAll(s)) == KeyOf(s)
  {
    if |s| > 0 {
      var u := UpperAll(s);
      assert u[..|s| - 1] == UpperAll(s[..|s| - 1]);
      KeyOfUpperAll(s[..|s| - 1]);
      var c := s[|s| - 1];
      assert Code(Upper(c)) == Code(c);
    }
  }

  /** The key seen from the front: the first symbol carries the highest two bits. */
  lemma {:induction false} KeyOfFirst(s: seq<char>)
    requires |s| > 0
    ensures KeyOf(s) == Code(s[0]) * Pow4(|s| - 1) + KeyOf(s[1..])
  {
    if |s| > 1 {
      var p, c := s[..|s| - 1], s[|s| - 1];
      var hi, q := Code(s[0]) * Pow4(|s| - 2), KeyOf(p[1..]);
      assert p[1..] == s[1..][..|s| - 2];
      calc {
        KeyOf(s);
        KeyOf(p) * 4 + Code(c);
        { KeyOfFirst(p); }
        (hi + q) * 4 + Code(c);
        hi * 4 + (q * 4 + Code(c));
        { assert hi * 4 == Code(s[0]) * Pow4(|s| - 1); }
        Code(s[0]) * Pow4(|s| - 1) + KeyOf(s[1..]);
      }
    } else {
      assert s[1..] == [];
    }
  }

  /**
   * `getHashKey`: the key accumulated in a signed 32-bit `int`. A string of
   * at most 15 symbols keeps every shift below the sign bit; longer strings
   * would overflow and are not accepted.
   */
  method GetHashKey(str: seq<char>) returns (num: int)
    requires |str| <= 15
    ensures num == KeyOf(str)
    ensures 0 <= num < Pow4(|str|)
  {
    var size := |str|;
    var i := 0;
    num := 0;
    while i < size
      invariant 0 <= i <= size
      invariant num == KeyOf(str[..i])
    {
      Pow4Monotone(i, 14);
      assert num * 4 <= IntMax;
      num := num * 4;
      num := num + Code(str[i]);
      assert str[..i + 1][..i] == str[..i];
      i := i + 1;
    }
    assert str[..size] == str;
  }

  /** The last `K` symbols of `s`, or all of `s` when it is shorter. */
  function LastK(s: seq<char>): (w: seq<char>)
    ensures |w| == if |s| >= K then K else |s|
  {
    if |s| <= K then s else s[|s| - K..]
  }

  /**
   * One step of the rolling key in `populateHashMap`: the 16-bit `num` is
   * shifted left by two bits (dropping what leaves the 16 bits), the mask
   * with `~(0xFFFF << 16)` keeps all 16 bits, and the new symbol's code is added.
   */
  function RollKey(num: nat, c: char): (next: nat)
    requires num < KeySpace
    ensures next < KeySpace
  {
    (num * 4) % KeySpace + Code(c)
  }

  /** Rolling the key of the last K symbols over one more symbol gives the key of the new last K symbols. */
  lemma RollKeyWindow(s: seq<char>, c: char)
    ensures KeyOf(LastK(s)) < KeySpace
    ensures RollKey(KeyOf(LastK(s)), c) == KeyOf(LastK(s + [c]))
  {
    Pow4OfK();
    var w := LastK(s);
    var s' := s + [c];
    Pow4Monotone(|w|, K);
    if |s| < K {
      assert LastK(s') == s';
      assert s'[..|s'| - 1] == s;
      Pow4Monotone(|s| + 1, K);
      assert KeyOf(s) * 4 < Pow4(|s| + 1);
      assert (KeyOf(s) * 4) % KeySpace == KeyOf(s) * 4;
    } else {
      var w' := LastK(s');
      assert w' == w[1..] + [c];
      assert w'[..K - 1] == w[1..];
      KeyOfFirst(w);
      var b := KeyOf(w[1..]) * 4;
      assert b < KeySpace by {
        assert KeyOf(w[1..]) < Pow4(K - 1);
      }
      assert KeyOf(w) * 4 == Code(w[0]) * KeySpace + b;
      assert (KeyOf(w) * 4) % KeySpace == b;
    }
  }

  /** The 16-bit rolling key after the first `n` symbols of `s` have been shifted in. */
  function RollingKey(s: seq<char>, n: nat): (num: nat)
    requires n <= |s|
    ensures num < KeySpace
  {
    if n == 0 then 0 else RollKey(RollingKey(s, n - 1), s[n - 1])
  }

  /** The rolling key is the key of the last K symbols read (of all of them, before K are read). */
  lemma {:induction false} RollingKeyIsWindowKey(s: seq<char>, n: nat)
    requires n <= |s|
    ensures RollingKey(s, n) == KeyOf(LastK(s[..n]))
  {
    if n > 0 {
      var p, c := s[..n - 1], s[n - 1];
      calc {
        RollingKey(s, n);
        RollKey(RollingKey(s, n - 1), c);
        { RollingKeyIsWindowKey(s, n - 1); }
        RollKey(KeyOf(LastK(p)), c);
        { RollKeyWindow(p, c); }
        KeyOf(LastK(p + [c]));
        { assert p + [c] == s[..n]; }
        KeyOf(LastK(s[..n]));
      }
    }
  }
}
