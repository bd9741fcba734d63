/** Physical memory as a sequence of bytes, with little-endian 64-bit words in it and
    4 KiB frames of 512 words. */
module Memory {
  import opened Bits

  const FRAME_SIZE: nat := 4096

  type byte = x: int | 0 <= x < 256
  type Mem = seq<byte>

  function Le(s: seq<byte>): nat {
    if s == [] then 0 else s[0] + 256 * Le(s[1..])
  }

  function ToLe(w: nat, n: nat): (s: seq<byte>)
    ensures |s| == n
  {
    if n == 0 then [] else [w % 256] + ToLe(w / 256, n - 1)
  }

  function Pow256(n: nat): (p: nat)
    ensures p > 0
  {
    if n == 0 then 1 else 256 * Pow256(n - 1)
  }

  /** The lowest byte comes first. */
  lemma {:induction false} LowestFirst(w: nat, n: nat, k: nat)
    requires k < n
    ensures ToLe(w, n)[k] == w / Pow256(k) % 256
    decreases k
  {
    if k > 0 {
      LowestFirst(w / 256, n - 1, k - 1);
      QuotientTwice(w, Pow256(k - 1));
    }
  }

  lemma QuotientTwice(w: nat, p: nat)
    requires p > 0
    ensures w / 256 / p == w / (256 * p)
  {
    var q := w / 256 / p;
    assert w / 256 == q * p + w / 256 % p;
    assert w == q * (256 * p) + (w / 256 % p * 256 + w % 256);
    DivModUnique(w, 256 * p, q, w / 256 % p * 256 + w % 256);
  }

  lemma {:induction false} LeToLe(w: nat, n: nat)
    requires w < Pow256(n)
    ensures Le(ToLe(w, n)) == w
  {
    if n != 0 {
      LeToLe(w / 256, n - 1);
      assert ToLe(w, n)[1..] == ToLe(w / 256, n - 1);
    }
  }

  lemma {:induction false} ToLeLe(s: seq<byte>)
    ensures Le(s) < Pow256(|s|)
    ensures ToLe(Le(s), |s|) == s
  {
    if s != [] {
      ToLeLe(s[1..]);
      assert s == [s[0]] + s[1..];
      DivModUnique(Le(s), 256, Le(s[1..]), s[0]);
    }
  }

  lemma {:induction false} LeZero(s: seq<byte>)
    requires forall i :: 0 <= i < |s| ==> s[i] == 0
    ensures Le(s) == 0
  {
    if s != [] { LeZero(s[1..]); }
  }

  /** The word whose eight bytes start at address a. */
  function Word(m: Mem, a: nat): (w: nat)
    requires a + 8 <= |m|
    ensures w < WORD
  {
    ToLeLe(m[a..a + 8]);
    assert Pow256(8) == WORD;
    Le(m[a..a + 8])
  }

  function SetBytes(m: Mem, a: nat, s: seq<byte>): (m': Mem)
    requires a + |s| <= |m|
    ensures |m'| == |m|
    ensures m'[a..a + |s|] == s
    ensures forall b | 0 <= b < |m| && (b < a || a + |s| <= b) :: m'[b] == m[b]
  {
    m[..a] + s + m[a + |s|..]
  }

  function SetWord(m: Mem, a: nat, w: nat): (m': Mem)
    requires a + 8 <= |m|
    ensures |m'| == |m|
    ensures w < WORD ==> Word(m', a) == w
    ensures forall b | 0 <= b < |m| && (b < a || a + 8 <= b) :: m'[b] == m[b]
  {
    if w < WORD then
      LeToLe(w, 8);
      SetBytes(m, a, ToLe(w, 8))
    else
      SetBytes(m, a, ToLe(w, 8))
  }

  lemma WordSame(m: Mem, m': Mem, a: nat)
    requires |m'| == |m| && a + 8 <= |m|
    requires forall b | a <= b < a + 8 :: m'[b] == m[b]
    ensures Word(m', a) == Word(m, a)
  {
    assert m'[a..a + 8] == m[a..a + 8];
  }

  lemma SamePrefix(b: seq<byte>, b1: seq<byte>, n: nat)
    requires n <= |b| && n <= |b1| && b1[..n] == b[..n]
    ensures forall i | 0 <= i < n :: b1[i] == b[i]
  {
    forall i | 0 <= i < n
      ensures b1[i] == b[i]
    {
      assert b1[..n][i] == b[..n][i];
    }
  }

  lemma WordBytes(m: Mem, a: nat)
    requires a + 8 <= |m|
    ensures m[a..a + 8] == ToLe(Word(m, a), 8)
  {
    ToLeLe(m[a..a + 8]);
  }

  /** Frame t (a physical page number) lies inside memory. */
  predicate InMem(m: Mem, t: nat) {
    (t + 1) * FRAME_SIZE <= |m|
  }

  function EntryAddress(t: nat, i: nat): nat {
    t * FRAME_SIZE + 8 * i
  }

  // Memory seen as frames of 512 words.

  type Frames = w: seq<seq<nat>> | forall t | 0 <= t < |w| :: |w[t]| == 512

  function WordsOf(m: Mem, t: nat): (s: seq<nat>)
    requires InMem(m, t)
    ensures |s| == 512
    ensures forall i | 0 <= i < 512 :: s[i] == Word(m, EntryAddress(t, i)) < WORD
  {
    seq(512, i requires 0 <= i < 512 => Word(m, EntryAddress(t, i)))
  }

  function Words(m: Mem): (w: Frames)
    ensures |w| == |m| / FRAME_SIZE
    ensures forall t | 0 <= t < |w| :: w[t] == WordsOf(m, t)
  {
    seq(|m| / FRAME_SIZE, t requires 0 <= t < |m| / FRAME_SIZE => WordsOf(m, t))
  }

  ghost predicate SameFrame(m: Mem, m': Mem, t: nat)
    requires |m'| == |m| && InMem(m, t)
  {
    forall a | t * FRAME_SIZE <= a < (t + 1) * FRAME_SIZE :: m'[a] == m[a]
  }

  lemma WordsSame(m: Mem, m': Mem, t: nat)
    requires |m'| == |m| && InMem(m, t) && SameFrame(m, m', t)
    ensures WordsOf(m', t) == WordsOf(m, t)
  {
    forall i | 0 <= i < 512
      ensures Word(m', EntryAddress(t, i)) == Word(m, EntryAddress(t, i))
    {
      WordSame(m, m', EntryAddress(t, i));
    }
  }

  /** Setting one word of a frame changes that word of that frame and no other. */
  lemma WordsSetWord(m: Mem, t: nat, i: nat, w: nat)
    requires InMem(m, t) && i < 512 && w < WORD
    ensures
      var m' := SetWord(m, EntryAddress(t, i), w);
      && WordsOf(m', t) == WordsOf(m, t)[i := w]
      && (forall u: nat | InMem(m, u) && u != t :: SameFrame(m, m', u))
  {
    var m' := SetWord(m, EntryAddress(t, i), w);
    forall j | 0 <= j < 512
      ensures Word(m', EntryAddress(t, j)) == if i == j then w else Word(m, EntryAddress(t, j))
    {
      if j != i { WordSame(m, m', EntryAddress(t, j)); }
    }
  }

  predicate ZeroFrame(m: Mem, t: nat)
    requires InMem(m, t)
  {
    forall a | t * FRAME_SIZE <= a < (t + 1) * FRAME_SIZE :: m[a] == 0
  }

  /** A frame is all zero bytes exactly when it is all zero words. */
  lemma ZeroWords(m: Mem, t: nat)
    requires InMem(m, t)
    ensures ZeroFrame(m, t) <==> forall i | 0 <= i < 512 :: WordsOf(m, t)[i] == 0
  {
    if ZeroFrame(m, t) {
      forall i | 0 <= i < 512
        ensures WordsOf(m, t)[i] == 0
      {
        var a := EntryAddress(t, i);
        LeZero(m[a..a + 8]);
      }
    }
    if forall i | 0 <= i < 512 :: WordsOf(m, t)[i] == 0 {
      forall a | t * FRAME_SIZE <= a < (t + 1) * FRAME_SIZE
        ensures m[a] == 0
      {
        var i := (a - t * FRAME_SIZE) / 8;
        assert WordsOf(m, t)[i] == 0;
        ZeroWordBytes(m, EntryAddress(t, i), a);
      }
    }
  }

  lemma ZeroWordBytes(m: Mem, b: nat, a: nat)
    requires b + 8 <= |m| && Word(m, b) == 0 && b <= a < b + 8
    ensures m[a] == 0
  {
    var s := m[b..b + 8];
    ToLeLe(s);
    ToLeZero(8);
    assert s[a - b] == 0;
  }

  lemma {:induction false} ToLeZero(n: nat)
    ensures forall k | 0 <= k < n :: ToLe(0, n)[k] == 0
  {
    if n != 0 { ToLeZero(n - 1); }
  }
}
