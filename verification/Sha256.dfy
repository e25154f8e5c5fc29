/**
 * The streaming SHA-256 of the code base: unrolled rounds, a schedule of sixteen words, and a buffer for what does not
 * fill a block.
 */
module Sha256 {
  import S = Sha256Standard
  import opened Bytes

  type word = S.word
  type octet = S.octet

  function Ch(x: word, y: word, z: word): word { z ^ (x & (y ^ z)) }

  function Maj(x: word, y: word, z: word): word { (x & y) | (z & (x | y)) }

  function Sigma0(x: word): word { ((x >> 2) | (x << 30)) ^ ((x >> 13) | (x << 19)) ^ ((x >> 22) | (x << 10)) }

  function Sigma1(x: word): word { ((x >> 6) | (x << 26)) ^ ((x >> 11) | (x << 21)) ^ ((x >> 25) | (x << 7)) }

  function sigma0(x: word): word { ((x >> 7) | (x << 25)) ^ ((x >> 18) | (x << 14)) ^ (x >> 3) }

  function sigma1(x: word): word { ((x >> 17) | (x << 15)) ^ ((x >> 19) | (x << 13)) ^ (x >> 10) }

  /** The short forms of the logical functions are those of the standard. */
  lemma ChooseAndMajority(x: word, y: word, z: word)
    ensures Ch(x, y, z) == S.Ch(x, y, z) && Maj(x, y, z) == S.Maj(x, y, z)
  {
    hide Ch, Maj, S.Ch, S.Maj;
    Choose(x, y, z);
    Majority(x, y, z);
  }

  lemma Choose(x: word, y: word, z: word)
    ensures Ch(x, y, z) == S.Ch(x, y, z)
  {
    ChooseBits(x, y, z);
  }

  lemma ChooseBits(x: word, y: word, z: word)
    ensures z ^ (x & (y ^ z)) == (x & y) ^ (!x & z)
  {
  }

  lemma Majority(x: word, y: word, z: word)
    ensures Maj(x, y, z) == S.Maj(x, y, z)
  {
    MajorityBits(x, y, z);
  }

  lemma MajorityBits(x: word, y: word, z: word)
    ensures (x & y) | (z & (x | y)) == (x & y) ^ (x & z) ^ (y & z)
  {
  }

  /** Rotations by two shifts. */
  lemma Rotations(x: word)
    ensures Sigma0(x) == S.BigSigma0(x) && Sigma1(x) == S.BigSigma1(x)
    ensures sigma0(x) == S.SmallSigma0(x) && sigma1(x) == S.SmallSigma1(x)
  {
  }

  /** Round: two of the eight variables change in place. */
  method RoundStep(a: word, b: word, c: word, d: word, e: word, f: word, g: word, h: word, k: word, w: word)
    returns (d': word, h': word)
    ensures S.Regs(h', a, b, c, d', e, f, g) == S.Round(S.Regs(a, b, c, d, e, f, g, h), k, w)
  {
    hide S.Add, Ch, Maj, Sigma0, Sigma1, S.Ch, S.Maj, S.BigSigma0, S.BigSigma1;
    ChooseAndMajority(e, f, g);
    ChooseAndMajority(a, b, c);
    Rotations(e);
    Rotations(a);
    var t1 := S.Add(S.Add(S.Add(S.Add(h, Sigma1(e)), Ch(e, f, g)), k), w);
    var t2 := S.Add(Sigma0(a), Maj(a, b, c));
    d' := S.Add(d, t1);
    h' := S.Add(t1, t2);
  }

  // ----- The constants of the unrolled rounds, sixteen at a time -----

  function First(t: nat): word
    requires t < 16
  {
    [0x428a2f98, 0x71374491, 0xb5c0fbcf, 0xe9b5dba5, 0x3956c25b, 0x59f111f1, 0x923f82a4, 0xab1c5ed5,
     0xd807aa98, 0x12835b01, 0x243185be, 0x550c7dc3, 0x72be5d74, 0x80deb1fe, 0x9bdc06a7, 0xc19bf174][t]
  }

  function Second(t: nat): word
    requires t < 16
  {
    [0xe49b69c1, 0xefbe4786, 0x0fc19dc6, 0x240ca1cc, 0x2de92c6f, 0x4a7484aa, 0x5cb0a9dc, 0x76f988da,
     0x983e5152, 0xa831c66d, 0xb00327c8, 0xbf597fc7, 0xc6e00bf3, 0xd5a79147, 0x06ca6351, 0x14292967][t]
  }

  function Third(t: nat): word
    requires t < 16
  {
    [0x27b70a85, 0x2e1b2138, 0x4d2c6dfc, 0x53380d13, 0x650a7354, 0x766a0abb, 0x81c2c92e, 0x92722c85,
     0xa2bfe8a1, 0xa81a664b, 0xc24b8b70, 0xc76c51a3, 0xd192e819, 0xd6990624, 0xf40e3585, 0x106aa070][t]
  }

  function Fourth(t: nat): word
    requires t < 16
  {
    [0x19a4c116, 0x1e376c08, 0x2748774c, 0x34b0bcb5, 0x391c0cb3, 0x4ed8aa4a, 0x5b9cca4f, 0x682e6ff3,
     0x748f82ee, 0x78a5636f, 0x84c87814, 0x8cc70208, 0x90befffa, 0xa4506ceb, 0xbef9a3f7, 0xc67178f2][t]
  }

  function K(t: nat): word
    requires t < 64
  {
    if t < 16 then First(t) else if t < 32 then Second(t - 16) else if t < 48 then Third(t - 32) else Fourth(t - 48)
  }

  /** They are those of section 4.2.2. */
  lemma ConstantsAgree(t: nat)
    requires t < 64
    ensures K(t) == S.K(t)
  {
    if t < 16 {
      FirstAgree(t);
    } else if t < 32 {
      SecondAgree(t - 16);
    } else if t < 48 {
      ThirdAgree(t - 32);
    } else {
      FourthAgree(t - 48);
    }
    hide First, Second, Third, Fourth, S.K0, S.K1, S.K2, S.K3;
  }

  lemma FirstAgree(t: nat)
    requires t < 16
    ensures First(t) == S.K0(t)
  {
  }

  lemma SecondAgree(t: nat)
    requires t < 16
    ensures Second(t) == S.K1(t)
  {
  }

  lemma ThirdAgree(t: nat)
    requires t < 16
    ensures Third(t) == S.K2(t)
  {
  }

  lemma FourthAgree(t: nat)
    requires t < 16
    ensures Fourth(t) == S.K3(t)
  {
  }

  lemma RoundsStep(r: S.Regs, block: seq<octet>, t: nat)
    requires |block| == 64 && t < 64
    ensures S.Rounds(r, block, t + 1) == S.Round(S.Rounds(r, block, t), K(t), S.W(block, t))
  {
    hide K, S.K, S.W, S.Round;
    ConstantsAgree(t);
  }

  /**
   * Eight rounds, after which every variable has its own name again.  The words are those of the schedule from round t
   * on.
   */
  method Octet(r: S.Regs, w: array<word>, o: nat, t: nat, ghost r0: S.Regs, ghost block: seq<octet>)
    returns (r': S.Regs)
    requires |block| == 64 && t + 8 <= 64 && o + 8 <= w.Length && r == S.Rounds(r0, block, t)
    requires forall j :: o <= j < o + 8 ==> w[j] == S.W(block, t + (j - o))
    ensures r' == S.Rounds(r0, block, t + 8)
  {
    hide S.Rounds, S.Round, S.W, K;
    var a, b, c, d, e, f, g, h := r.a, r.b, r.c, r.d, r.e, r.f, r.g, r.h;
    RoundsStep(r0, block, t + 0);
    d, h := RoundStep(a, b, c, d, e, f, g, h, K(t + 0), w[o + 0]);
    RoundsStep(r0, block, t + 1);
    c, g := RoundStep(h, a, b, c, d, e, f, g, K(t + 1), w[o + 1]);
    RoundsStep(r0, block, t + 2);
    b, f := RoundStep(g, h, a, b, c, d, e, f, K(t + 2), w[o + 2]);
    RoundsStep(r0, block, t + 3);
    a, e := RoundStep(f, g, h, a, b, c, d, e, K(t + 3), w[o + 3]);
    RoundsStep(r0, block, t + 4);
    h, d := RoundStep(e, f, g, h, a, b, c, d, K(t + 4), w[o + 4]);
    RoundsStep(r0, block, t + 5);
    g, c := RoundStep(d, e, f, g, h, a, b, c, K(t + 5), w[o + 5]);
    RoundsStep(r0, block, t + 6);
    f, b := RoundStep(c, d, e, f, g, h, a, b, K(t + 6), w[o + 6]);
    RoundsStep(r0, block, t + 7);
    e, a := RoundStep(b, c, d, e, f, g, h, a, K(t + 7), w[o + 7]);
    r' := S.Regs(a, b, c, d, e, f, g, h);
  }

  /** A word of the schedule takes the place of the one sixteen rounds before. */
  function Added(w0: word, w14: word, w9: word, w1: word, ghost block: seq<octet>, ghost t: nat): (w: word)
    requires |block| == 64 && 16 <= t
    requires w0 == S.W(block, t - 16) && w14 == S.W(block, t - 2) && w9 == S.W(block, t - 7) && w1 == S.W(block, t - 15)
    ensures w == S.W(block, t)
  {
    ScheduleStep(block, t);
    S.Add(w0, S.Add(S.Add(sigma1(w14), w9), sigma0(w1)))
  }

  lemma ScheduleStep(block: seq<octet>, t: nat)
    requires |block| == 64 && 16 <= t
    ensures S.W(block, t) ==
      S.Add(S.W(block, t - 16), S.Add(S.Add(sigma1(S.W(block, t - 2)), S.W(block, t - 7)), sigma0(S.W(block, t - 15))))
  {
    hide S.Add, sigma0, sigma1, S.SmallSigma0, S.SmallSigma1;
    Rotations(S.W(block, t - 2));
    Rotations(S.W(block, t - 15));
    var x, y, z, u :=
      S.SmallSigma1(S.W(block, t - 2)), S.W(block, t - 7), S.SmallSigma0(S.W(block, t - 15)), S.W(block, t - 16);
    Commute(S.Add(S.Add(x, y), z), u);
  }

  lemma Commute(x: word, y: word)
    ensures S.Add(x, y) == S.Add(y, x)
  {
  }

  /** The words w0 to w15 hold the schedule from base on; the first n have moved on by sixteen rounds. */
  ghost predicate Window(w: seq<word>, block: seq<octet>, base: nat, n: nat)
    requires |block| == 64
  {
    |w| == 16 && n <= 16 && forall j :: 0 <= j < 16 ==> w[j] == S.W(block, if j < n then base + 16 + j else base + j)
  }

  /** w_i takes its next value from w_(i+14), w_(i+9) and w_(i+1), counted around sixteen. */
  method Advance(w: array<word>, i: nat, i14: nat, i9: nat, i1: nat, ghost block: seq<octet>, ghost base: nat)
    requires |block| == 64 && i < 16 && Window(w[..], block, base, i)
    requires i14 == (i + 14) % 16 && i9 == (i + 9) % 16 && i1 == (i + 1) % 16
    modifies w
    ensures Window(w[..], block, base, i + 1)
  {
    hide S.W, Added;
    WindowAt(w[..], block, base, i, i);
    WindowAt(w[..], block, base, i, i14);
    WindowAt(w[..], block, base, i, i9);
    WindowAt(w[..], block, base, i, i1);
    w[i] := Added(w[i], w[i14], w[i9], w[i1], block, base + 16 + i);
  }

  lemma WindowAt(w: seq<word>, block: seq<octet>, base: nat, n: nat, j: nat)
    requires |block| == 64 && Window(w, block, base, n) && j < 16
    ensures w[j] == S.W(block, if j < n then base + 16 + j else base + j)
  {
  }

  lemma WindowNext(w: seq<word>, block: seq<octet>, base: nat)
    requires |block| == 64 && Window(w, block, base, 16)
    ensures Window(w, block, base + 16, 0)
  {
  }

  method ScheduleLow(w: array<word>, ghost block: seq<octet>, ghost base: nat)
    requires |block| == 64 && Window(w[..], block, base, 0)
    modifies w
    ensures Window(w[..], block, base, 8)
  {
    hide Window;
    Advance(w, 0, 14, 9, 1, block, base);
    Advance(w, 1, 15, 10, 2, block, base);
    Advance(w, 2, 0, 11, 3, block, base);
    Advance(w, 3, 1, 12, 4, block, base);
    Advance(w, 4, 2, 13, 5, block, base);
    Advance(w, 5, 3, 14, 6, block, base);
    Advance(w, 6, 4, 15, 7, block, base);
    Advance(w, 7, 5, 0, 8, block, base);
  }

  method ScheduleHigh(w: array<word>, ghost block: seq<octet>, ghost base: nat)
    requires |block| == 64 && Window(w[..], block, base, 8)
    modifies w
    ensures Window(w[..], block, base + 16, 0)
  {
    hide Window;
    Advance(w, 8, 6, 1, 9, block, base);
    Advance(w, 9, 7, 2, 10, block, base);
    Advance(w, 10, 8, 3, 11, block, base);
    Advance(w, 11, 9, 4, 12, block, base);
    Advance(w, 12, 10, 5, 13, block, base);
    Advance(w, 13, 11, 6, 14, block, base);
    Advance(w, 14, 12, 7, 15, block, base);
    Advance(w, 15, 13, 8, 0, block, base);
    WindowNext(w[..], block, base);
  }

  /** Sixteen rounds, with the words of the schedule brought up to date before each half. */
  method SixteenRounds(r: S.Regs, w: array<word>, t: nat, ghost r0: S.Regs, ghost block: seq<octet>)
    returns (r': S.Regs)
    requires |block| == 64 && 16 <= t && t + 16 <= 64 && r == S.Rounds(r0, block, t) && Window(w[..], block, t - 16, 0)
    modifies w
    ensures r' == S.Rounds(r0, block, t + 16) && Window(w[..], block, t, 0)
  {
    hide S.Rounds, S.W, Window;
    ScheduleLow(w, block, t - 16);
    WindowSlice(w[..], block, t - 16, 8, 0);
    r' := Octet(r, w, 0, t, r0, block);
    ScheduleHigh(w, block, t - 16);
    WindowSlice(w[..], block, t, 0, 8);
    r' := Octet(r', w, 8, t + 8, r0, block);
  }

  lemma WindowSlice(w: seq<word>, block: seq<octet>, base: nat, n: nat, o: nat)
    requires |block| == 64 && Window(w, block, base, n) && ((n == 0 && o <= 8) || (n == 8 && o == 0))
    ensures |w| == 16 && forall j :: o <= j < o + 8 ==> w[j] == S.W(block, if n == 8 then base + 16 + j else base + j)
  {
  }

  /** The words of a block, most significant octet first. */
  /** be32_to_cpu: the first octet is the most significant. */
  function Be32(b0: octet, b1: octet, b2: octet, b3: octet): (w: word)
    ensures w == S.BigEndian(b0, b1, b2, b3)
  {
    b3 as word | (b2 as word << 8) | (b1 as word << 16) | (b0 as word << 24)
  }

  method LoadWords(chunk: seq<octet>, w: array<word>)
    requires |chunk| == 64 && w.Length == 16
    modifies w
    ensures Window(w[..], chunk, 0, 0)
  {
    hide S.BigEndian;
    forall i | 0 <= i < 16 {
      w[i] := Be32(chunk[4 * i], chunk[4 * i + 1], chunk[4 * i + 2], chunk[4 * i + 3]);
    }
  }

  /** Transform: one block taken into the hash value. */
  method Transform(s: S.Regs, chunk: seq<octet>) returns (s': S.Regs)
    requires |chunk| == 64
    ensures s' == S.Compressed(s, chunk)
  {
    hide S.Rounds, S.W, Window, S.Add;
    var w := new word[16];
    LoadWords(chunk, w);
    NoRounds(s, chunk);
    WindowSlice(w[..], chunk, 0, 0, 0);
    WindowSlice(w[..], chunk, 0, 0, 8);
    var r := Octet(s, w, 0, 0, s, chunk);
    r := Octet(r, w, 8, 8, s, chunk);
    r := SixteenRounds(r, w, 16, s, chunk);
    r := SixteenRounds(r, w, 32, s, chunk);
    r := SixteenRounds(r, w, 48, s, chunk);
    s' := S.Regs(S.Add(s.a, r.a), S.Add(s.b, r.b), S.Add(s.c, r.c), S.Add(s.d, r.d), S.Add(s.e, r.e), S.Add(s.f, r.f),
      S.Add(s.g, r.g), S.Add(s.h, r.h));
  }

  lemma NoRounds(s: S.Regs, chunk: seq<octet>)
    requires |chunk| == 64
    ensures S.Rounds(s, chunk, 0) == s
  {
  }

  // ----- Streaming -----

  /** The hash value after all whole blocks of a message. */
  ghost function State(m: seq<octet>): S.Regs {
    S.Blocks(m, |m| / 64)
  }

  /** A whole block more. */
  lemma OneBlock(m: seq<octet>, j: nat, block: seq<octet>)
    requires |block| == 64 && 64 * j + 64 <= |m| && m[64 * j..64 * j + 64] == block
    ensures S.Blocks(m, j + 1) == S.Compressed(S.Blocks(m, j), block)
  {
    hide S.Compressed;
  }

  lemma StateAt(m: seq<octet>, j: nat)
    requires 64 * j <= |m| < 64 * j + 64
    ensures |m| % 64 == |m| - 64 * j && State(m) == S.Blocks(m, j)
  {
    hide S.Blocks;
    Split(|m|, 64, j, |m| - 64 * j);
  }

  lemma SamePrefix(m: seq<octet>, d: seq<octet>, j: nat)
    requires 64 * j <= |m|
    ensures S.Blocks(m + d, j) == S.Blocks(m, j)
  {
    hide S.Blocks;
    assert (m + d)[..64 * j] == m[..64 * j];
    S.BlocksPrefix(m, m + d, j);
  }

  /** The counter is a 64-bit number, whose largest value marks a context that is done. */
  const SIZE_MAX: nat := 0xFFFF_FFFF_FFFF_FFFF

  class Context {
    var s: S.Regs
    const buf: array<octet>
    var bytes: nat

    /** sha256_init */
    constructor ()
      ensures Holds([]) && fresh(buf)
    {
      s, bytes := S.Initial(), 0;
      buf := new octet[64];
    }

    /** The context has taken in m: whole blocks are in the hash value, the rest is in the buffer. */
    ghost predicate Holds(m: seq<octet>)
      reads this, buf
    {
      && buf.Length == 64 && bytes == |m| && s == State(m)
      && buf[..|m| % 64] == m[|m| - |m| % 64..]
    }

    /** memcpy into the buffer. */
    method Fill(o: nat, data: seq<octet>)
      requires buf.Length == 64 && o + |data| <= 64
      modifies buf
      ensures buf[..o + |data|] == old(buf[..o]) + data
    {
      forall i | 0 <= i < |data| {
        buf[o + i] := data[i];
      }
    }

    /** add */
    method Add(data: seq<octet>, ghost m: seq<octet>)
      requires Holds(m) && |m| + |data| < SIZE_MAX
      modifies this, buf
      ensures Holds(m + data)
    {
      hide S.Blocks, S.Compressed, State;
      var bufsize := bytes % 64;
      var pos, len := 0, |data|;
      ghost var all := m + data;
      ghost var j: nat := |m| / 64;
      StateAt(m, j);
      SamePrefix(m, data, j);
      if bufsize + len >= 64 {
        pos := 64 - bufsize;
        Fill(bufsize, data[..pos]);
        bytes := bytes + pos;
        len := len - pos;
        FirstBlock(m, data, 64 * j);
        OneBlock(all, j, buf[..]);
        s := Transform(s, buf[..]);
        bufsize := 0;
        j := j + 1;
      }
      pos, j := AddBlocks(data, pos, m, j);
      Rest(data, pos, bufsize, m, j);
    }

    /** The loop of add: whole blocks are taken directly from the source. */
    method AddBlocks(data: seq<octet>, pos0: nat, ghost m: seq<octet>, ghost j0: nat) returns (pos: nat, ghost j: nat)
      requires pos0 <= |data| && bytes == |m| + pos0 && 64 * j0 <= bytes && buf.Length == 64 &&
        s == S.Blocks(m + data, j0)
      requires 64 * j0 == bytes || |data| < pos0 + 64
      modifies `s, `bytes
      ensures pos0 <= pos <= |data| < pos + 64 && bytes == |m| + pos && 64 * j <= bytes && s == S.Blocks(m + data, j)
      ensures if 64 * j0 == old(bytes) then 64 * j == bytes else pos == pos0 && j == j0
    {
      hide S.Blocks, S.Compressed;
      pos, j := pos0, j0;
      var len := |data| - pos;
      while len >= 64
        invariant 0 <= len && pos0 <= pos && pos + len == |data| && bytes == |m| + pos && 64 * j <= bytes
        invariant if 64 * j0 == old(bytes) then 64 * j == bytes else pos == pos0 && j == j0
        invariant s == S.Blocks(m + data, j)
        decreases len
      {
        NextBlock(m, data, 64 * j, pos);
        OneBlock(m + data, j, data[pos..pos + 64]);
        s := Transform(s, data[pos..pos + 64]);
        bytes := bytes + 64;
        pos := pos + 64;
        len := len - 64;
        j := j + 1;
      }
    }

    /** The end of add: what remains goes into the buffer. */
    method Rest(data: seq<octet>, pos: nat, bufsize: nat, ghost m: seq<octet>, ghost j: nat)
      requires pos <= |data| && bytes == |m| + pos == 64 * j + bufsize && buf.Length == 64 && s == S.Blocks(m + data, j)
      requires bufsize + (|data| - pos) < 64 && buf[..bufsize] == (m + data)[64 * j..bytes]
      modifies `bytes, buf
      ensures Holds(m + data)
    {
      hide S.Blocks, State;
      var len := |data| - pos;
      if len > 0 {
        Fill(bufsize, data[pos..pos + len]);
        bytes := bytes + len;
      }
      StateAt(m + data, j);
      assert (m + data)[64 * j..] == (m + data)[64 * j..64 * j + bufsize] + data[pos..];
    }

    lemma FirstBlock(m: seq<octet>, data: seq<octet>, k: nat)
      requires k <= |m| < k + 64 && |m| - k + |data| >= 64
      ensures (m + data)[k..k + 64] == m[k..] + data[..64 - (|m| - k)]
    {
    }

    lemma NextBlock(m: seq<octet>, data: seq<octet>, k: nat, pos: nat)
      requires k == |m| + pos && pos + 64 <= |data|
      ensures (m + data)[k..k + 64] == data[pos..pos + 64]
    {
    }

    /** sha256_update */
    method Update(data: seq<octet>, ghost m: seq<octet>)
      requires Holds(m) && |m| + |data| < SIZE_MAX
      modifies this, buf
      ensures Holds(m + data)
    {
      Add(data, m);
    }

    /** sha256_done: the hash of everything taken in. */
    method Done(ghost m: seq<octet>) returns (res: seq<octet>)
      requires Holds(m) && Countable(|m|)
      modifies this, buf
      ensures res == S.Hash(m)
      ensures bytes == 0xFFFF_FFFF_FFFF_FFFF
    {
      hide S.Blocks, S.Compressed, S.Octets, S.NumberOctets, S.ZeroOctets, S.Zeros, Context.Holds;
      HoldsFacts(m);
      var sizedesc := S.NumberOctets(bytes * 8 % 0x1_0000_0000_0000_0000, 8);
      var n := 1 + (128 - 8 - bytes % 64 - 1) % 64;
      var pad := [0x80 as octet] + S.ZeroOctets(63);
      ZerosAre(|m|);
      SmallSize(|m|);
      ZerosPrefix(63, S.Zeros(|m|));
      PadFacts(m, pad[..n], sizedesc);
      Add(pad[..n], m);
      Add(sizedesc, m + pad[..n]);
      DoneFacts(m, m + pad[..n] + sizedesc);
      res := S.Octets(s.a) + S.Octets(s.b) + S.Octets(s.c) + S.Octets(s.d) + S.Octets(s.e) + S.Octets(s.f) +
        S.Octets(s.g) + S.Octets(s.h);
      bytes := SIZE_MAX;
    }

    lemma HoldsFacts(m: seq<octet>)
      requires Holds(m)
      ensures bytes == |m|
    {
    }

    lemma DoneFacts(m: seq<octet>, p: seq<octet>)
      requires Holds(p) && p == S.Padded(m)
      ensures s == S.Blocks(S.Padded(m), |S.Padded(m)| / 64)
    {
      StateAt(p, |p| / 64);
    }
  }

  /** What the two calls of add in sha256_done bring is the padding of the standard. */
  lemma PadFacts(m: seq<octet>, pad: seq<octet>, sizedesc: seq<octet>)
    requires pad == [0x80] + S.ZeroOctets(S.Zeros(|m|)) && sizedesc == S.NumberOctets(8 * |m|, 8)
    ensures m + pad + sizedesc == S.Padded(m)
  {
    hide S.NumberOctets, S.Zeros, S.ZeroOctets;
    assert m + pad + sizedesc == m + (pad + sizedesc);
  }

  lemma ZerosPrefix(n: nat, k: nat)
    requires k <= n
    ensures ([0x80 as octet] + S.ZeroOctets(n))[..k + 1] == [0x80] + S.ZeroOctets(k)
  {
  }

  lemma SmallSize(n: nat)
    requires 8 * n < 0x1_0000_0000_0000_0000
    ensures n * 8 % 0x1_0000_0000_0000_0000 == 8 * n
  {
    Split(n * 8, 0x1_0000_0000_0000_0000, 0, n * 8);
  }

  lemma ZerosAre(n: nat)
    ensures (128 - 8 - n % 64 - 1) % 64 == S.Zeros(n)
  {
  }

  /** sha256_update called for the pieces of a message one after the other. */
  ghost function Joined(pieces: seq<seq<octet>>): seq<octet> {
    if pieces == [] then [] else Joined(pieces[..|pieces| - 1]) + pieces[|pieces| - 1]
  }

  /** Few enough octets for the counter, and for the length field of the padding. */
  ghost predicate Countable(n: nat) { 8 * n < 0x1_0000_0000_0000_0000 }

  lemma CountableFits(n: nat, k: nat)
    requires Countable(n) && k <= n
    ensures k < SIZE_MAX && Countable(k)
  {
  }

  /** However a message is split into calls of sha256_update, the result is the hash of the whole. */
  method HashPieces(pieces: seq<seq<octet>>) returns (res: seq<octet>)
    requires Countable(|Joined(pieces)|)
    ensures res == S.Hash(Joined(pieces))
  {
    hide *;
    var ctx := new Context();
    NonePieces();
    UpdateAll(ctx, pieces);
    res := ctx.Done(Joined(pieces));
  }

  method UpdateAll(ctx: Context, pieces: seq<seq<octet>>)
    requires Countable(|Joined(pieces)|) && ctx.Holds([])
    modifies ctx, ctx.buf
    ensures ctx.Holds(Joined(pieces))
  {
    hide *;
    Ends(pieces);
    NonePieces();
    var i := 0;
    while i < |pieces|
      invariant 0 <= i <= |pieces| && ctx.Holds(Joined(pieces[..i]))
    {
      JoinedMore(pieces, i);
      CountableFits(|Joined(pieces)|, |Joined(pieces[..i + 1])|);
      ctx.Update(pieces[i], Joined(pieces[..i]));
      i := i + 1;
    }
  }

  lemma JoinedStep(a: seq<seq<octet>>, b: seq<octet>)
    ensures Joined(a + [b]) == Joined(a) + b
  {
    assert (a + [b])[..|a|] == a;
  }

  lemma Ends(pieces: seq<seq<octet>>)
    ensures pieces[..0] == [] && pieces[..|pieces|] == pieces
  {
  }

  lemma NonePieces()
    ensures Joined([]) == []
  {
  }

  lemma {:induction false} JoinedMore(pieces: seq<seq<octet>>, i: nat)
    requires i < |pieces|
    ensures Joined(pieces[..i + 1]) == Joined(pieces[..i]) + pieces[i] && |Joined(pieces[..i + 1])| <= |Joined(pieces)|
    decreases |pieces| - i
  {
    JoinedStep(pieces[..i], pieces[i]);
    assert pieces[..i] + [pieces[i]] == pieces[..i + 1];
    hide Joined;
    if i + 1 < |pieces| {
      JoinedMore(pieces, i + 1);
    } else {
      assert pieces[..i + 1] == pieces;
    }
  }
}
