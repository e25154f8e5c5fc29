/** SHA-256 as FIPS 180-4 defines it: functions (4.1.2), padding (5.1.1), schedule and rounds (6.2.2). */
module Sha256Standard {
  type word = bv32
  type octet = bv8

  /** Addition modulo 2^32. */
  function Add(x: word, y: word): word { x + y }

  /** It counts on from x, and from the largest word to 0. */
  lemma AddCounts(x: word, y: word)
    ensures Add(x, 0) == x && Add(x, y + 1) == Add(x, y) + 1 && Add(0xFFFF_FFFF, 1) == 0
  {
  }

  // ----- Functions of section 4.1.2 -----

  function Ch(x: word, y: word, z: word): word { (x & y) ^ (!x & z) }

  function Maj(x: word, y: word, z: word): word { (x & y) ^ (x & z) ^ (y & z) }

  function BigSigma0(x: word): word { x.RotateRight(2) ^ x.RotateRight(13) ^ x.RotateRight(22) }

  function BigSigma1(x: word): word { x.RotateRight(6) ^ x.RotateRight(11) ^ x.RotateRight(25) }

  function SmallSigma0(x: word): word { x.RotateRight(7) ^ x.RotateRight(18) ^ (x >> 3) }

  function SmallSigma1(x: word): word { x.RotateRight(17) ^ x.RotateRight(19) ^ (x >> 10) }

  // ----- Constants of section 4.2.2 -----

  function K(t: nat): word
    requires t < 64
  {
    if t < 16 then K0(t) else if t < 32 then K1(t - 16) else if t < 48 then K2(t - 32) else K3(t - 48)
  }

  function K0(t: nat): word
    requires t < 16
  {
    [0x428a2f98, 0x71374491, 0xb5c0fbcf, 0xe9b5dba5, 0x3956c25b, 0x59f111f1, 0x923f82a4, 0xab1c5ed5,
     0xd807aa98, 0x12835b01, 0x243185be, 0x550c7dc3, 0x72be5d74, 0x80deb1fe, 0x9bdc06a7, 0xc19bf174][t]
  }

  function K1(t: nat): word
    requires t < 16
  {
    [0xe49b69c1, 0xefbe4786, 0x0fc19dc6, 0x240ca1cc, 0x2de92c6f, 0x4a7484aa, 0x5cb0a9dc, 0x76f988da,
     0x983e5152, 0xa831c66d, 0xb00327c8, 0xbf597fc7, 0xc6e00bf3, 0xd5a79147, 0x06ca6351, 0x14292967][t]
  }

  function K2(t: nat): word
    requires t < 16
  {
    [0x27b70a85, 0x2e1b2138, 0x4d2c6dfc, 0x53380d13, 0x650a7354, 0x766a0abb, 0x81c2c92e, 0x92722c85,
     0xa2bfe8a1, 0xa81a664b, 0xc24b8b70, 0xc76c51a3, 0xd192e819, 0xd6990624, 0xf40e3585, 0x106aa070][t]
  }

  function K3(t: nat): word
    requires t < 16
  {
    [0x19a4c116, 0x1e376c08, 0x2748774c, 0x34b0bcb5, 0x391c0cb3, 0x4ed8aa4a, 0x5b9cca4f, 0x682e6ff3,
     0x748f82ee, 0x78a5636f, 0x84c87814, 0x8cc70208, 0x90befffa, 0xa4506ceb, 0xbef9a3f7, 0xc67178f2][t]
  }

  // ----- Words -----

  function BigEndian(b0: octet, b1: octet, b2: octet, b3: octet): word {
    (b0 as word << 24) | (b1 as word << 16) | (b2 as word << 8) | b3 as word
  }

  /** The i-th word of a block. */
  function WordOf(block: seq<octet>, i: nat): word
    requires 4 * i + 4 <= |block|
  {
    BigEndian(block[4 * i], block[4 * i + 1], block[4 * i + 2], block[4 * i + 3])
  }

  function Octets(w: word): (b: seq<octet>)
    ensures |b| == 4
  {
    [((w >> 24) & 0xFF) as octet, ((w >> 16) & 0xFF) as octet, ((w >> 8) & 0xFF) as octet, (w & 0xFF) as octet]
  }

  /** A number as so many octets, most significant first. */
  function NumberOctets(n: nat, k: nat): (b: seq<octet>)
    ensures |b| == k
  {
    if k == 0 then [] else NumberOctets(n / 256, k - 1) + [(n % 256) as octet]
  }

  /** Words and their octets are the same, the most significant octet first. */
  lemma WordsAndOctets(w: word)
    ensures var b := Octets(w); BigEndian(b[0], b[1], b[2], b[3]) == w
    ensures Octets(0x0102_0304) == [1, 2, 3, 4]
  {
  }

  /** Appending an octet multiplies the number by 256 and adds it; no octets stand for no number. */
  lemma NumberGrows(n: nat, x: nat, k: nat)
    requires x < 256
    ensures NumberOctets(n, 0) == [] && NumberOctets(256 * n + x, k + 1) == NumberOctets(n, k) + [x as octet]
  {
    assert (256 * n + x) / 256 == n && (256 * n + x) % 256 == x;
  }

  // ----- Section 6.2.2 -----

  /** The message schedule. */
  function W(block: seq<octet>, t: nat): word
    requires |block| == 64
  {
    if t < 16 then WordOf(block, t)
    else Add(Add(Add(SmallSigma1(W(block, t - 2)), W(block, t - 7)), SmallSigma0(W(block, t - 15))), W(block, t - 16))
  }

  /** The eight working variables, or the eight words of a hash value. */
  datatype Regs = Regs(a: word, b: word, c: word, d: word, e: word, f: word, g: word, h: word)

  function Round(r: Regs, k: word, w: word): Regs {
    var t1 := Add(Add(Add(Add(r.h, BigSigma1(r.e)), Ch(r.e, r.f, r.g)), k), w);
    var t2 := Add(BigSigma0(r.a), Maj(r.a, r.b, r.c));
    Regs(Add(t1, t2), r.a, r.b, r.c, Add(r.d, t1), r.e, r.f, r.g)
  }

  /** The working variables before round t. */
  function Rounds(r: Regs, block: seq<octet>, t: nat): Regs
    requires |block| == 64 && t <= 64
  {
    if t == 0 then r else Round(Rounds(r, block, t - 1), K(t - 1), W(block, t - 1))
  }

  function Plus(r: Regs, s: Regs): Regs {
    Regs(Add(r.a, s.a), Add(r.b, s.b), Add(r.c, s.c), Add(r.d, s.d), Add(r.e, s.e), Add(r.f, s.f), Add(r.g, s.g),
      Add(r.h, s.h))
  }

  /** One block taken into the hash value. */
  function Compressed(r: Regs, block: seq<octet>): Regs
    requires |block| == 64
  {
    Plus(r, Rounds(r, block, 64))
  }

  function Initial(): Regs {
    Regs(0x6a09e667, 0xbb67ae85, 0x3c6ef372, 0xa54ff53a, 0x510e527f, 0x9b05688c, 0x1f83d9ab, 0x5be0cd19)
  }

  /** The hash value after the first k blocks of a message. */
  function Blocks(m: seq<octet>, k: nat): Regs
    requires 64 * k <= |m|
  {
    if k == 0 then Initial() else Compressed(Blocks(m, k - 1), m[64 * (k - 1)..64 * k])
  }

  /** Blocks depend on the bytes they cover only. */
  lemma {:induction false} BlocksPrefix(m: seq<octet>, m': seq<octet>, k: nat)
    requires 64 * k <= |m| && 64 * k <= |m'| && m[..64 * k] == m'[..64 * k]
    ensures Blocks(m, k) == Blocks(m', k)
  {
    hide Compressed;
    if k > 0 {
      var j := 64 * (k - 1);
      assert m[..j] == m[..64 * k][..j] == m'[..j];
      assert m[j..64 * k] == m[..64 * k][j..64 * k] == m'[j..64 * k];
      BlocksPrefix(m, m', k - 1);
    }
  }

  // ----- Section 5.1.1 -----

  /** Number of zero octets between the marker octet and the length. */
  function Zeros(n: nat): (k: nat)
    ensures k < 64 && (n + 1 + k + 8) % 64 == 0
  {
    (119 - n % 64) % 64
  }

  /** No smaller number of zeros would do. */
  lemma FewestZeros(n: nat, k: nat)
    requires (n + 1 + k + 8) % 64 == 0
    ensures Zeros(n) <= k
  {
  }

  function ZeroOctets(k: nat): (z: seq<octet>)
    ensures |z| == k && forall i :: 0 <= i < k ==> z[i] == 0
  {
    seq(k, i => 0)
  }

  function Padding(n: nat): (p: seq<octet>)
    ensures (n + |p|) % 64 == 0
  {
    [0x80] + ZeroOctets(Zeros(n)) + NumberOctets(8 * n, 8)
  }

  function Padded(m: seq<octet>): (p: seq<octet>)
    ensures |p| % 64 == 0
  {
    m + Padding(|m|)
  }

  /** The hash of a message of fewer than 2^64 bits. */
  function Hash(m: seq<octet>): (h: seq<octet>)
    ensures |h| == 32
  {
    var r := Blocks(Padded(m), |Padded(m)| / 64);
    Octets(r.a) + Octets(r.b) + Octets(r.c) + Octets(r.d) + Octets(r.e) + Octets(r.f) + Octets(r.g) + Octets(r.h)
  }
}
