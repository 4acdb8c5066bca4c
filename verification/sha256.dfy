/** src/chainload/sha256.c: SHA-256 over a message that arrives in pieces, against
    FIPS 180-4. */
module Sha256 {
  import opened Bytes
  import opened Memory

  // ----- FIPS 180-4

  datatype State = State(a: bv32, b: bv32, c: bv32, d: bv32, e: bv32, f: bv32, g: bv32, h: bv32)

  // Section 5.3.3.
  const INITIAL: State := State(0x6a09e667, 0xbb67ae85, 0x3c6ef372, 0xa54ff53a,
                                0x510e527f, 0x9b05688c, 0x1f83d9ab, 0x5be0cd19)

  // Section 4.2.2.
  const K: seq<bv32> := (K_A + K_B) + (K_C + K_D)

  const K_A: seq<bv32> := [
    0x428a2f98, 0x71374491, 0xb5c0fbcf, 0xe9b5dba5, 0x3956c25b, 0x59f111f1, 0x923f82a4, 0xab1c5ed5,
    0xd807aa98, 0x12835b01, 0x243185be, 0x550c7dc3, 0x72be5d74, 0x80deb1fe, 0x9bdc06a7, 0xc19bf174]

  const K_B: seq<bv32> := [
    0xe49b69c1, 0xefbe4786, 0x0fc19dc6, 0x240ca1cc, 0x2de92c6f, 0x4a7484aa, 0x5cb0a9dc, 0x76f988da,
    0x983e5152, 0xa831c66d, 0xb00327c8, 0xbf597fc7, 0xc6e00bf3, 0xd5a79147, 0x06ca6351, 0x14292967]

  const K_C: seq<bv32> := [
    0x27b70a85, 0x2e1b2138, 0x4d2c6dfc, 0x53380d13, 0x650a7354, 0x766a0abb, 0x81c2c92e, 0x92722c85,
    0xa2bfe8a1, 0xa81a664b, 0xc24b8b70, 0xc76c51a3, 0xd192e819, 0xd6990624, 0xf40e3585, 0x106aa070]

  const K_D: seq<bv32> := [
    0x19a4c116, 0x1e376c08, 0x2748774c, 0x34b0bcb5, 0x391c0cb3, 0x4ed8aa4a, 0x5b9cca4f, 0x682e6ff3,
    0x748f82ee, 0x78a5636f, 0x84c87814, 0x8cc70208, 0x90befffa, 0xa4506ceb, 0xbef9a3f7, 0xc67178f2]

  /** Addition modulo 2^32. */
  function Add(x: bv32, y: bv32): bv32 { x + y }

  // Section 4.1.2.
  function Ch(x: bv32, y: bv32, z: bv32): bv32 { (x & y) ^ (!x & z) }
  function Maj(x: bv32, y: bv32, z: bv32): bv32 { (x & y) ^ (x & z) ^ (y & z) }
  function Sigma0(x: bv32): bv32 { x.RotateRight(2) ^ x.RotateRight(13) ^ x.RotateRight(22) }
  function Sigma1(x: bv32): bv32 { x.RotateRight(6) ^ x.RotateRight(11) ^ x.RotateRight(25) }
  function Gamma0(x: bv32): bv32 { x.RotateRight(7) ^ x.RotateRight(18) ^ (x >> 3) }
  function Gamma1(x: bv32): bv32 { x.RotateRight(17) ^ x.RotateRight(19) ^ (x >> 10) }

  function Word(m: bytes, i: nat): bv32
    requires 4 * i + 4 <= |m|
  {
    ((m[4 * i] as bv32) << 24) | ((m[4 * i + 1] as bv32) << 16) | ((m[4 * i + 2] as bv32) << 8) | (m[4 * i + 3] as bv32)
  }

  function Low(x: bv32): byte {
    ((x & 0xff) as bv8) as int
  }

  function WordBytes(x: bv32): (s: bytes)
    ensures |s| == 4
  {
    [Low(x >> 24), Low(x >> 16), Low(x >> 8), Low(x)]
  }

  /** Section 6.2.2, step 1: the first `n` words of the message schedule. */
  function Schedule(m: bytes, n: nat): (w: seq<bv32>)
    requires |m| == 64 && n <= 64
    ensures |w| == n
  {
    if n == 0 then [] else
    var w := Schedule(m, n - 1);
    w + [if n <= 16 then Word(m, n - 1) else Next(w[n - 3], w[n - 8], w[n - 16], w[n - 17])]
  }

  function Next(w2: bv32, w7: bv32, w15: bv32, w16: bv32): bv32 {
    Add(Add(Add(Gamma1(w2), w7), Gamma0(w15)), w16)
  }

  /** Step 3: the working variables after `n` rounds. */
  function Rounds(s: State, m: bytes, n: nat): State
    requires |m| == 64 && n <= 64
  {
    if n == 0 then s else
    var v := Rounds(s, m, n - 1);
    Round(v, K[n - 1], Schedule(m, 64)[n - 1])
  }

  function Round(v: State, k: bv32, w: bv32): State {
    var t1 := Add(Add(Add(Add(v.h, Sigma1(v.e)), Ch(v.e, v.f, v.g)), k), w);
    var t2 := Add(Sigma0(v.a), Maj(v.a, v.b, v.c));
    State(Add(t1, t2), v.a, v.b, v.c, Add(v.d, t1), v.e, v.f, v.g)
  }

  /** Step 4. */
  function Compress(s: State, m: bytes): State
    requires |m| == 64
  {
    Sum(s, Rounds(s, m, 64))
  }

  function Sum(s: State, v: State): State {
    State(Add(s.a, v.a), Add(s.b, v.b), Add(s.c, v.c), Add(s.d, v.d),
          Add(s.e, v.e), Add(s.f, v.f), Add(s.g, v.g), Add(s.h, v.h))
  }

  function HashBlocks(s: State, m: bytes): State
    requires |m| % 64 == 0
    decreases |m|
  {
    if m == [] then s else HashBlocks(Compress(s, m[..64]), m[64..])
  }

  /** Section 5.1.1: the number of zero bytes between the bit 1 and the length. */
  function ZeroCount(n: nat): nat {
    (55 - n) % 64
  }

  function Octet(v: u64, i: nat): byte
    requires i < 8
  {
    [v / 0x100_0000_0000_0000, v / 0x1_0000_0000_0000 % 0x100, v / 0x100_0000_0000 % 0x100, v / 0x1_0000_0000 % 0x100,
     v / 0x100_0000 % 0x100, v / 0x1_0000 % 0x100, v / 0x100 % 0x100, v % 0x100][i]
  }

  /** The same bytes one by one. */
  lemma OctetIs(v: u64, i: nat)
    requires i < 8
    ensures BE64(v)[i] == Octet(v, i)
  {
    var h, l := v / TWO32, v % TWO32;
    if i < 4 { HighOctets(v, h, l); } else { LowOctets(v, h, l); }
  }

  lemma HighOctets(v: u64, h: u32, l: u32)
    requires v == h * TWO32 + l
    ensures v / 0x100_0000_0000_0000 == h / 0x100_0000 && v / 0x1_0000_0000_0000 == h / 0x1_0000
    ensures v / 0x100_0000_0000 == h / 0x100 && v / 0x1_0000_0000 == h
  {
    var q, r, s := h / 0x100_0000, h / 0x1_0000, h / 0x100;
    assert v == q * 0x100_0000_0000_0000 + (h % 0x100_0000 * TWO32 + l);
    assert v == r * 0x1_0000_0000_0000 + (h % 0x1_0000 * TWO32 + l);
    assert v == s * 0x100_0000_0000 + (h % 0x100 * TWO32 + l);
  }

  lemma LowOctets(v: u64, h: u32, l: u32)
    requires v == h * TWO32 + l
    ensures v / 0x100_0000 % 0x100 == l / 0x100_0000 && v / 0x1_0000 % 0x100 == l / 0x1_0000 % 0x100
    ensures v / 0x100 % 0x100 == l / 0x100 % 0x100 && v % 0x100 == l % 0x100
  {
    var q, r, s := l / 0x100_0000, l / 0x1_0000, l / 0x100;
    assert v / 0x100_0000 == h * 0x100 + q;
    assert v / 0x1_0000 == h * 0x1_0000 + r;
    assert v / 0x100 == h * 0x100_0000 + s;
    LowOctet(v / 0x100_0000, h, q);
    LowOctet(v / 0x1_0000, h * 0x100, r);
    LowOctet(v / 0x100, h * 0x1_0000, s);
    LowOctet(v, h * 0x100_0000, l);
  }

  lemma LowOctet(x: nat, k: nat, y: nat)
    requires x == 0x100 * k + y
    ensures x % 0x100 == y % 0x100
  {
    assert x == 0x100 * (k + y / 0x100) + y % 0x100;
  }

  /** The padded message, for a message whose length in bits fits 64 bits. */
  function Pad(m: bytes): bytes
    requires |m| < 0x2000_0000_0000_0000
  {
    m + [0x80] + Zeros(ZeroCount(|m|)) + BE64(|m| * 8)
  }

  /** The padding is the shortest that leaves 64 bits for the length. */
  lemma PadIsMinimal(m: bytes, k: nat)
    requires |m| < 0x2000_0000_0000_0000
    ensures |Pad(m)| % 64 == 0
    ensures (|m| + 1 + k) % 64 == 56 ==> k >= ZeroCount(|m|)
  {
    hide BE64, Zeros;
    var q, j := (55 - |m|) / 64, (|m| + 1 + k) / 64;
    assert |m| + 9 + ZeroCount(|m|) == 64 * (1 - q);
    if (|m| + 1 + k) % 64 == 56 {
      assert k - ZeroCount(|m|) == 64 * (j + q);
    }
  }

  function Digest(m: bytes): (d: bytes)
    requires |m| < 0x2000_0000_0000_0000
    ensures |d| == 32
  {
    PadIsMinimal(m, 0);
    StateBytes(HashBlocks(INITIAL, Pad(m)))
  }

  function StateBytes(s: State): (d: bytes)
    ensures |d| == 32
  {
    WordBytes(s.a) + WordBytes(s.b) + WordBytes(s.c) + WordBytes(s.d)
    + WordBytes(s.e) + WordBytes(s.f) + WordBytes(s.g) + WordBytes(s.h)
  }

  lemma {:induction false} HashAppend(s: State, m: bytes, t: bytes)
    requires |m| % 64 == 0 && |t| % 64 == 0
    ensures HashBlocks(s, m + t) == HashBlocks(HashBlocks(s, m), t)
    decreases |m|
  {
    hide Compress;
    if m == [] {
      assert m + t == t;
    } else {
      assert (m + t)[..64] == m[..64] && (m + t)[64..] == m[64..] + t;
      HashAppend(Compress(s, m[..64]), m[64..], t);
    }
  }

  lemma HashOne(s: State, t: bytes)
    requires |t| == 64
    ensures HashBlocks(s, t) == Compress(s, t)
  {
    hide Compress;
    assert t[..64] == t && t[64..] == [];
    assert HashBlocks(Compress(s, t), []) == Compress(s, t);
  }

  // ----- the macros of the C code

  function S0(x: bv32): bv32 { ((x >> 2) | (x << 30)) ^ ((x >> 13) | (x << 19)) ^ ((x >> 22) | (x << 10)) }
  function S1(x: bv32): bv32 { ((x >> 6) | (x << 26)) ^ ((x >> 11) | (x << 21)) ^ ((x >> 25) | (x << 7)) }
  function G0(x: bv32): bv32 { ((x >> 7) | (x << 25)) ^ ((x >> 18) | (x << 14)) ^ (x >> 3) }
  function G1(x: bv32): bv32 { ((x >> 17) | (x << 15)) ^ ((x >> 19) | (x << 13)) ^ (x >> 10) }

  /** They are the functions of the standard. */
  lemma RotationsAgree(x: bv32)
    ensures S0(x) == Sigma0(x) && S1(x) == Sigma1(x) && G0(x) == Gamma0(x) && G1(x) == Gamma1(x)
  {}

  // ----- the context

  function StateOf(h: seq<bv32>): State
    requires |h| == 8
  {
    State(h[0], h[1], h[2], h[3], h[4], h[5], h[6], h[7])
  }

  /** transform: the message schedule. */
  method Expand(data: bytes) returns (w: array<bv32>)
    requires |data| == 64
    ensures fresh(w) && w[..] == Schedule(data, 64)
  {
    hide G0, G1, Word, Next;
    w := new bv32[64];
    for i := 0 to 16
      invariant w[..i] == Schedule(data, i)
    {
      w[i] := Word(data, i);
    }
    for i := 16 to 64
      invariant w[..i] == Schedule(data, i)
    {
      ghost var v := w[..i];
      assert v[i - 2] == w[i - 2] && v[i - 7] == w[i - 7] && v[i - 15] == w[i - 15] && v[i - 16] == w[i - 16];
      w[i] := NextWord(w[i - 2], w[i - 7], w[i - 15], w[i - 16]);
    }
    assert w[..64] == w[..];
  }

  method NextWord(w2: bv32, w7: bv32, w15: bv32, w16: bv32) returns (x: bv32)
    ensures x == Next(w2, w7, w15, w16)
  {
    RotationsAgree(w2);
    RotationsAgree(w15);
    hide G0, G1, Gamma0, Gamma1, Add;
    x := Add(Add(Add(G1(w2), w7), G0(w15)), w16);
  }

  /** transform: the rounds. */
  method RunRounds(s: State, data: bytes, w: array<bv32>) returns (v: State)
    requires |data| == 64 && w[..] == Schedule(data, 64)
    ensures v == Rounds(s, data, 64)
  {
    hide Round, Schedule;
    v := s;
    for i := 0 to 64
      invariant v == Rounds(s, data, i)
    {
      assert w[..][i] == w[i];
      v := RunRound(v, K[i], w[i]);
    }
  }

  method RunRound(v: State, k: bv32, w: bv32) returns (r: State)
    ensures r == Round(v, k, w)
  {
    var State(a, b, c, d, e, f, g, h) := v;
    RotationsAgree(e);
    RotationsAgree(a);
    hide S0, S1, Sigma0, Sigma1, Ch, Maj, Add;
    var t1 := Add(Add(Add(Add(h, S1(e)), Ch(e, f, g)), k), w);
    var t2 := Add(S0(a), Maj(a, b, c));
    h, g, f, e, d, c, b, a := g, f, e, Add(d, t1), c, b, a, Add(t1, t2);
    r := State(a, b, c, d, e, f, g, h);
  }

  method Transform(h: array<bv32>, data: bytes)
    requires h.Length == 8 && |data| == 64
    modifies h
    ensures StateOf(h[..]) == Compress(old(StateOf(h[..])), data)
  {
    hide Rounds, Schedule, Add;
    var w := Expand(data);
    var v := RunRounds(StateOf(h[..]), data, w);
    h[0], h[1], h[2], h[3] := Add(h[0], v.a), Add(h[1], v.b), Add(h[2], v.c), Add(h[3], v.d);
    h[4], h[5], h[6], h[7] := Add(h[4], v.e), Add(h[5], v.f), Add(h[6], v.g), Add(h[7], v.h);
  }

  /** The message `m` has been fed in: whole blocks into the state, the rest
      still in the block buffer. */
  ghost predicate Fed(s: State, buf: bytes, m: bytes) {
    && |buf| <= 64 && |buf| <= |m| && (|m| - |buf|) % 64 == 0
    && buf == m[|m| - |buf|..] && s == HashBlocks(INITIAL, m[..|m| - |buf|])
  }

  lemma FeedMore(s: State, buf: bytes, m: bytes, t: bytes)
    requires Fed(s, buf, m) && |buf| + |t| <= 64
    ensures Fed(s, buf + t, m + t)
  {
    hide HashBlocks;
    var k := |m| - |buf|;
    assert (m + t)[..k] == m[..k] && (m + t)[k..] == m[k..] + t;
  }

  lemma FeedBlock(s: State, buf: bytes, m: bytes)
    requires Fed(s, buf, m) && |buf| == 64
    ensures Fed(Compress(s, buf), [], m)
  {
    hide HashBlocks, Compress;
    var k := |m| - 64;
    HashAppend(INITIAL, m[..k], buf);
    HashOne(s, buf);
    assert m == m[..k] + buf && m[..|m|] == m && m[|m|..] == [];
  }

  /** What is fed in the end is the padded message. */
  lemma Padded(s: State, buf: bytes, m: bytes, z: nat)
    requires Fed(s, buf, m + [0x80] + Zeros(z)) && |buf| == 56 && z < 64 && |m| < 0x2000_0000_0000_0000
    ensures m + [0x80] + Zeros(z) + BE64(|m| * 8) == Pad(m)
  {
    hide HashBlocks, BE64;
    assert (|m| + 1 + z) % 64 == 56;
    assert z == ZeroCount(|m|);
  }

  class Context {
    const h: array<bv32>
    const block: array<byte>
    var total: u64
    var used: nat
    /** Everything passed to Update so far. */
    ghost var msg: bytes

    ghost predicate Valid()
      reads this, h, block
    {
      && h.Length == 8 && block.Length == 64 && used < 64 && total == |msg| % TWO64
      && Fed(StateOf(h[..]), block[..used], msg)
    }

    /** chain_sha256_init. */
    constructor ()
      ensures Valid() && msg == [] && fresh(h) && fresh(block)
    {
      h := new bv32[8];
      block := new byte[64];
      total, used, msg := 0, 0, [];
      new;
      h[0], h[1], h[2], h[3] := INITIAL.a, INITIAL.b, INITIAL.c, INITIAL.d;
      h[4], h[5], h[6], h[7] := INITIAL.e, INITIAL.f, INITIAL.g, INITIAL.h;
      assert block[..0] == [];
    }

    /** One turn of the loop of chain_sha256_update. */
    method Absorb(t: bytes, ghost m: bytes)
      requires h.Length == 8 && block.Length == 64 && used < 64 && 0 < |t| <= 64 - used
      requires Fed(StateOf(h[..]), block[..used], m)
      modifies this`used, h, block
      ensures used < 64 && Fed(StateOf(h[..]), block[..used], m + t)
    {
      hide Fed, Compress, StateOf;
      FeedMore(StateOf(h[..]), block[..used], m, t);
      ghost var buf := block[..used] + t;
      Store(block, used, t);
      used := used + |t|;
      assert block[..used] == buf;
      if used == 64 {
        FeedBlock(StateOf(h[..]), buf, m + t);
        assert block[..] == buf;
        Transform(h, block[..]);
        used := 0;
        assert block[..used] == [];
      }
    }

    /** chain_sha256_update. */
    method Update(data: bytes)
      requires Valid() && |data| < TWO64
      modifies this, h, block
      ensures Valid() && msg == old(msg) + data
    {
      hide Fed, Compress, StateOf, HashBlocks;
      total := (total + |data|) % TWO64;
      var pos := 0;
      assert msg + data[..0] == msg;
      while pos < |data|
        invariant pos <= |data| && used < 64 && h.Length == 8 && block.Length == 64 && msg == old(msg)
        invariant Fed(StateOf(h[..]), block[..used], msg + data[..pos]) && total == (|msg| + |data|) % TWO64
      {
        var amount := if 64 - used > |data| - pos then |data| - pos else 64 - used;
        Absorb(data[pos..pos + amount], msg + data[..pos]);
        assert msg + data[..pos] + data[pos..pos + amount] == msg + data[..pos + amount];
        pos := pos + amount;
      }
      assert data[..pos] == data;
      msg := msg + data;
    }

    /** Zero bytes up to position `end` of the block. */
    method FillZero(end: nat, ghost m: bytes)
      requires h.Length == 8 && block.Length == 64 && used <= end <= 64
      requires Fed(StateOf(h[..]), block[..used], m)
      modifies this`used, block
      ensures used == end && Fed(StateOf(h[..]), block[..used], m + Zeros(end - old(used)))
    {
      hide Fed, Compress, StateOf, HashBlocks;
      ghost var u := used;
      assert m + Zeros(0) == m;
      while used < end
        invariant u <= used <= end
        invariant h[..] == old(h[..]) && Fed(StateOf(h[..]), block[..used], m + Zeros(used - u))
      {
        FeedMore(StateOf(h[..]), block[..used], m + Zeros(used - u), [0]);
        ghost var buf := block[..used] + [0];
        block[used] := 0;
        used := used + 1;
        assert block[..used] == buf;
        assert m + Zeros(used - 1 - u) + [0] == m + Zeros(used - u);
      }
    }

    /** chain_sha256_final: the bit 1 and the zero bytes. */
    method AddPadding(ghost m: bytes) returns (ghost z: nat)
      requires h.Length == 8 && block.Length == 64 && used < 64
      requires Fed(StateOf(h[..]), block[..used], m)
      modifies this`used, h, block
      ensures used == 56 && z < 64 && Fed(StateOf(h[..]), block[..56], m + [0x80] + Zeros(z))
    {
      hide Fed, Compress, StateOf, HashBlocks;
      FeedMore(StateOf(h[..]), block[..used], m, [0x80]);
      ghost var buf, m1 := block[..used] + [0x80], m + [0x80];
      block[used] := 0x80;
      used := used + 1;
      assert block[..used] == buf;
      z := 0;
      assert m1 == m1 + Zeros(0);
      if used > 56 {
        z := 64 - used;
        FillZero(64, m1);
        FeedBlock(StateOf(h[..]), block[..], m1 + Zeros(z)) by { assert block[..64] == block[..]; }
        Transform(h, block[..]);
        used := 0;
        assert block[..0] == [];
      }
      ghost var y := 56 - used;
      FillZero(56, m1 + Zeros(z));
      assert m1 + Zeros(z) + Zeros(y) == m1 + Zeros(z + y);
      z := z + y;
    }

    /** chain_sha256_final. */
    method Final() returns (digest: bytes)
      requires Valid() && |msg| < 0x2000_0000_0000_0000
      modifies this, h, block
      ensures digest == Digest(old(msg))
    {
      TotalIs();
      hide Fed, Compress, StateOf, HashBlocks, BE64, Pad;
      var bits := total * 8 % TWO64;
      ghost var z := AddPadding(msg);
      Padded(StateOf(h[..]), block[..56], msg, z);
      FinishBlock(bits, msg + [0x80] + Zeros(z));
      digest := StateBytes(StateOf(h[..]));
    }

    lemma TotalIs()
      requires Valid() && |msg| < 0x2000_0000_0000_0000
      ensures total == |msg| && total * 8 % TWO64 == |msg| * 8
    {}

    /** The length and the last transform. */
    method FinishBlock(bits: u64, ghost m: bytes)
      requires h.Length == 8 && block.Length == 64 && used == 56
      requires Fed(StateOf(h[..]), block[..56], m)
      modifies h, block
      ensures |m + BE64(bits)| % 64 == 0 && StateOf(h[..]) == HashBlocks(INITIAL, m + BE64(bits))
    {
      hide Fed, Compress, StateOf, HashBlocks, Octet, BE64;
      ghost var t, buf := BE64(bits), block[..56] + BE64(bits);
      FeedMore(StateOf(h[..]), block[..56], m, t);
      FeedBlock(StateOf(h[..]), buf, m + t);
      FedWhole(Compress(StateOf(h[..]), buf), m + t);
      for i := 0 to 8
        invariant h[..] == old(h[..]) && block[..56 + i] == buf[..56 + i]
      {
        OctetIs(bits, i);
        block[56 + i] := Octet(bits, i);
      }
      assert block[..] == buf;
      Transform(h, block[..]);
    }
  }

  lemma FedWhole(s: State, m: bytes)
    requires Fed(s, [], m)
    ensures |m| % 64 == 0 && s == HashBlocks(INITIAL, m)
  {
    hide HashBlocks;
    assert m[..|m|] == m;
  }

  /** chain_sha256. */
  method OneShot(data: bytes) returns (digest: bytes)
    requires |data| < 0x2000_0000_0000_0000
    ensures digest == Digest(data)
  {
    var ctx := new Context();
    ctx.Update(data);
    assert [] + data == data;
    digest := ctx.Final();
  }

  function Flatten(pieces: seq<bytes>): bytes {
    if pieces == [] then [] else pieces[0] + Flatten(pieces[1..])
  }

  /** However a message is cut into pieces, the digest is that of the whole. */
  method InPieces(pieces: seq<bytes>) returns (digest: bytes)
    requires |Flatten(pieces)| < 0x2000_0000_0000_0000
    ensures digest == Digest(Flatten(pieces))
  {
    var ctx := new Context();
    assert pieces[0..] == pieces;
    for i := 0 to |pieces|
      invariant ctx.Valid() && fresh(ctx) && fresh(ctx.h) && fresh(ctx.block)
      invariant ctx.msg + Flatten(pieces[i..]) == Flatten(pieces)
    {
      assert pieces[i..][0] == pieces[i] && pieces[i..][1..] == pieces[i + 1..];
      Assoc(ctx.msg, pieces[i], Flatten(pieces[i + 1..]));
      ctx.Update(pieces[i]);
    }
    assert ctx.msg == Flatten(pieces);
    digest := ctx.Final();
  }

  // ----- the constants

  /** The first 64 primes. */
  const PRIMES: seq<nat> := (PRIMES_A + PRIMES_B) + (PRIMES_C + PRIMES_D)

  const PRIMES_A: seq<nat> := [
    2, 3, 5, 7, 11, 13, 17, 19, 23, 29, 31, 37, 41, 43, 47, 53]

  const PRIMES_B: seq<nat> := [
    59, 61, 67, 71, 73, 79, 83, 89, 97, 101, 103, 107, 109, 113, 127, 131]

  const PRIMES_C: seq<nat> := [
    137, 139, 149, 151, 157, 163, 167, 173, 179, 181, 191, 193, 197, 199, 211, 223]

  const PRIMES_D: seq<nat> := [
    227, 229, 233, 239, 241, 251, 257, 263, 269, 271, 277, 281, 283, 293, 307, 311]

  /** `c` holds the cube root of `p` with 32 binary places, rounded down. */
  predicate CubeRoot(p: nat, c: nat) {
    c * c * c <= p * 0x1_0000_0000_0000_0000_0000_0000 < (c + 1) * (c + 1) * (c + 1)
  }

  predicate SquareRoot(p: nat, c: nat) {
    c * c <= p * 0x1_0000_0000_0000_0000 < (c + 1) * (c + 1)
  }

  /** The 32 binary places behind the whole number. */
  predicate CubePlaces(p: nat, whole: nat, k: nat) {
    CubeRoot(p, whole * 0x1_0000_0000 + k)
  }

  predicate SquarePlaces(p: nat, whole: nat, k: nat) {
    SquareRoot(p, whole * 0x1_0000_0000 + k)
  }

  function Whole(p: nat): nat {
    if p < 8 then 1 else if p < 27 then 2 else if p < 64 then 3 else if p < 125 then 4 else if p < 216 then 5 else 6
  }

  /** The same for the words from `i` up to `n`. */
  predicate RootsIn(primes: seq<nat>, words: seq<bv32>, i: nat, n: nat)
    requires i <= n <= |primes| == |words|
    decreases n - i
  {
    || i == n
    || (CubePlaces(primes[i], Whole(primes[i]), words[i] as nat) && RootsIn(primes, words, i + 1, n))
  }

  /** Word for word, the places of the cube roots of the primes. */
  predicate AreRoots(primes: seq<nat>, words: seq<bv32>) {
    && |primes| == |words|
    && forall i :: 0 <= i < |primes| ==> CubePlaces(primes[i], Whole(primes[i]), words[i] as nat)
  }

  lemma {:induction false} RootsAre(primes: seq<nat>, words: seq<bv32>, i: nat, n: nat)
    requires i <= n <= |primes| == |words| && RootsIn(primes, words, i, n)
    ensures forall j :: i <= j < n ==> CubePlaces(primes[j], Whole(primes[j]), words[j] as nat)
    decreases n - i
  {
    hide CubePlaces, Whole;
    if i < n { RootsAre(primes, words, i + 1, n); }
  }

  lemma Halves(primes: seq<nat>, words: seq<bv32>)
    requires |primes| == |words| == 16 && RootsIn(primes, words, 0, 8) && RootsIn(primes, words, 8, 16)
    ensures AreRoots(primes, words)
  {
    hide CubePlaces, Whole, RootsIn;
    RootsAre(primes, words, 0, 8);
    RootsAre(primes, words, 8, 16);
  }

  lemma RootsJoin(p: seq<nat>, k: seq<bv32>, q: seq<nat>, l: seq<bv32>)
    requires AreRoots(p, k) && AreRoots(q, l)
    ensures AreRoots(p + q, k + l)
  {
    hide CubePlaces, Whole;
  }

  lemma RootsA()
    ensures |PRIMES_A| == |K_A| == 16 && RootsIn(PRIMES_A, K_A, 0, 8) && RootsIn(PRIMES_A, K_A, 8, 16)
  {}

  lemma RootsB()
    ensures |PRIMES_B| == |K_B| == 16 && RootsIn(PRIMES_B, K_B, 0, 8) && RootsIn(PRIMES_B, K_B, 8, 16)
  {}

  lemma RootsC()
    ensures |PRIMES_C| == |K_C| == 16 && RootsIn(PRIMES_C, K_C, 0, 8) && RootsIn(PRIMES_C, K_C, 8, 16)
  {}

  lemma RootsD()
    ensures |PRIMES_D| == |K_D| == 16 && RootsIn(PRIMES_D, K_D, 0, 8) && RootsIn(PRIMES_D, K_D, 8, 16)
  {}

  lemma StartWords()
    ensures var s := INITIAL;
            && SquarePlaces(2, 1, s.a as nat) && SquarePlaces(3, 1, s.b as nat) && SquarePlaces(5, 2, s.c as nat)
            && SquarePlaces(7, 2, s.d as nat) && SquarePlaces(11, 3, s.e as nat) && SquarePlaces(13, 3, s.f as nat)
            && SquarePlaces(17, 4, s.g as nat) && SquarePlaces(19, 4, s.h as nat)
  {}

  /** The words of sections 4.2.2 and 5.3.3: the first 32 bits behind the point
      of the cube roots of the first 64 primes and of the square roots of the
      first eight. */
  lemma Constants()
    ensures |K| == 64 && AreRoots(PRIMES, K)
    ensures var s := INITIAL;
            && SquarePlaces(2, 1, s.a as nat) && SquarePlaces(3, 1, s.b as nat) && SquarePlaces(5, 2, s.c as nat)
            && SquarePlaces(7, 2, s.d as nat) && SquarePlaces(11, 3, s.e as nat) && SquarePlaces(13, 3, s.f as nat)
            && SquarePlaces(17, 4, s.g as nat) && SquarePlaces(19, 4, s.h as nat)
  {
    hide SquarePlaces, AreRoots, RootsIn, INITIAL;
    RootsA();
    RootsB();
    RootsC();
    RootsD();
    Halves(PRIMES_A, K_A);
    Halves(PRIMES_B, K_B);
    Halves(PRIMES_C, K_C);
    Halves(PRIMES_D, K_D);
    RootsJoin(PRIMES_A, K_A, PRIMES_B, K_B);
    RootsJoin(PRIMES_C, K_C, PRIMES_D, K_D);
    RootsJoin(PRIMES_A + PRIMES_B, K_A + K_B, PRIMES_C + PRIMES_D, K_C + K_D);
    StartWords();
  }
}
