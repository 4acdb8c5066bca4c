/** tools/main.h and tools/rock.c: the stream that is uploaded to the MaskROM,
    in transfers of 4096 bytes, encrypted with RC4 or not, closed by its CRC. */
module Upload {
  import opened Bytes

  type u16 = x: int | 0 <= x < 0x1_0000

  const CHUNK: nat := 0x1000

  const KEY: bytes := [124, 78, 3, 4, 85, 5, 9, 7, 45, 44, 123, 56, 23, 13, 23, 17]

  // ----- exclusive or

  /** Exclusive or of the low `n` bits. */
  function XorBits(a: nat, b: nat, n: nat): (r: nat)
    ensures r < Pow2(n)
  {
    if n == 0 then 0 else 2 * XorBits(a / 2, b / 2, n - 1) + (a + b) % 2
  }

  function Xor(a: byte, b: byte): byte {
    assert Pow2(8) == 0x100;
    XorBits(a, b, 8)
  }

  lemma {:induction false} BitsTwice(a: nat, b: nat, n: nat)
    requires a < Pow2(n)
    ensures XorBits(XorBits(a, b, n), b, n) == a && XorBits(a, a, n) == 0 && XorBits(0, a, n) == a
  {
    if n > 0 {
      BitsTwice(a / 2, b / 2, n - 1);
      LowBit(XorBits(a / 2, b / 2, n - 1), a, b);
    }
  }

  lemma LowBit(h: nat, a: nat, b: nat)
    ensures var x := 2 * h + (a + b) % 2;
            x / 2 == h && (x + b) % 2 == a % 2 && a == 2 * (a / 2) + a % 2 && (a + a) % 2 == 0
  {}

  lemma XorTwice(a: byte, b: byte)
    ensures Xor(Xor(a, b), b) == a && Xor(a, a) == 0 && Xor(0, a) == a
  {
    assert Pow2(8) == 0x100;
    BitsTwice(a, b, 8);
  }

  function Bit(a: nat, k: nat): nat {
    if k == 0 then a % 2 else Bit(a / 2, k - 1)
  }

  /** A bit is set exactly when it is set in one of the two. */
  lemma XorBit(a: byte, b: byte, k: nat)
    requires k < 8
    ensures Bit(Xor(a, b), k) == 1 <==> Bit(a, k) != Bit(b, k)
  {
    BitsBit(a, b, 8, k);
  }

  lemma {:induction false} BitsBit(a: nat, b: nat, n: nat, k: nat)
    requires k < n
    ensures Bit(XorBits(a, b, n), k) == 1 <==> Bit(a, k) != Bit(b, k)
    decreases k
  {
    LowBit(XorBits(a / 2, b / 2, n - 1), a, b);
    if k > 0 { BitsBit(a / 2, b / 2, n - 1, k - 1); }
  }

  // ----- RC4

  datatype Rc4 = Rc4(x: byte, j: byte, key: bytes)

  predicate Table(key: bytes) {
    |key| == 256
  }

  function Swap(key: bytes, a: nat, b: nat): (r: bytes)
    requires a < |key| && b < |key|
    ensures |r| == |key| && multiset(r) == multiset(key)
  {
    key[a := key[b]][b := key[a]]
  }

  /** The state after one byte. */
  function Next(r: Rc4): (q: Rc4)
    requires Table(r.key)
    ensures Table(q.key) && multiset(q.key) == multiset(r.key)
  {
    var x := (r.x + 1) % 256;
    var j := (r.j + r.key[x]) % 256;
    Rc4(x, j, Swap(r.key, x, j))
  }

  /** The byte of key stream that the state yields. */
  function Output(r: Rc4): byte
    requires Table(r.key)
  {
    r.key[(r.key[r.x] as int + r.key[r.j]) % 256]
  }

  function After(r: Rc4, n: nat): (q: Rc4)
    requires Table(r.key)
    ensures Table(q.key) && multiset(q.key) == multiset(r.key)
  {
    if n == 0 then r else Next(After(r, n - 1))
  }

  /** Byte by byte, the data with the key stream folded in. */
  function Encode(r: Rc4, data: bytes): (s: bytes)
    requires Table(r.key)
    ensures |s| == |data|
  {
    if data == [] then []
    else Encode(r, data[..|data| - 1]) + [Xor(data[|data| - 1], Output(After(r, |data|)))]
  }

  lemma {:induction false} EncodeAt(r: Rc4, data: bytes, i: nat)
    requires Table(r.key) && i < |data|
    ensures Encode(r, data)[i] == Xor(data[i], Output(After(r, i + 1)))
    decreases |data|
  {
    hide After, Output, Xor;
    if i < |data| - 1 { EncodeAt(r, data[..|data| - 1], i); }
  }

  lemma {:induction false} AfterSum(r: Rc4, m: nat, n: nat)
    requires Table(r.key)
    ensures After(After(r, m), n) == After(r, m + n)
  {
    hide Next;
    if n > 0 { AfterSum(r, m, n - 1); }
  }

  /** In pieces or at once: the second piece goes on where the first stopped. */
  lemma {:induction false} EncodeSplit(r: Rc4, a: bytes, b: bytes)
    requires Table(r.key)
    ensures Encode(r, a + b) == Encode(r, a) + Encode(After(r, |a|), b)
    decreases |b|
  {
    hide After, Output, Xor;
    if b == [] {
      assert a + b == a;
    } else {
      var n := |b| - 1;
      AfterSum(r, |a|, |b|);
      EncodeSplit(r, a, b[..n]);
      assert (a + b)[..|a + b| - 1] == a + b[..n];
    }
  }

  /** Encoding twice from the same state restores the data. */
  lemma EncodeTwice(r: Rc4, data: bytes)
    requires Table(r.key)
    ensures Encode(r, Encode(r, data)) == data
  {
    hide After, Output, Xor, Encode;
    var e := Encode(r, data);
    forall i | 0 <= i < |data| ensures Encode(r, e)[i] == data[i] {
      EncodeAt(r, data, i);
      EncodeAt(r, e, i);
      XorTwice(data[i], Output(After(r, i + 1)));
    }
  }

  // ----- the key schedule

  function Identity(n: nat): (s: bytes)
    requires n <= 256
    ensures |s| == n
  {
    seq(n, i requires 0 <= i < n => i)
  }

  datatype Schedule = Schedule(j: byte, key: bytes)

  function Scheduled(key: bytes, n: nat): (s: Schedule)
    requires |key| == 16 && n <= 256
    ensures Table(s.key) && multiset(s.key) == multiset(Identity(256))
  {
    if n == 0 then Schedule(0, Identity(256))
    else
      var s := Scheduled(key, n - 1);
      var j := (s.j + s.key[n - 1] + key[(n - 1) % 16]) % 256;
      Schedule(j, Swap(s.key, n - 1, j))
  }

  function Setup(key: bytes): (r: Rc4)
    requires |key| == 16
    ensures Table(r.key)
  {
    Rc4(0, 0, Scheduled(key, 256).key)
  }

  /** Whatever has been encoded, the table is a permutation of the byte values. */
  lemma TablePermutes(key: bytes, n: nat)
    requires |key| == 16
    ensures multiset(After(Setup(key), n).key) == multiset(Identity(256))
  {}

  class Encoder {
    var j: byte
    var x: byte
    const key: array<byte>

    function Value(): Rc4
      reads this, key
    {
      Rc4(x, j, key[..])
    }

    /** setup_rc4_encoder. */
    constructor (k: bytes)
      requires |k| == 16
      ensures key.Length == 256 && Value() == Setup(k) && fresh(key)
    {
      key := new byte[256];
      j, x := 0, 0;
      new;
      Fill();
      Shuffle(k);
    }

    method Fill()
      requires key.Length == 256
      modifies key
      ensures key[..] == Identity(256)
    {
      for i := 0 to 256
        invariant forall n :: 0 <= n < i ==> key[n] == n
      {
        key[i] := i;
      }
    }

    method SwapAt(a: byte, b: byte)
      requires key.Length == 256
      modifies key
      ensures key[..] == Swap(old(key[..]), a, b)
    {
      var temp := key[a];
      key[a] := key[b];
      key[b] := temp;
    }

    method Shuffle(k: bytes)
      requires |k| == 16 && key.Length == 256 && key[..] == Identity(256)
      modifies key
      ensures key[..] == Scheduled(k, 256).key
    {
      hide Identity, Swap;
      var m: byte := 0;
      for i := 0 to 256
        invariant Schedule(m, key[..]) == Scheduled(k, i)
      {
        m := (m + key[i] + k[i % 16]) % 256;
        SwapAt(i, m);
      }
    }

    /** rc4_encode_chunk, in place on the first `len` bytes of the buffer. */
    method EncodeChunk(buf: array<byte>, len: nat)
      requires key.Length == 256 && len <= buf.Length && buf != key
      modifies this, key, buf
      ensures Value() == After(old(Value()), len)
      ensures buf[..len] == Encode(old(Value()), old(buf[..len])) && buf[len..] == old(buf[len..])
    {
      hide Xor, Encode, Next, Output;
      ghost var r, data := Value(), buf[..len];
      for i := 0 to len
        invariant Value() == After(r, i) && buf[len..] == old(buf[len..])
        invariant forall k :: 0 <= k < i ==> buf[k] == Xor(data[k], Output(After(r, k + 1)))
        invariant forall k :: i <= k < len ==> buf[k] == data[k]
      {
        var o := Step();
        buf[i] := Xor(buf[i], o);
      }
      hide After;
      forall k | 0 <= k < len ensures buf[..len][k] == Encode(r, data)[k] {
        EncodeAt(r, data, k);
      }
    }

    method Step() returns (o: byte)
      requires key.Length == 256
      modifies this, key
      ensures Value() == Next(old(Value())) && o == Output(Value())
    {
      hide Swap;
      x := (x + 1) % 256;
      j := (j + key[x]) % 256;
      SwapAt(x, j);
      o := key[(key[x] as int + key[j]) % 256];
    }
  }

  // ----- the checksum

  const TABLE: seq<u16> := [0x0000] + REST

  const REST: seq<u16> := [
    0x1021, 0x2042, 0x3063, 0x4084, 0x50a5, 0x60c6, 0x70e7,
    0x8108, 0x9129, 0xa14a, 0xb16b, 0xc18c, 0xd1ad, 0xe1ce, 0xf1ef,
    0x1231, 0x0210, 0x3273, 0x2252, 0x52b5, 0x4294, 0x72f7, 0x62d6,
    0x9339, 0x8318, 0xb37b, 0xa35a, 0xd3bd, 0xc39c, 0xf3ff, 0xe3de,
    0x2462, 0x3443, 0x0420, 0x1401, 0x64e6, 0x74c7, 0x44a4, 0x5485,
    0xa56a, 0xb54b, 0x8528, 0x9509, 0xe5ee, 0xf5cf, 0xc5ac, 0xd58d,
    0x3653, 0x2672, 0x1611, 0x0630, 0x76d7, 0x66f6, 0x5695, 0x46b4,
    0xb75b, 0xa77a, 0x9719, 0x8738, 0xf7df, 0xe7fe, 0xd79d, 0xc7bc,
    0x48c4, 0x58e5, 0x6886, 0x78a7, 0x0840, 0x1861, 0x2802, 0x3823,
    0xc9cc, 0xd9ed, 0xe98e, 0xf9af, 0x8948, 0x9969, 0xa90a, 0xb92b,
    0x5af5, 0x4ad4, 0x7ab7, 0x6a96, 0x1a71, 0x0a50, 0x3a33, 0x2a12,
    0xdbfd, 0xcbdc, 0xfbbf, 0xeb9e, 0x9b79, 0x8b58, 0xbb3b, 0xab1a,
    0x6ca6, 0x7c87, 0x4ce4, 0x5cc5, 0x2c22, 0x3c03, 0x0c60, 0x1c41,
    0xedae, 0xfd8f, 0xcdec, 0xddcd, 0xad2a, 0xbd0b, 0x8d68, 0x9d49,
    0x7e97, 0x6eb6, 0x5ed5, 0x4ef4, 0x3e13, 0x2e32, 0x1e51, 0x0e70,
    0xff9f, 0xefbe, 0xdfdd, 0xcffc, 0xbf1b, 0xaf3a, 0x9f59, 0x8f78,
    0x9188, 0x81a9, 0xb1ca, 0xa1eb, 0xd10c, 0xc12d, 0xf14e, 0xe16f,
    0x1080, 0x00a1, 0x30c2, 0x20e3, 0x5004, 0x4025, 0x7046, 0x6067,
    0x83b9, 0x9398, 0xa3fb, 0xb3da, 0xc33d, 0xd31c, 0xe37f, 0xf35e,
    0x02b1, 0x1290, 0x22f3, 0x32d2, 0x4235, 0x5214, 0x6277, 0x7256,
    0xb5ea, 0xa5cb, 0x95a8, 0x8589, 0xf56e, 0xe54f, 0xd52c, 0xc50d,
    0x34e2, 0x24c3, 0x14a0, 0x0481, 0x7466, 0x6447, 0x5424, 0x4405,
    0xa7db, 0xb7fa, 0x8799, 0x97b8, 0xe75f, 0xf77e, 0xc71d, 0xd73c,
    0x26d3, 0x36f2, 0x0691, 0x16b0, 0x6657, 0x7676, 0x4615, 0x5634,
    0xd94c, 0xc96d, 0xf90e, 0xe92f, 0x99c8, 0x89e9, 0xb98a, 0xa9ab,
    0x5844, 0x4865, 0x7806, 0x6827, 0x18c0, 0x08e1, 0x3882, 0x28a3,
    0xcb7d, 0xdb5c, 0xeb3f, 0xfb1e, 0x8bf9, 0x9bd8, 0xabbb, 0xbb9a,
    0x4a75, 0x5a54, 0x6a37, 0x7a16, 0x0af1, 0x1ad0, 0x2ab3, 0x3a92,
    0xfd2e, 0xed0f, 0xdd6c, 0xcd4d, 0xbdaa, 0xad8b, 0x9de8, 0x8dc9,
    0x7c26, 0x6c07, 0x5c64, 0x4c45, 0x3ca2, 0x2c83, 0x1ce0, 0x0cc1,
    0xef1f, 0xff3e, 0xcf5d, 0xdf7c, 0xaf9b, 0xbfba, 0x8fd9, 0x9ff8,
    0x6e17, 0x7e36, 0x4e55, 0x5e74, 0x2e93, 0x3eb2, 0x0ed1, 0x1ef0
  ]

  /** One step: the table entry of the high byte and the data, xored with the low
      byte moved up. */
  function CrcByte(crc: u16, b: byte): u16 {
    var t := TABLE[Xor(crc / 0x100, b)];
    Xor(t / 0x100, crc % 0x100) * 0x100 + t % 0x100
  }

  function Crc(crc: u16, data: bytes): u16 {
    if data == [] then crc else CrcByte(Crc(crc, data[..|data| - 1]), data[|data| - 1])
  }

  lemma {:induction false} CrcSplit(crc: u16, a: bytes, b: bytes)
    ensures Crc(crc, a + b) == Crc(Crc(crc, a), b)
    decreases |b|
  {
    hide CrcByte;
    if b == [] {
      assert a + b == a;
    } else {
      CrcSplit(crc, a, b[..|b| - 1]);
      assert (a + b)[..|a + b| - 1] == a + b[..|b| - 1];
    }
  }

  function Trailer(crc: u16): bytes {
    [crc / 0x100, crc % 0x100]
  }

  /** The checksum over a stream and its own trailer is zero. */
  lemma CrcOfTrailer(crc: u16, data: bytes)
    ensures Crc(crc, data + Trailer(Crc(crc, data))) == 0
  {
    var c := Crc(crc, data);
    CrcSplit(crc, data, Trailer(c));
    hide TABLE, Xor;
    XorTwice(c / 0x100, 0);
    XorTwice(c % 0x100, 0);
    FirstEntry();
    XorTwice(0, 0);
    var d := CrcByte(c, c / 0x100);
    assert d == c % 0x100 * 0x100;
    assert Trailer(c)[..1] == [c / 0x100] && [c / 0x100][..0] == [];
    assert Crc(c, [c / 0x100]) == d;
    assert CrcByte(d, c % 0x100) == 0;
  }

  lemma FirstEntry()
    ensures |TABLE| == 256 && TABLE[0] == 0
  {}

  method CrcSum(crc: u16, data: array<byte>, len: nat) returns (r: u16)
    requires len <= data.Length
    ensures r == Crc(crc, data[..len])
  {
    hide CrcByte;
    r := crc;
    for i := 0 to len
      invariant r == Crc(crc, data[..i])
    {
      assert data[..i + 1][..i] == data[..i];
      r := CrcByte(r, data[i]);
    }
  }

  // ----- send_blob

  function Flatten(t: seq<bytes>): bytes {
    if t == [] then [] else Flatten(t[..|t| - 1]) + t[|t| - 1]
  }

  function Payload(file: bytes, rc4: bool): (s: bytes)
    ensures |s| == |file|
  {
    if rc4 then Encode(Setup(KEY), file) else file
  }

  /** The loop of send_blob; a transfer is appended to the output. For a file of
      any length the transfers are the payload followed by its checksum, all of
      4096 bytes but the last, which is shorter than 4098 and never empty. */
  method SendBlob(file: bytes, rc4: bool) returns (transfers: seq<bytes>)
    ensures Flatten(transfers) == Payload(file, rc4) + Trailer(Crc(0xffff, Payload(file, rc4)))
    ensures |transfers| == |file| / CHUNK + 1
    ensures forall i :: 0 <= i < |transfers| - 1 ==> |transfers[i]| == CHUNK
    ensures |transfers[|transfers| - 1]| == |file| % CHUNK + 2 <= 4097
  {
    hide Payload, Crc, Setup, After, Flatten, TABLE, REST, KEY;
    var crc: u16 := 0xffff;
    KeySize();
    var r := new Encoder(KEY);
    Nothing(rc4);
    assert file[..0] == [];
    transfers := [];
    var pos := 0;
    while true
      invariant pos == CHUNK * |transfers| && pos <= |file| && fresh(r) && fresh(r.key) && r.key.Length == 256
      invariant rc4 ==> r.Value() == After(Setup(KEY), pos)
      invariant Flatten(transfers) == Payload(file[..pos], rc4) && crc == Crc(0xffff, Payload(file[..pos], rc4))
      invariant forall i :: 0 <= i < |transfers| ==> |transfers[i]| == CHUNK
      decreases |file| - pos
    {
      var len := if |file| - pos > CHUNK then CHUNK else |file| - pos;
      var chunk := new byte[CHUNK + 4];
      Prepare(file, rc4, pos, len, r, chunk);
      var piece := chunk[..len];
      CrcSplit(0xffff, Payload(file[..pos], rc4), piece);
      crc := CrcSum(crc, chunk, len);
      pos := pos + len;
      Append(transfers, piece);
      if len != CHUNK {
        assert file[..pos] == file;
        chunk[len], chunk[len + 1] := crc / 0x100, crc % 0x100;
        assert chunk[..len + 2] == piece + Trailer(crc);
        Append(transfers, piece + Trailer(crc));
        Assoc(Flatten(transfers), piece, Trailer(crc));
        Whole(|file|, |transfers|, len);
        transfers := transfers + [chunk[..len + 2]];
        return;
      }
      transfers := transfers + [piece];
    }
  }

  /** The next chunk read and encoded. */
  method Prepare(file: bytes, rc4: bool, pos: nat, len: nat, r: Encoder, chunk: array<byte>)
    requires pos + len <= |file| && len <= chunk.Length && r.key.Length == 256 && chunk != r.key
    requires rc4 ==> r.Value() == After(Setup(KEY), pos)
    modifies r, r.key, chunk
    ensures rc4 ==> r.Value() == After(Setup(KEY), pos + len)
    ensures Payload(file[..pos + len], rc4) == Payload(file[..pos], rc4) + chunk[..len]
  {
    hide Payload, Setup, After, KEY, Encode;
    KeySize();
    Read(file, pos, len, chunk);
    PayloadNext(file, rc4, pos, len);
    if rc4 {
      AfterSum(Setup(KEY), pos, len);
      r.EncodeChunk(chunk, len);
    }
  }

  lemma KeySize()
    ensures |KEY| == 16
  {}

  lemma Whole(size: nat, n: nat, len: nat)
    requires size == CHUNK * n + len && len < CHUNK
    ensures size / CHUNK == n && size % CHUNK == len
  {}

  /** fread. */
  method Read(file: bytes, pos: nat, len: nat, chunk: array<byte>)
    requires pos + len <= |file| && len <= chunk.Length
    modifies chunk
    ensures chunk[..len] == file[pos..pos + len]
  {
    for i := 0 to len
      invariant forall k :: 0 <= k < i ==> chunk[k] == file[pos + k]
    {
      chunk[i] := file[pos + i];
    }
  }

  lemma Nothing(rc4: bool)
    ensures Flatten([]) == [] == Payload([], rc4) && Crc(0xffff, []) == 0xffff && After(Setup(KEY), 0) == Setup(KEY)
  {}

  lemma Append(t: seq<bytes>, x: bytes)
    ensures Flatten(t + [x]) == Flatten(t) + x
  {
    assert (t + [x])[..|t|] == t;
  }

  lemma PayloadNext(file: bytes, rc4: bool, pos: nat, len: nat)
    requires pos + len <= |file|
    ensures Payload(file[..pos + len], rc4) ==
            Payload(file[..pos], rc4) + if rc4 then Encode(After(Setup(KEY), pos),
                file[pos..pos + len]) else file[pos..pos + len]
  {
    hide After, Setup;
    assert file[..pos + len] == file[..pos] + file[pos..pos + len];
    EncodeSplit(Setup(KEY), file[..pos], file[pos..pos + len]);
  }

  /** What the receiver gets back: it decodes the stream with a fresh state. */
  lemma PayloadDecodes(file: bytes)
    ensures Encode(Setup(KEY), Payload(file, true)) == file
  {
    hide Encode, Setup;
    EncodeTwice(Setup(KEY), file);
  }
}
