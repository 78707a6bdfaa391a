/** Counter-mode decryption of bootloaders/encrypted/mbedtls_aes.c over an arbitrary block cipher:
    the byte-streaming in-place loop, the recombination of the shared key and the mixing of the IV. */
module CtrMode {
  import opened Words

  type Byte = bv8

  /** mbedtls_aes_crypt_ecb: a block, or a nonzero error code. */
  datatype EcbResult = Encrypted(block: seq<Byte>) | Failed(code: int)

  type Cipher = seq<Byte> -> EcbResult

  /** The cipher maps blocks to blocks, and errors are nonzero. */
  ghost predicate IsCipher(ecb: Cipher) {
    forall b: seq<Byte> :: match ecb(b) case Encrypted(block) => |block| == 16 case Failed(code) => code != 0
  }

  function Xor8(a: Byte, b: Byte): Byte {
    a ^ b
  }

  lemma Xor8Cancels(a: Byte, b: Byte)
    ensures Xor8(Xor8(a, b), b) == a
  {
  }

  lemma Xor8Injective(a: Byte, b: Byte, c: Byte)
    requires Xor8(a, b) == Xor8(a, c)
    ensures b == c
  {
  }

  /** The byte of value x. */
  function ByteOf(x: nat): Byte
    requires x < 256
  {
    if x == 0 then 0 else NextByte(ByteOf(x - 1))
  }

  function NextByte(b: Byte): Byte {
    b + 1
  }

  /** The k-th byte of the counter, lowest first. */
  function CounterByte(counter: nat, k: nat): Byte
    decreases k
  {
    if k == 0 then ByteOf(counter % 256) else CounterByte(counter / 256, k - 1)
  }

  /** iv0 with the big-endian counter folded into its last four bytes. */
  function CounterBlock(iv0: seq<Byte>, counter: nat): (block: seq<Byte>)
    requires |iv0| == 16
    ensures |block| == 16
  {
    seq(16, p requires 0 <= p < 16 => if p < 12 then iv0[p] else Xor8(iv0[p], CounterByte(counter, 15 - p)))
  }

  // ---------------------------------------------------------------------------------------
  // The blockwise definition

  /** The key stream is available for the first `length` bytes. */
  ghost predicate StreamOk(ecb: Cipher, iv0: seq<Byte>, length: nat)
    requires |iv0| == 16
  {
    forall b :: 0 <= b && 16 * b < length ==> ecb(CounterBlock(iv0, b)).Encrypted?
  }

  function KeyStream(ecb: Cipher, iv0: seq<Byte>, k: nat): Byte
    requires |iv0| == 16 && IsCipher(ecb) && ecb(CounterBlock(iv0, k / 16)).Encrypted?
  {
    ecb(CounterBlock(iv0, k / 16)).block[k % 16]
  }

  /** Every byte xored with byte k % 16 of the encrypted counter block k / 16. */
  function Ctr(ecb: Cipher, iv0: seq<Byte>, data: seq<Byte>): (r: seq<Byte>)
    requires |iv0| == 16 && IsCipher(ecb) && StreamOk(ecb, iv0, |data|)
    ensures |r| == |data|
  {
    seq(|data|, k requires 0 <= k < |data| =>
      assert 16 * (k / 16) < |data|;
      Xor8(data[k], KeyStream(ecb, iv0, k)))
  }

  /** Decryption is encryption: applying it twice restores the data. */
  lemma CtrTwice(ecb: Cipher, iv0: seq<Byte>, data: seq<Byte>)
    requires |iv0| == 16 && IsCipher(ecb) && StreamOk(ecb, iv0, |data|)
    ensures Ctr(ecb, iv0, Ctr(ecb, iv0, data)) == data
  {
    hide Xor8, KeyStream;
    var once := Ctr(ecb, iv0, data);
    forall k | 0 <= k < |data|
      ensures Ctr(ecb, iv0, once)[k] == data[k]
    {
      assert 16 * (k / 16) < |data|;
      Xor8Cancels(data[k], KeyStream(ecb, iv0, k));
    }
  }

  // ---------------------------------------------------------------------------------------
  // Counter blocks

  lemma {:induction false} ByteValue(x: nat)
    requires x < 256
    ensures ByteOf(x) as int == x
  {
    hide NextByte;
    if x != 0 {
      ByteValue(x - 1);
      NextByteValue(ByteOf(x - 1));
    }
  }

  lemma NextByteValue(b: Byte)
    requires b as int < 255
    ensures NextByte(b) as int == b as int + 1
  {
    NotLastByte(b);
    IncrementValue(b);
  }

  lemma NotLastByte(b: Byte)
    requires b as int < 255
    ensures b < 255
  {
  }

  lemma IncrementValue(b: Byte)
    requires b < 255
    ensures NextByte(b) as int == b as int + 1
  {
  }

  lemma {:induction false} CounterFromBytes(c: nat, d: nat, n: nat)
    requires forall k :: 0 <= k < n ==> CounterByte(c, k) == CounterByte(d, k)
    requires c < Pow256(n) && d < Pow256(n)
    ensures c == d
    decreases n
  {
    hide ByteOf;
    if n != 0 {
      assert CounterByte(c, 0) == CounterByte(d, 0);
      ByteValue(c % 256);
      ByteValue(d % 256);
      forall k | 0 <= k < n - 1
        ensures CounterByte(c / 256, k) == CounterByte(d / 256, k)
      {
        assert CounterByte(c, k + 1) == CounterByte(d, k + 1);
      }
      CounterFromBytes(c / 256, d / 256, n - 1);
    }
  }

  function Pow256(n: nat): (r: nat)
    ensures r > 0
  {
    if n == 0 then 1 else 256 * Pow256(n - 1)
  }

  /** All counter blocks of a message are distinct, as section 6.5 of NIST SP 800-38A requires. */
  lemma CounterBlocksDistinct(iv0: seq<Byte>, c: nat, d: nat)
    requires |iv0| == 16 && c < TWO_32 && d < TWO_32
    ensures CounterBlock(iv0, c) == CounterBlock(iv0, d) <==> c == d
  {
    hide Xor8, CounterByte;
    if CounterBlock(iv0, c) == CounterBlock(iv0, d) {
      forall k | 0 <= k < 4
        ensures CounterByte(c, k) == CounterByte(d, k)
      {
        assert CounterBlock(iv0, c)[15 - k] == CounterBlock(iv0, d)[15 - k];
        Xor8Injective(iv0[15 - k], CounterByte(c, k), CounterByte(d, k));
      }
      assert Pow256(2) == 65536 && Pow256(4) == TWO_32;
      CounterFromBytes(c, d, 4);
    }
  }

  // ---------------------------------------------------------------------------------------
  // What the counter blocks are, by their values

  /** The number whose bytes are these, most significant first. */
  function BigEndian(a: nat, b: nat, c: nat, d: nat): nat {
    a * 0x100_0000 + b * 0x1_0000 + c * 0x100 + d
  }

  function XorValue(a: Byte, b: Byte): (v: nat)
    ensures v < 256
  {
    (a ^ b) as int
  }

  /** Block number `counter`: the IV's first twelve bytes, and last four that, xored with the IV's, read as the
      counter. */
  ghost predicate IsCounterBlock(iv0: seq<Byte>, counter: nat, block: seq<Byte>)
    requires |iv0| == 16
  {
    && |block| == 16 && block[..12] == iv0[..12]
    && counter == BigEndian(XorValue(block[12], iv0[12]), XorValue(block[13], iv0[13]),
                            XorValue(block[14], iv0[14]), XorValue(block[15], iv0[15]))
  }

  lemma CounterBlockValue(iv0: seq<Byte>, counter: nat)
    requires |iv0| == 16 && counter < TWO_32
    ensures IsCounterBlock(iv0, counter, CounterBlock(iv0, counter))
  {
    hide Xor8, ByteOf, CounterByte, XorValue, BigEndian;
    assert Pow256(1) == 256 && Pow256(2) == 0x1_0000 && Pow256(3) == 0x100_0000;
    MixedByte(iv0[12], counter, 3);
    MixedByte(iv0[13], counter, 2);
    MixedByte(iv0[14], counter, 1);
    MixedByte(iv0[15], counter, 0);
    Base256(counter);
  }

  lemma MixedByte(b: Byte, counter: nat, k: nat)
    ensures XorValue(Xor8(b, CounterByte(counter, k)), b) == counter / Pow256(k) % 256
  {
    hide Xor8, CounterByte;
    CounterByteValue(counter, k);
    XorBack(b, CounterByte(counter, k));
  }

  lemma {:induction false} CounterByteValue(counter: nat, k: nat)
    ensures CounterByte(counter, k) as int == counter / Pow256(k) % 256
    decreases k
  {
    hide ByteOf;
    if k == 0 {
      ByteValue(counter % 256);
    } else {
      CounterByteValue(counter / 256, k - 1);
      QuotientTwice(counter, Pow256(k - 1));
    }
  }

  lemma QuotientTwice(x: nat, n: nat)
    requires n > 0
    ensures x / (256 * n) == x / 256 / n
  {
    var q := x / 256 / n;
    var rest := 256 * (x / 256 % n) + x % 256;
    assert x / 256 == n * q + x / 256 % n;
    assert x == 256 * n * q + rest by {
      assert 256 * (n * q) == 256 * n * q;
    }
    assert x == 256 * n * (x / (256 * n)) + x % (256 * n);
    ProductGrows(256 * n, q, x / (256 * n));
    ProductGrows(256 * n, x / (256 * n), q);
  }

  lemma XorBack(a: Byte, b: Byte)
    ensures XorValue(Xor8(a, b), a) == b as int
  {
  }

  lemma Base256(x: nat)
    requires x < TWO_32
    ensures BigEndian(x / 0x100_0000 % 256, x / 0x1_0000 % 256, x / 0x100 % 256, x / 1 % 256) == x
  {
    var y := x / 256;
    var z := y / 256;
    QuotientTwice(x, 256);
    QuotientTwice(x, 0x1_0000);
    QuotientTwice(y, 256);
    assert x / 0x1_0000 == z && x / 0x100_0000 == z / 256 && z / 256 % 256 == z / 256;
    assert x == 256 * y + x % 256 && y == 256 * z + y % 256 && z == 256 * (z / 256) + z % 256;
  }

  /** There is one such block for each counter. */
  lemma CounterBlockUnique(iv0: seq<Byte>, counter: nat, block: seq<Byte>)
    requires |iv0| == 16 && counter < TWO_32 && IsCounterBlock(iv0, counter, block)
    ensures block == CounterBlock(iv0, counter)
  {
    hide Xor8, CounterByte, XorValue, BigEndian, CounterBlock;
    CounterBlockValue(iv0, counter);
    var b := CounterBlock(iv0, counter);
    SameDigits(XorValue(block[12], iv0[12]), XorValue(block[13], iv0[13]), XorValue(block[14], iv0[14]),
               XorValue(block[15], iv0[15]), XorValue(b[12], iv0[12]), XorValue(b[13], iv0[13]),
               XorValue(b[14], iv0[14]), XorValue(b[15], iv0[15]));
    XorSame(block[12], b[12], iv0[12]);
    XorSame(block[13], b[13], iv0[13]);
    XorSame(block[14], b[14], iv0[14]);
    XorSame(block[15], b[15], iv0[15]);
    assert block == block[..12] + [block[12], block[13], block[14], block[15]];
    assert b == b[..12] + [b[12], b[13], b[14], b[15]];
  }

  lemma SameDigits(a: nat, b: nat, c: nat, d: nat, p: nat, q: nat, r: nat, s: nat)
    requires a < 256 && b < 256 && c < 256 && d < 256 && p < 256 && q < 256 && r < 256 && s < 256
    requires BigEndian(a, b, c, d) == BigEndian(p, q, r, s)
    ensures a == p && b == q && c == r && d == s
  {
  }

  lemma XorSame(a: Byte, b: Byte, c: Byte)
    ensures XorValue(a, c) == XorValue(b, c) ==> a == b
  {
    hide XorValue;
    if XorValue(a, c) == XorValue(b, c) {
      XorWord(a, c);
      XorWord(b, c);
      SameValue(a ^ c, b ^ c);
      XorUnmask(a, b, c);
    }
  }

  lemma XorWord(a: Byte, c: Byte)
    ensures XorValue(a, c) == (a ^ c) as int
  {
  }

  lemma SameValue(a: Byte, b: Byte)
    ensures (a as int) == (b as int) ==> a == b
  {
  }

  lemma XorUnmask(a: Byte, b: Byte, c: Byte)
    ensures a ^ c == b ^ c ==> a == b
  {
  }

  /** Byte k is xored with byte k % 16 of the encryption of block number k / 16, the first block being number 0. */
  lemma CtrBytes(ecb: Cipher, iv0: seq<Byte>, data: seq<Byte>, k: nat, block: seq<Byte>)
    requires |iv0| == 16 && IsCipher(ecb) && StreamOk(ecb, iv0, |data|) && k < |data| && k < 16 * TWO_32
    requires IsCounterBlock(iv0, k / 16, block)
    ensures ecb(block).Encrypted? && |ecb(block).block| == 16
    ensures Ctr(ecb, iv0, data)[k] == data[k] ^ ecb(block).block[k % 16]
  {
    hide CounterBlock, IsCounterBlock, Xor8;
    CounterBlockUnique(iv0, k / 16, block);
    assert 16 * (k / 16) < |data|;
    XorOfBytes(data[k], ecb(block).block[k % 16]);
  }

  lemma XorOfBytes(a: Byte, b: Byte)
    ensures Xor8(a, b) == a ^ b
  {
  }

  // ---------------------------------------------------------------------------------------
  // The code

  method MixCounter(iv0: seq<Byte>, counter: nat, nonceXor: array<Byte>)
    requires |iv0| == 16 && nonceXor.Length == 16
    modifies nonceXor
    ensures nonceXor[..] == CounterBlock(iv0, counter)
    ensures counter < TWO_32 ==> IsCounterBlock(iv0, counter, nonceXor[..])
  {
    hide Xor8, CounterByte;
    var i := 16;
    while i > 0
      invariant 0 <= i <= 16
      invariant forall p :: i <= p < 16 ==> nonceXor[p] == CounterBlock(iv0, counter)[p]
    {
      nonceXor[i - 1] := iv0[i - 1];
      if i - (16 - 4) > 0 {
        nonceXor[i - 1] := Xor8(nonceXor[i - 1], CounterByte(counter, 16 - i));
      }
      i := i - 1;
    }
    if counter < TWO_32 {
      CounterBlockValue(iv0, counter);
    }
    assert nonceXor[..] == CounterBlock(iv0, counter);
  }

  /** mb_aes_crypt_ctr_xor. Input and output may be the same buffer. On an error, `done` bytes, a
      whole number of blocks, have been processed. */
  method CryptCtrXor(ecb: Cipher, length: nat, iv0: seq<Byte>, nonceXor: array<Byte>, streamBlock: array<Byte>,
                     input: array<Byte>, output: array<Byte>) returns (ret: int, ghost done: nat)
    requires IsCipher(ecb) && |iv0| == 16 && nonceXor.Length == 16 && streamBlock.Length == 16
    requires length < TWO_32 && length <= input.Length && length <= output.Length
    requires nonceXor != streamBlock && nonceXor != input && nonceXor != output
      && streamBlock != input && streamBlock != output
    modifies nonceXor, streamBlock, output
    ensures done <= length && StreamOk(ecb, iv0, done)
    ensures output[..done] == Ctr(ecb, iv0, old(input[..done])) && output[done..] == old(output[done..])
    ensures ret == 0 <==> done == length
    ensures ret != 0 ==> done % 16 == 0 && ecb(CounterBlock(iv0, done / 16)) == Failed(ret)
  {
    hide Xor8, CounterBlock, Ctr, KeyStream, StreamOk, U32;
    ret := 0;
    var n, counter: nat, k := 0, 0, 0;
    ghost var data := input[..length];
    EmptyStream(ecb, iv0, data[..0]);
    while k < length
      invariant 0 <= k <= length && n == k % 16 && counter == (k + 15) / 16
      invariant StreamOk(ecb, iv0, k)
      invariant n != 0 ==> ecb(CounterBlock(iv0, k / 16)) == Encrypted(streamBlock[..])
      invariant output[..k] == Ctr(ecb, iv0, data[..k])
      invariant output[k..] == old(output[k..])
      invariant input[k..length] == data[k..]
    {
      BlockCount(k);
      if n == 0 {
        ret := RefreshStream(ecb, iv0, counter, nonceXor, streamBlock);
        if ret != 0 {
          break;
        }
        counter := U32(counter + 1);
      }
      StreamGrows(ecb, iv0, data, k, streamBlock[..]);
      XorByte(input, output, k, length, streamBlock[n]);
      n := (n + 1) % 16;
      k := k + 1;
    }
    done := k;
    assert data[..done] == old(input[..done]);
  }

  /** Replaces one byte of the output by the input's, xored with the key stream. */
  method XorByte(input: array<Byte>, output: array<Byte>, k: nat, length: nat, stream: Byte)
    requires k < length <= input.Length && length <= output.Length
    modifies output
    ensures output[..k + 1] == old(output[..k]) + [Xor8(old(input[k]), stream)]
    ensures output[k + 1..] == old(output[k + 1..]) && input[k + 1..length] == old(input[k..length])[1..]
    ensures old(input[k]) == old(input[k..length])[0] && old(output[k + 1..]) == old(output[k..])[1..]
  {
    hide Xor8;
    var c := input[k];
    output[k] := Xor8(c, stream);
  }

  /** Encrypts the next counter block into streamBlock. */
  method RefreshStream(ecb: Cipher, iv0: seq<Byte>, counter: nat, nonceXor: array<Byte>, streamBlock: array<Byte>)
    returns (ret: int)
    requires IsCipher(ecb) && |iv0| == 16 && nonceXor.Length == 16 && streamBlock.Length == 16
      && nonceXor != streamBlock
    modifies nonceXor, streamBlock
    ensures ecb(CounterBlock(iv0, counter)) == if ret == 0 then Encrypted(streamBlock[..]) else Failed(ret)
  {
    hide CounterBlock;
    MixCounter(iv0, counter, nonceXor);
    match ecb(nonceXor[..])
    case Failed(code) =>
      ret := code;
    case Encrypted(block) =>
      ret := 0;
      forall j | 0 <= j < 16 {
        streamBlock[j] := block[j];
      }
      assert streamBlock[..] == block;
  }

  lemma EmptyStream(ecb: Cipher, iv0: seq<Byte>, none: seq<Byte>)
    requires IsCipher(ecb) && |iv0| == 16 && none == []
    ensures StreamOk(ecb, iv0, 0) && Ctr(ecb, iv0, none) == []
  {
  }

  lemma StreamGrows(ecb: Cipher, iv0: seq<Byte>, data: seq<Byte>, k: nat, block: seq<Byte>)
    requires |iv0| == 16 && IsCipher(ecb) && k < |data| && StreamOk(ecb, iv0, k)
    requires ecb(CounterBlock(iv0, k / 16)) == Encrypted(block)
    ensures StreamOk(ecb, iv0, k + 1) && |block| == 16
    ensures Ctr(ecb, iv0, data[..k + 1]) == Ctr(ecb, iv0, data[..k]) + [Xor8(data[k], block[k % 16])]
  {
    hide Ctr, KeyStream, StreamOk, CounterBlock, Xor8;
    StreamExtends(ecb, iv0, k, block);
    CtrExtends(ecb, iv0, data, k, block);
  }

  /** The counter is the number of blocks started. */
  lemma BlockCount(k: nat)
    requires k < TWO_32
    ensures k % 16 == 0 ==> (k + 15) / 16 == k / 16 && U32(k / 16 + 1) == k / 16 + 1 && (k + 16) / 16 == k / 16 + 1
    ensures k % 16 != 0 ==> (k + 15) / 16 == (k + 16) / 16
    ensures (k + 1) % 16 == (k % 16 + 1) % 16 && ((k + 1) % 16 != 0 ==> (k + 1) / 16 == k / 16)
  {
  }

  lemma StreamExtends(ecb: Cipher, iv0: seq<Byte>, k: nat, block: seq<Byte>)
    requires |iv0| == 16 && StreamOk(ecb, iv0, k) && ecb(CounterBlock(iv0, k / 16)) == Encrypted(block)
    ensures StreamOk(ecb, iv0, k + 1)
  {
    hide CounterBlock;
    forall b | 0 <= b && 16 * b < k + 1
      ensures ecb(CounterBlock(iv0, b)).Encrypted?
    {
      if 16 * b >= k {
        assert b == k / 16;
      }
    }
  }

  lemma CtrExtends(ecb: Cipher, iv0: seq<Byte>, data: seq<Byte>, k: nat, block: seq<Byte>)
    requires |iv0| == 16 && IsCipher(ecb) && k < |data| && StreamOk(ecb, iv0, k) && StreamOk(ecb, iv0, k + 1)
    requires ecb(CounterBlock(iv0, k / 16)) == Encrypted(block)
    ensures |block| == 16 && Ctr(ecb, iv0, data[..k + 1]) == Ctr(ecb, iv0, data[..k]) + [Xor8(data[k], block[k % 16])]
  {
    hide Xor8, CounterBlock;
    assert 16 * (k / 16) < k + 1;
  }

  // ---------------------------------------------------------------------------------------
  // decrypt

  /** Where the four shares of key word i start: four words each, the second half after a gap of 16 words. */
  function SharePos(i: nat): (pos: nat)
    requires i < 8
    ensures pos + 4 <= 16 || (32 <= pos && pos + 4 <= 48)
  {
    i * 4 + i / 4 * 16
  }

  function KeyWord(shares: seq<bv32>, i: nat): bv32
    requires |shares| >= 48 && i < 8
  {
    var p := SharePos(i);
    Xor(Xor(Xor(shares[p], shares[p + 1]), shares[p + 2]), shares[p + 3])
  }

  function Key(shares: seq<bv32>): (key: seq<bv32>)
    requires |shares| >= 48
    ensures |key| == 8
  {
    seq(8, i requires 0 <= i < 8 => KeyWord(shares, i))
  }

  /** The first share of each word is the word masked with the other three, whatever those are. */
  ghost predicate SharesOf(shares: seq<bv32>, key: seq<bv32>)
    requires |shares| >= 48 && |key| == 8
  {
    forall i :: 0 <= i < 8 ==> var p := SharePos(i);
      shares[p] == Xor(Xor(Xor(key[i], shares[p + 1]), shares[p + 2]), shares[p + 3])
  }

  lemma XorShares(k: bv32, b: bv32, c: bv32, d: bv32)
    ensures Xor(Xor(Xor(Xor(Xor(Xor(k, b), c), d), b), c), d) == k
  {
  }

  /** The shares of a key give back that key, and they are no other key's shares. */
  lemma KeyFromShares(shares: seq<bv32>, key: seq<bv32>)
    requires |shares| >= 48 && |key| == 8
    ensures SharesOf(shares, key) <==> Key(shares) == key
  {
    hide Xor;
    forall i | 0 <= i < 8
      ensures var p := SharePos(i);
              shares[p] == Xor(Xor(Xor(key[i], shares[p + 1]), shares[p + 2]), shares[p + 3])
              <==> KeyWord(shares, i) == key[i]
    {
      var p := SharePos(i);
      XorShares(key[i], shares[p + 1], shares[p + 2], shares[p + 3]);
      XorShares(shares[p], shares[p + 1], shares[p + 2], shares[p + 3]);
    }
    assert Key(shares) == key <==> forall i :: 0 <= i < 8 ==> KeyWord(shares, i) == key[i];
  }

  /** The IV that decrypts: the public one blinded with the salt kept on the chip. */
  function MixedIv(salt: seq<Byte>, public: seq<Byte>): (iv: seq<Byte>)
    requires |salt| == |public| == 16
    ensures |iv| == 16
  {
    seq(16, i requires 0 <= i < 16 => Xor8(salt[i], public[i]))
  }

  /** An IV that was published xored with the salt is recovered. */
  lemma MixedIvRecovers(salt: seq<Byte>, iv: seq<Byte>, public: seq<Byte>)
    requires |salt| == |iv| == |public| == 16 && forall i :: 0 <= i < 16 ==> public[i] == iv[i] ^ salt[i]
    ensures MixedIv(salt, public) == iv
  {
    hide Xor8;
    forall i | 0 <= i < 16
      ensures MixedIv(salt, public)[i] == iv[i]
    {
      XorMask(salt[i], iv[i]);
    }
  }

  lemma XorMask(a: Byte, b: Byte)
    ensures Xor8(a, b ^ a) == b
  {
  }

  /** The shares lie one word after the other, with a gap of 16 words in the middle. */
  lemma ShareLayout(i: nat)
    requires i < 8
    ensures SharePos(0) == 0 && (i > 0 ==> SharePos(i) == SharePos(i - 1) + (if i == 4 then 20 else 4))
  {
  }

  /** Each of the four shares enters: whatever is xored to it is xored to the word. */
  lemma EveryShareEnters(shares: seq<bv32>, i: nat, j: nat, delta: bv32)
    requires |shares| >= 48 && i < 8 && j < 4
    ensures var q := SharePos(i) + j;
            KeyWord(shares[q := Xor(shares[q], delta)], i) == Xor(KeyWord(shares, i), delta)
  {
    hide Xor;
    var p := SharePos(i);
    var a, b, c, d := shares[p], shares[p + 1], shares[p + 2], shares[p + 3];
    var ab := Xor(a, b);
    if j == 0 {
      XorSwap(a, delta, b);
    } else if j == 1 {
      XorAssociative(a, b, delta);
    }
    if j == 2 {
      XorAssociative(ab, c, delta);
    } else if j < 2 {
      XorSwap(ab, delta, c);
    }
    if j == 3 {
      XorAssociative(Xor(ab, c), d, delta);
    } else {
      XorSwap(Xor(ab, c), delta, d);
    }
  }

  /** So what was encrypted under a key and an IV comes back from the key's shares and the IV's two parts. */
  lemma DecryptsEncrypted(aes: seq<bv32> -> Cipher, shares: seq<bv32>, key: seq<bv32>, salt: seq<Byte>, iv: seq<Byte>,
                          public: seq<Byte>, plain: seq<Byte>)
    requires |shares| >= 48 && |key| == 8 && SharesOf(shares, key)
    requires |salt| == |iv| == |public| == 16 && forall i :: 0 <= i < 16 ==> public[i] == iv[i] ^ salt[i]
    requires IsCipher(aes(key)) && StreamOk(aes(key), iv, |plain|)
    ensures Key(shares) == key && MixedIv(salt, public) == iv
    ensures Ctr(aes(Key(shares)), MixedIv(salt, public), Ctr(aes(key), iv, plain)) == plain
  {
    hide Ctr, StreamOk, Key, MixedIv, SharesOf;
    KeyFromShares(shares, key);
    MixedIvRecovers(salt, iv, public);
    CtrTwice(aes(key), iv, plain);
  }

  /** `decrypt`: aes is the cipher for a key. The return code of the loop is ignored there, so after a
      failure of the cipher the rest of the buffer stays as it was. */
  method Decrypt(aes: seq<bv32> -> Cipher, key4way: array<bv32>, salt: seq<Byte>, public: seq<Byte>,
                 buf: array<Byte>, nblk: nat, ghost key: seq<bv32>) returns (ghost done: nat)
    requires key4way.Length >= 48 && |salt| == |public| == 16
    requires 16 * nblk == buf.Length < 0x8000_0000
    requires |key| == 8 && SharesOf(key4way[..], key)
    requires IsCipher(aes(key))
    modifies buf
    ensures done <= buf.Length && StreamOk(aes(key), MixedIv(salt, public), done)
    ensures buf[..done] == Ctr(aes(key), MixedIv(salt, public), old(buf[..done])) && buf[done..] == old(buf[done..])
    ensures done < buf.Length ==> done % 16 == 0 && aes(key)(CounterBlock(MixedIv(salt, public), done / 16)).Failed?
  {
    hide Xor, Xor8, CounterBlock;
    var aesKey: seq<bv32> := [];
    var i := 0;
    while i < 8
      invariant 0 <= i <= 8 && |aesKey| == i
      invariant forall j :: 0 <= j < i ==> aesKey[j] == KeyWord(key4way[..], j)
    {
      var skip := i / 4 * 16;
      aesKey := aesKey + [Xor(Xor(Xor(key4way[i * 4 + skip], key4way[i * 4 + 1 + skip]), key4way[i * 4 + 2 + skip]),
                              key4way[i * 4 + 3 + skip])];
      i := i + 1;
    }
    KeyFromShares(key4way[..], key);
    assert aesKey == key;
    var iv: seq<Byte> := [];
    i := 0;
    while i < 16
      invariant 0 <= i <= 16 && |iv| == i
      invariant forall j :: 0 <= j < i ==> iv[j] == Xor8(salt[j], public[j])
    {
      iv := iv + [Xor8(salt[i], public[i])];
      i := i + 1;
    }
    assert iv == MixedIv(salt, public);
    var xorWorkingBlock := new Byte[16](_ => 0);
    var streamBlock := new Byte[16](_ => 0);
    var ret;
    ret, done := CryptCtrXor(aes(aesKey), 16 * nblk, iv, xorWorkingBlock, streamBlock, buf, buf);
  }
}
