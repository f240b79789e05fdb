/** The RSA layer of asgn6/rsa.c: key generation, encryption, decryption,
    signing and verification of numbers, and the block codec that turns a
    byte stream into a stream of ciphertexts and back.  A file being read is
    the sequence of its bytes (or, for ciphertexts, of the numbers written in
    it); a file being written is the sequence the method returns. */
module Rsa {
  import opened Arith
  import opened Primes
  import opened Gmp
  import opened NumTheory

  // ---------------------------------------------------------------------
  // Keys

  /** What `rsa_make_pub` leaves in p, q, n and e, or that the draws the
      model allows ran out before a prime or an exponent was accepted. */
  datatype KeyGen = Generated(p: nat, q: nat, n: nat, e: nat) | OutOfFuel

  /** (p - 1)(q - 1), the totient both key makers compute: for p, q >= 2
      it is positive and below n = p q. */
  function Totient(p: int, q: int): (t: int)
    ensures p >= 2 && q >= 2 ==> 1 <= t < p * q
  {
    (p - 1) * (q - 1)
  }

  /** Two distinct primes p, q and exponents whose product is 1 modulo the
      totient: the keys for which RSA decrypts what it encrypts. */
  ghost predicate ValidKey(p: int, q: int, e: int, d: int)
  {
    IsPrimeNumber(p) && IsPrimeNumber(q) && p != q && e >= 0 && d >= 0
    && (e * d) % Totient(p, q) == 1
  }

  lemma ProductBounds(p: int, q: int, a: nat, b: nat)
    requires Pow(2, a) <= p < Pow(2, a + 1) && Pow(2, b) <= q < Pow(2, b + 1)
    ensures Pow(2, a + b) <= p * q < Pow(2, a + b + 2)
  {
    PowAdd(2, a, b);
    PowAdd(2, a + 1, b + 1);
    PowPositive(2, a);
    PowPositive(2, b);
    ProductMonotone(Pow(2, a), p, Pow(2, b), q);
    ProductMonotone(p, Pow(2, a + 1) - 1, q, Pow(2, b + 1) - 1);
    assert (Pow(2, a + 1) - 1) * (Pow(2, b + 1) - 1) < Pow(2, a + 1) * Pow(2, b + 1);
  }

  lemma ProductMonotone(x: int, x2: int, y: int, y2: int)
    requires 0 <= x <= x2 && 0 <= y <= y2
    ensures x * y <= x2 * y2
  {
    MulMonotone(x, x2, y);
    MulMonotone(y, y2, x2);
  }

  /** `rsa_make_pub(p, q, n, e, nbits, iters)`: draw the bit count of p from
      [nbits/4, 3*nbits/4), give q the remaining bits, make both primes, and
      draw nbits-bit exponents until one is coprime with the totient.  The
      draws are bounded by fuel (each loop gets fuel draws); with nbits == 2
      p gets no bits and the key is never found. */
  method MakePub(nbits: nat, iters: nat, fuel: nat)
    returns (key: KeyGen, ghost pBits: nat, ghost pWitnesses: seq<int>, ghost qWitnesses: seq<int>)
    requires nbits >= 2
    ensures key.Generated? ==> nbits / 4 <= pBits < (3 * nbits) / 4
    ensures key.Generated? ==> Pow(2, pBits) <= key.p < Pow(2, pBits + 1)
    ensures key.Generated? ==> Pow(2, nbits - pBits) <= key.q < Pow(2, nbits - pBits + 1)
    ensures key.Generated? ==>
      MillerRabinAccepts(key.p, iters, pWitnesses) && MillerRabinAccepts(key.q, iters, qWitnesses)
    ensures key.Generated? ==> key.n == key.p * key.q && Pow(2, nbits) <= key.n < Pow(2, nbits + 2)
    ensures key.Generated? ==> 0 <= key.e < Pow(2, nbits) && Coprime(key.e, Totient(key.p, key.q))
    ensures nbits == 2 ==> key == OutOfFuel
  {
    var quarter := nbits / 4;
    var range := (nbits * 3) / 4 - quarter;
    var draw := Urandomm(range);
    var randBits := draw + quarter;
    var qBits := nbits - randBits;
    pBits := randBits;
    pWitnesses, qWitnesses := [], [];
    var p, q;
    p, pWitnesses := MakePrime(randBits, iters, fuel);
    if p.None? {
      return OutOfFuel, pBits, pWitnesses, qWitnesses;
    }
    q, qWitnesses := MakePrime(qBits, iters, fuel);
    if q.None? {
      return OutOfFuel, pBits, pWitnesses, qWitnesses;
    }
    var n := p.value * q.value;
    ProductBounds(p.value, q.value, pBits, qBits);
    var totient := (p.value - 1) * (q.value - 1);
    PowPositive(2, pBits);
    PowPositive(2, qBits);
    var draws := 0;
    while draws < fuel
      decreases fuel - draws
    {
      var e := Urandomb(nbits);
      var g := Gcd(e, totient);
      if g == 1 {
        return Generated(p.value, q.value, n, e), pBits, pWitnesses, qWitnesses;
      }
      draws := draws + 1;
    }
    return OutOfFuel, pBits, pWitnesses, qWitnesses;
  }

  /** `rsa_make_priv(d, e, p, q)`: the inverse of e modulo the totient.  For
      distinct primes and an e coprime with the totient it completes a valid
      key; for an e that is not coprime it is 0. */
  method MakePriv(e: int, p: int, q: int) returns (d: int)
    ensures e >= 0 && Totient(p, q) > 1 && Coprime(e, Totient(p, q)) ==>
      0 < d < Totient(p, q) && (e * d) % Totient(p, q) == 1
    ensures e >= 0 && Totient(p, q) > 0 && !Coprime(e, Totient(p, q)) ==> d == 0
    ensures e >= 0 && IsPrimeNumber(p) && IsPrimeNumber(q) && p != q && Coprime(e, Totient(p, q)) ==>
      ValidKey(p, q, e, d)
  {
    var totient := (p - 1) * (q - 1);
    d := ModInverse(e, totient);
    if IsPrimeNumber(p) && IsPrimeNumber(q) && p != q {
      TotientOfDistinctPrimes(p, q);
    }
  }

  /** Two distinct primes have a totient above 1. */
  lemma TotientOfDistinctPrimes(p: int, q: int)
    requires IsPrimeNumber(p) && IsPrimeNumber(q) && p != q
    ensures Totient(p, q) > 1
  {
    if p < q {
      MulMonotone(1, p - 1, 2);
      MulMonotone(2, q - 1, p - 1);
    } else {
      MulMonotone(1, q - 1, 2);
      MulMonotone(2, p - 1, q - 1);
    }
  }

  // ---------------------------------------------------------------------
  // Numbers

  /** `rsa_encrypt(c, m, e, n)`: c = m^e mod n. */
  method Encrypt(m: int, e: int, n: int) returns (c: int)
    requires e <= 0 || n != 0
    ensures c == ModPow(m, e, n)
  {
    c := PowMod(m, e, n);
  }

  /** `rsa_decrypt(m, c, d, n)`: m = c^d mod n. */
  method Decrypt(c: int, d: int, n: int) returns (m: int)
    requires d <= 0 || n != 0
    ensures m == ModPow(c, d, n)
  {
    m := PowMod(c, d, n);
  }

  /** `rsa_sign(s, m, d, n)`: s = m^d mod n. */
  method Sign(m: int, d: int, n: int) returns (s: int)
    requires d <= 0 || n != 0
    ensures s == ModPow(m, d, n)
  {
    s := PowMod(m, d, n);
  }

  /** `rsa_verify(m, s, e, n)`: accept exactly when s^e mod n is m. */
  method Verify(m: int, s: int, e: int, n: int) returns (ok: bool)
    requires e <= 0 || n != 0
    ensures ok <==> ModPow(s, e, n) == m
  {
    var t := PowMod(s, e, n);
    if m != t {
      return false;
    }
    return true;
  }

  /** Both exponents of a valid key are positive. */
  lemma ValidKeyExponents(p: int, q: int, e: int, d: int)
    requires ValidKey(p, q, e, d)
    ensures e >= 1 && d >= 1
  {
    TotientOfDistinctPrimes(p, q);
    ModUnique(1, Totient(p, q), 0, 1);
    if e == 0 || d == 0 {
      assert e * d == 0;
      ModUnique(0, Totient(p, q), 0, 0);
      assert false;
    }
  }

  /** Decrypting with d what was encrypted with e gives back every message
      below n = p q; so does applying e to what d produced. */
  lemma RoundTrip(p: int, q: int, e: int, d: int, m: int)
    requires ValidKey(p, q, e, d) && 0 <= m < p * q
    ensures ModPow(ModPow(m, e, p * q), d, p * q) == m
    ensures ModPow(ModPow(m, d, p * q), e, p * q) == m
  {
    ValidKeyExponents(p, q, e, d);
    var n := p * q;
    PowModBase(Pow(m, e), d, n);
    PowMul(m, e, d);
    RsaIdentity(p, q, e * d, m);
    PowModBase(Pow(m, d), e, n);
    PowMul(m, d, e);
    assert d * e == e * d;
  }

  /** A message signed with d passes verification with e exactly when it is
      below n: a larger message comes back reduced modulo n. */
  lemma SignVerify(p: int, q: int, e: int, d: int, m: int)
    requires ValidKey(p, q, e, d) && m >= 0
    ensures ModPow(ModPow(m, d, p * q), e, p * q) == m <==> m < p * q
  {
    ValidKeyExponents(p, q, e, d);
    if m < p * q {
      RoundTrip(p, q, e, d, m);
    }
  }

  /** For a valid key, s is accepted as the signature of m below n exactly
      when s is the signature of m: there is no other signature to forge. */
  lemma SignatureUnique(p: int, q: int, e: int, d: int, m: int, s: int)
    requires ValidKey(p, q, e, d) && 0 <= m < p * q && 0 <= s < p * q
    ensures ModPow(s, e, p * q) == m <==> s == ModPow(m, d, p * q)
  {
    RoundTrip(p, q, e, d, m);
    RoundTrip(p, q, e, d, s);
  }

  /** The textbook key p = 61, q = 53, e = 17, d = 2753 is valid. */
  lemma TextbookKeyValid()
    ensures ValidKey(61, 53, 17, 2753)
  {
    forall x | 2 <= x < 61
      ensures 61 % x != 0
    {
    }
    forall x | 2 <= x < 53
      ensures 53 % x != 0
    {
    }
    assert Totient(61, 53) == 3120;
    ModUnique(17 * 2753, 3120, 15, 1);
  }

  /** With the textbook key, 65 encrypts to 2790, which decrypts to 65. */
  lemma TextbookRoundTrip()
    ensures ModPow(65, 17, 3233) == 2790
    ensures ModPow(2790, 2753, 3233) == 65
  {
    var x := 65;
    assert Pow(x, 2) == 4225;
    assert Pow(x, 4) == Pow(x, 2) * Pow(x, 2) by { PowAdd(x, 2, 2); }
    assert Pow(x, 8) == Pow(x, 4) * Pow(x, 4) by { PowAdd(x, 4, 4); }
    assert Pow(x, 16) == Pow(x, 8) * Pow(x, 8) by { PowAdd(x, 8, 8); }
    assert Pow(x, 17) == x * Pow(x, 16);
    assert Pow(x, 17) % 3233 == 2790;
    TextbookKeyValid();
    RoundTrip(61, 53, 17, 2753, 65);
  }

  // ---------------------------------------------------------------------
  // Files

  /** The block size both file codecs compute from n: the most whole bytes
      that fit in one bit fewer than n has. */
  function BlockSize(n: nat): (k: nat)
    ensures 8 * k <= SizeInBase2(n) - 1 < 8 * k + 8
  {
    (SizeInBase2(n) - 1) / 8
  }

  /** A block of BlockSize(n) bytes, read as a number, is below n. */
  lemma BlockFits(n: nat)
    requires n >= 1
    ensures Pow(256, BlockSize(n)) <= n
  {
    var k := BlockSize(n);
    SizeInBase2Bounds(n);
    PowMul(2, 8, k);
    assert Pow(2, 8) == 256;
    PowMonotone(2, 8 * k, SizeInBase2(n) - 1);
  }

  /** The pieces successive `fread` calls of c bytes return until one comes
      back short: full pieces of c bytes, then the short rest (possibly
      empty, when the length is a multiple of c). */
  function Chunks(bs: seq<byte>, c: nat): (r: seq<seq<byte>>)
    requires c >= 1
    decreases |bs|
  {
    if |bs| < c then [bs] else [bs[..c]] + Chunks(bs[c..], c)
  }

  /** There are |bs| / c + 1 pieces: all but the last have c bytes, and the
      last has the remaining |bs| % c. */
  lemma {:induction false} ChunksShape(bs: seq<byte>, c: nat)
    requires c >= 1
    ensures var r := Chunks(bs, c);
      |r| == |bs| / c + 1 && (forall i :: 0 <= i < |r| - 1 ==> |r[i]| == c)
      && |r[|r| - 1]| == |bs| % c
    decreases |bs|
  {
    if |bs| < c {
      ModUnique(|bs|, c, 0, |bs|);
    } else {
      var rest := bs[c..];
      ChunksShape(rest, c);
      ModUnique(|bs|, c, |rest| / c + 1, |rest| % c);
      assert Chunks(bs, c)[1..] == Chunks(rest, c);
    }
  }

  function Flatten(r: seq<seq<byte>>): seq<byte>
  {
    if r == [] then [] else r[0] + Flatten(r[1..])
  }

  /** Concatenating the pieces gives back the input. */
  lemma {:induction false} ChunksFlatten(bs: seq<byte>, c: nat)
    requires c >= 1
    ensures Flatten(Chunks(bs, c)) == bs
    decreases |bs|
  {
    if |bs| >= c {
      ChunksFlatten(bs[c..], c);
      var r := Chunks(bs, c);
      assert r[1..] == Chunks(bs[c..], c);
      assert bs[..c] + bs[c..] == bs;
    }
  }

  /** The ciphertexts `rsa_encrypt_file` writes: each piece, behind a 0xFF
      byte, read as a number and encrypted. */
  function EncryptBlocks(chunks: seq<seq<byte>>, e: int, n: int): (cs: seq<int>)
    requires e <= 0 || n != 0
    ensures |cs| == |chunks|
  {
    if chunks == [] then []
    else [ModPow(Import([0xFF] + chunks[0]), e, n)] + EncryptBlocks(chunks[1..], e, n)
  }

  /** The bytes `rsa_decrypt_file` writes: each ciphertext decrypted and
      exported, without its first byte. */
  function DecryptBlocks(cs: seq<int>, d: int, n: int): (r: seq<byte>)
    requires d <= 0 || n != 0
    requires forall i :: 0 <= i < |cs| ==> ModPow(cs[i], d, n) > 0
  {
    if cs == [] then []
    else Export(ModPow(cs[0], d, n))[1..] + DecryptBlocks(cs[1..], d, n)
  }

  /** Each ciphertext is decrypted on its own: decrypting two runs of
      ciphertexts one after the other writes the concatenation of what each
      run writes. */
  lemma {:induction false} DecryptBlocksAppend(a: seq<int>, b: seq<int>, d: int, n: int)
    requires d <= 0 || n != 0
    requires forall i :: 0 <= i < |a| ==> ModPow(a[i], d, n) > 0
    requires forall i :: 0 <= i < |b| ==> ModPow(b[i], d, n) > 0
    ensures forall i :: 0 <= i < |a + b| ==> ModPow((a + b)[i], d, n) > 0
    ensures DecryptBlocks(a + b, d, n) == DecryptBlocks(a, d, n) + DecryptBlocks(b, d, n)
    decreases |a|
  {
    if a == [] {
      assert a + b == b;
    } else {
      var ab := a + b;
      assert ab[0] == a[0] && ab[1..] == a[1..] + b;
      DecryptBlocksAppend(a[1..], b, d, n);
    }
  }

  /** A piece of at most k - 1 bytes behind 0xFF makes a positive number
      below n that exports back to the same bytes. */
  lemma BlockValue(ch: seq<byte>, n: nat)
    requires n >= 1 && |ch| + 1 <= BlockSize(n)
    ensures 0 < Import([0xFF] + ch) < n
    ensures Export(Import([0xFF] + ch)) == [0xFF] + ch
  {
    var b := [0xFF] + ch;
    ExportImport(b);
    BlockFits(n);
    PowMonotone(256, |b|, BlockSize(n));
  }

  /** Decrypting the blocks of the encrypted pieces with a valid key gives
      back the concatenated pieces, and every decrypted block fits the
      decryption buffer. */
  lemma {:induction false} BlocksRoundTrip(p: int, q: int, e: int, d: int, chunks: seq<seq<byte>>)
    requires ValidKey(p, q, e, d)
    requires forall i :: 0 <= i < |chunks| ==> |chunks[i]| + 1 <= BlockSize(p * q)
    ensures var cs := EncryptBlocks(chunks, e, p * q);
      forall i :: 0 <= i < |cs| ==>
        ModPow(cs[i], d, p * q) > 0 && |Export(ModPow(cs[i], d, p * q))| <= BlockSize(p * q)
    ensures DecryptBlocks(EncryptBlocks(chunks, e, p * q), d, p * q) == Flatten(chunks)
    decreases |chunks|
  {
    var n := p * q;
    assert p >= 2 && q >= 2;
    MulMonotone(2, q, p);
    if chunks != [] {
      var cs := EncryptBlocks(chunks, e, n);
      BlockValue(chunks[0], n);
      RoundTrip(p, q, e, d, Import([0xFF] + chunks[0]));
      BlocksRoundTrip(p, q, e, d, chunks[1..]);
      assert cs[1..] == EncryptBlocks(chunks[1..], e, n);
    }
  }

  /** Encrypting a file and decrypting the result with a valid key whose
      block size is at least 2 gives back the file's bytes. */
  lemma FileRoundTrip(p: int, q: int, e: int, d: int, bs: seq<byte>)
    requires ValidKey(p, q, e, d) && BlockSize(p * q) >= 2
    ensures var cs := EncryptBlocks(Chunks(bs, BlockSize(p * q) - 1), e, p * q);
      (forall i :: 0 <= i < |cs| ==>
         ModPow(cs[i], d, p * q) > 0 && |Export(ModPow(cs[i], d, p * q))| <= BlockSize(p * q))
      && DecryptBlocks(cs, d, p * q) == bs
  {
    var chunks := Chunks(bs, BlockSize(p * q) - 1);
    ChunksShape(bs, BlockSize(p * q) - 1);
    BlocksRoundTrip(p, q, e, d, chunks);
    ChunksFlatten(bs, BlockSize(p * q) - 1);
  }

  /** Encrypting the pieces of a rest of the input: the first piece, then
      (unless it was the short one) the pieces after it. */
  lemma EncryptChunksStep(rest: seq<byte>, c: nat, e: int, n: int)
    requires c >= 1 && (e <= 0 || n != 0)
    ensures |rest| < c ==>
      EncryptBlocks(Chunks(rest, c), e, n) == [ModPow(Import([0xFF] + rest), e, n)]
    ensures |rest| >= c ==>
      EncryptBlocks(Chunks(rest, c), e, n)
      == [ModPow(Import([0xFF] + rest[..c]), e, n)] + EncryptBlocks(Chunks(rest[c..], c), e, n)
  {
    if |rest| >= c {
      assert Chunks(rest, c)[1..] == Chunks(rest[c..], c);
    }
  }

  /** `fread(block + 1, 1, count, infile)` with the file at pos: copy up to
      count bytes behind the first byte of block; fewer come back only at
      the end of the file. */
  method ReadChunk(input: seq<byte>, pos: nat, block: array<byte>, count: nat) returns (j: nat)
    requires pos <= |input| && count + 1 <= block.Length
    modifies block
    ensures j == if |input| - pos < count then |input| - pos else count
    ensures block[0] == old(block[0]) && block[..j + 1] == [block[0]] + input[pos..pos + j]
    ensures block[j + 1..] == old(block[j + 1..])
  {
    j := if |input| - pos < count then |input| - pos else count;
    forall i | 0 <= i < j {
      block[i + 1] := input[pos + i];
    }
  }

  /** One pass of the loop body of `rsa_encrypt_file`: read up to
      block.Length - 1 bytes behind the 0xFF byte, read the block as a
      number and encrypt it. */
  method EncryptNextBlock(input: seq<byte>, pos: nat, block: array<byte>, e: int, n: int)
    returns (j: nat, c: int)
    requires pos <= |input| && block.Length >= 2 && block[0] == 0xFF && (e <= 0 || n != 0)
    modifies block
    ensures j == if |input| - pos < block.Length - 1 then |input| - pos else block.Length - 1
    ensures block[0] == 0xFF
    ensures block[..j + 1] == [0xFF] + input[pos..pos + j] && block[j + 1..] == old(block[j + 1..])
    ensures c == ModPow(Import([0xFF] + input[pos..pos + j]), e, n)
  {
    j := ReadChunk(input, pos, block, block.Length - 1);
    var m := Import(block[..j + 1]);
    c := Encrypt(m, e, n);
  }

  /** The invariant of the loop of `rsa_encrypt_file` at position pos: the
      ciphertexts done, followed by those of the pieces of input[pos..] in
      blocks of c bytes, are all the ciphertexts of the file. */
  ghost predicate Pending(input: seq<byte>, pos: nat, c: nat, e: int, n: int, done: seq<int>, all: seq<int>)
  {
    pos <= |input| && c >= 1 && (e <= 0 || n != 0)
    && done + EncryptBlocks(Chunks(input[pos..], c), e, n) == all
  }

  /** The loop of `rsa_encrypt_file` keeps its invariant: with done written
      and the ciphertexts of the rest of the input still to come, writing the
      ciphertext of the block read at pos leaves (after a full read) the
      ciphertexts of what follows, or (after a short read) nothing. */
  lemma EncryptLoopStep(input: seq<byte>, pos: nat, j: nat, c: nat, e: int, n: int,
                        done: seq<int>, all: seq<int>)
    requires pos <= |input| && c >= 1 && (e <= 0 || n != 0)
    requires j == if |input| - pos < c then |input| - pos else c
    requires Pending(input, pos, c, e, n, done, all)
    ensures var first := ModPow(Import([0xFF] + input[pos..pos + j]), e, n);
      (j < c ==> done + [first] == all)
      && (j == c ==> Pending(input, pos + j, c, e, n, done + [first], all))
  {
    var rest := input[pos..];
    var first := ModPow(Import([0xFF] + input[pos..pos + j]), e, n);
    EncryptChunksStep(rest, c, e, n);
    assert input[pos..pos + j] == rest[..j];
    if j < c {
      assert rest[..j] == rest;
    } else {
      assert input[pos + j..] == rest[c..];
      var later := EncryptBlocks(Chunks(rest[c..], c), e, n);
      assert (done + [first]) + later == done + ([first] + later);
    }
  }

  /** `rsa_encrypt_file(infile, outfile, n, e)`: with k = BlockSize(n), read
      k - 1 bytes at a time into a block whose first byte is 0xFF, and write
      the encryption of the block until a read comes back short.  The
      ciphertexts written are those of the pieces of the input, one more than
      the number of full pieces. */
  method EncryptFile(input: seq<byte>, n: nat, e: int) returns (output: seq<int>)
    requires BlockSize(n) >= 2
    ensures output == EncryptBlocks(Chunks(input, BlockSize(n) - 1), e, n)
    ensures |output| == |input| / (BlockSize(n) - 1) + 1
  {
    var k := BlockSize(n);
    var block := new byte[k];
    block[0] := 0xFF;
    var pos, eof := 0, false;
    output := [];
    ghost var all := EncryptBlocks(Chunks(input, k - 1), e, n);
    while !eof
      invariant 0 <= pos <= |input| && block.Length == k && block[0] == 0xFF
      invariant !eof ==> Pending(input, pos, k - 1, e, n, output, all)
      invariant eof ==> output == all
      decreases |input| - pos, if eof then 0 else 1
    {
      var j, c := EncryptNextBlock(input, pos, block, e, n);
      eof := j < k - 1;
      EncryptLoopStep(input, pos, j, k - 1, e, n, output, all);
      output := output + [c];
      pos := pos + j;
    }
    ChunksShape(input, k - 1);
  }

  /** `mpz_export(block, &j, 1, 1, 1, 0, m)`: write the bytes of m to the
      front of block and count them. */
  method ExportInto(block: array<byte>, m: nat) returns (j: nat)
    requires |Export(m)| <= block.Length
    modifies block
    ensures j == |Export(m)| && block[..j] == Export(m)
    ensures block[j..] == old(block[j..])
  {
    var bs := Export(m);
    forall i | 0 <= i < |bs| {
      block[i] := bs[i];
    }
    j := |bs|;
  }

  /** `rsa_decrypt_file(infile, outfile, n, d)`: decrypt each ciphertext,
      export it into a block of BlockSize(n) bytes and write the block
      without its first byte.  The C code needs every decrypted value to be
      positive (an export of 0 bytes makes the count of bytes written wrap
      around) and to fit the block, and it needs at least one ciphertext (on
      an empty file the failed scan leaves c at 0, which decrypts to 0). */
  method DecryptFile(input: seq<int>, n: nat, d: int) returns (output: seq<byte>)
    requires d <= 0 || n > 0
    requires |input| >= 1
    requires forall i :: 0 <= i < |input| ==>
      ModPow(input[i], d, n) > 0 && |Export(ModPow(input[i], d, n))| <= BlockSize(n)
    ensures output == DecryptBlocks(input, d, n)
  {
    var k := BlockSize(n);
    var block := new byte[k];
    output := [];
    var i := 0;
    while i < |input|
      invariant 0 <= i <= |input| && block.Length == k
      invariant output + DecryptBlocks(input[i..], d, n) == DecryptBlocks(input, d, n)
    {
      var m := Decrypt(input[i], d, n);
      var j := ExportInto(block, m);
      output := output + block[1..j];
      assert input[i..][1..] == input[i + 1..];
      i := i + 1;
    }
  }
}
