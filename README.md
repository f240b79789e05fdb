# Textbook RSA over GMP integers: a verified model

This project models the core of a small RSA library written in C on top of
GMP, and proves what the library promises.

The library has two parts:

- The number-theory engine (`encryption/c_files/numtheory.c`). It has
  Euclid's algorithm, the modular inverse by the extended Euclidean
  algorithm, square-and-multiply modular exponentiation, the Miller-Rabin
  test, and a rejection loop that draws primes of a given bit length.
- The RSA layer (`asgn6/rsa.c`). It has key generation, encryption and
  decryption of numbers, signing and verification, and a block codec. The
  codec turns a byte stream into ciphertexts and back: up to k - 1 bytes go
  behind a 0xFF sentinel byte, and k = (bits of n - 1) / 8.

Every GMP integer is a Dafny `int`. GMP's `mpz_mod` result is never negative,
and neither is Dafny's `%`, so the model uses `%` wherever the C code calls
`mpz_mod`.

The GMP primitives the core calls are in `gmp.dfy`. Each one carries the
contract GMP documents for it:

- `mpz_sizeinbase(x, 2)`
- `mpz_fdiv_q`
- `mpz_import` and `mpz_export`, with one-byte words, most significant first
- the random draws `mpz_urandomm` and `mpz_urandomb`

A draw is a nondeterministic choice within its documented range. The
library's rejection loops have no bound. In the model each such loop gets a
`fuel` parameter, and running out of fuel is a separate result.

Code that works step by step is modelled as methods with loops. Each method is
proved against a specification function: `ModPow`, `TwoAdic`,
`StrongProbablePrime`, `Chunks`, `EncryptBlocks` and `DecryptBlocks`. The
number theory those specifications need is proved in `arith.dfy` and
`primes.dfy`:

- Euclid's lemma
- the binomial theorem
- Fermat's little theorem
- the square roots of 1 modulo a prime
- the RSA identity m^(ed) = m (mod pq)

Where the code and its design description disagree, the model follows the
code:

- `gcd(a, b)` with b <= 0 returns 0, the value its temporary was initialised
  with, not a. In particular gcd(a, 0) = 0.
- `rsa_make_pub` draws p's bit count with `mpz_urandomm`, so the count is in
  the half-open range [nbits/4, 3*nbits/4). With nbits = 2 that range is {0},
  and `make_prime(0)` never succeeds.
- `is_prime(n, iters)` runs iters - 1 random rounds, not iters. With
  iters <= 1 it accepts every odd n >= 5.
- `make_prime(bits)` draws bits + 1 random bits and insists on bits + 1
  binary digits. Its result therefore lies in [2^bits, 2^(bits+1)).
- `pow_mod` with an exponent d <= 0 returns 1 without reducing it modulo n.

## Model

| member | source | states |
|---|---|---|
| NumTheory.EuclidStep | encryption/c_files/numtheory.c:18-27 | one step of the Euclidean loop keeps the common divisors of the original pair |
| NumTheory.Gcd | encryption/c_files/numtheory.c:5-35 | for b > 0 the result is the greatest common divisor of a and b (its divisors are exactly the common divisors); for b <= 0 it is 0 |
| NumTheory.BezoutStep | encryption/c_files/numtheory.c:60-79 | each remainder stays t*a + s*n after the parallel update of r and t |
| NumTheory.CoefficientStep | encryption/c_files/numtheory.c:60-79 | the update keeps the remainders non-negative and shrinking, and keeps \|t\| times the previous remainder at most n |
| NumTheory.ExtendedExit | encryption/c_files/numtheory.c:81-94 | at the loop exit r is gcd(a, n), a and n are coprime exactly when r == 1, and then t moved into [0, n) is the inverse of a |
| NumTheory.InverseFromBezout | encryption/c_files/numtheory.c:88-94 | a Bezout coefficient smaller than n in magnitude, moved into [0, n), is an inverse of a lying in (0, n) |
| NumTheory.ModInverse | encryption/c_files/numtheory.c:39-99 | for a >= 0 and n > 1, coprime inputs give o in (0, n) with a*o = 1 (mod n); for a >= 0 and n > 0, non-coprime inputs give 0 |
| NumTheory.SquareMultiplyStep | encryption/c_files/numtheory.c:117-132 | squaring p and halving d, with v multiplied by p for an odd d, keeps v * p^d congruent to a^d modulo n |
| NumTheory.PowMod | encryption/c_files/numtheory.c:102-139 | the result is a^d mod n, in [0, \|n\|), for d > 0, and 1 for d <= 0 |
| NumTheory.TwoAdic | encryption/c_files/numtheory.c:183-187 | m = 2^s * r with r odd, and s >= 1 for an even m |
| NumTheory.HalveToOdd | encryption/c_files/numtheory.c:183-187 | the halving loop finds the pair (s, r) with n - 1 = 2^s * r and r odd |
| NumTheory.OneNeverReaches | encryption/c_files/numtheory.c:205-213 | once the running power is 1, no number of squarings reaches n - 1, so returning composite is right |
| NumTheory.WitnessRound | encryption/c_files/numtheory.c:197-223 | one round passes exactly when n is a strong probable prime to base a |
| NumTheory.SquareChain | encryption/c_files/numtheory.c:204-222 | modulo a prime, a number other than 1 whose 2^(k+1)-th power is 1 reaches n - 1 within k squarings |
| NumTheory.MillerRabinSound | encryption/c_files/numtheory.c:192-224 | every witness in [2, n - 2] passes the round when n is prime |
| NumTheory.IsPrime | encryption/c_files/numtheory.c:143-231 | 2 and 3 are accepted; 0, 1 and even n other than 2 are rejected; every witness is in [2, n - 2]; the verdict is the Miller-Rabin verdict on the witnesses drawn; a rejection of an odd n >= 5 comes at most Rounds(iters) draws in, right after the first witness that fails, all earlier ones having passed; no prime is rejected; with iters <= 1 every odd n >= 5 is accepted |
| NumTheory.NineWitness | encryption/c_files/numtheory.c:197-223 | every base in [2, 7] shows that 9 is composite |
| NumTheory.NineIsRejected | encryption/c_files/numtheory.c:192-224 | with at least one round, 9 is rejected whatever witnesses are drawn |
| NumTheory.Rounds | encryption/c_files/numtheory.c:192 | the number of rounds is the number of passes of the loop whose counter runs from 1 while below iters (so iters - 1, and 0 for iters = 0) |
| NumTheory.MakePrime | encryption/c_files/numtheory.c:235-243 | an accepted candidate lies in [2^bits, 2^(bits+1)) and passed the test on the witnesses drawn for it; with bits == 0 nothing is ever accepted |
| Gmp.SizeInBase2 | encryption/c_files/numtheory.c:241 | `mpz_sizeinbase(x, 2)` is at least 1, also for 0; its exact bounds are in SizeInBase2Bounds |
| Gmp.SizeInBase2Bounds | encryption/c_files/numtheory.c:241 | a positive x with s binary digits lies in [2^(s-1), 2^s) |
| Gmp.SizeInBase2AtLeast | encryption/c_files/numtheory.c:241 | x has at least b + 1 binary digits exactly when x >= 2^b |
| Gmp.FdivQ | encryption/c_files/numtheory.c:62 | the quotient is rounded towards minus infinity: the remainder has the divisor's sign and is smaller than the divisor in magnitude |
| Gmp.Urandomm | encryption/c_files/numtheory.c:194 | a draw from [0, bound) |
| Gmp.Urandomb | encryption/c_files/numtheory.c:240 | a draw from [0, 2^bits) |
| Gmp.Import | asgn6/rsa.c:134 | j bytes read as a big-endian number are below 256^j |
| Gmp.Export | asgn6/rsa.c:170 | 0 exports to no bytes, and the first byte of a positive number's export is never 0 |
| Gmp.ImportExport | asgn6/rsa.c:170 | importing the exported bytes of v gives back v |
| Gmp.ExportImport | asgn6/rsa.c:134 | bytes with a non-zero first byte survive an import followed by an export |
| Rsa.ProductBounds | asgn6/rsa.c:33-35 | an (a+1)-bit p times a (b+1)-bit q lies in [2^(a+b), 2^(a+b+2)) |
| Rsa.MakePub | asgn6/rsa.c:8-51 | p's bit count is in [nbits/4, 3nbits/4); p and q have that many plus one, and q the remaining bits plus one; both passed the test; n = p*q lies in [2^nbits, 2^(nbits+2)); e is below 2^nbits and coprime with (p-1)(q-1); nbits == 2 never yields a key |
| Rsa.Totient | asgn6/rsa.c:38-40 | (p - 1)(q - 1) lies in [1, p q) whenever p, q >= 2 |
| Rsa.TotientOfDistinctPrimes | asgn6/rsa.c:79-81 | two distinct primes have a totient above 1 |
| Rsa.MakePriv | asgn6/rsa.c:74-89 | for an e coprime with the totient, d is its inverse in (0, totient), which completes a valid key when p and q are distinct primes; otherwise d is 0 |
| Rsa.Encrypt | asgn6/rsa.c:110-113 | c = m^e mod n |
| Rsa.Decrypt | asgn6/rsa.c:147-150 | m = c^d mod n |
| Rsa.Sign | asgn6/rsa.c:181-184 | s = m^d mod n |
| Rsa.Verify | asgn6/rsa.c:187-198 | accepts exactly when s^e mod n equals m |
| Rsa.ValidKeyExponents | asgn6/rsa.c:74-89 | both exponents of a valid key are at least 1 |
| Rsa.RoundTrip | asgn6/rsa.c:110-150 | with a valid key, decrypting what was encrypted gives back every m in [0, n), and so does applying e to what d produced |
| Rsa.SignVerify | asgn6/rsa.c:181-198 | with a valid key, the signature of m >= 0 verifies exactly when m < n |
| Rsa.SignatureUnique | asgn6/rsa.c:187-198 | with a valid key, s in [0, n) verifies for m in [0, n) exactly when s is the signature of m |
| Rsa.TextbookKeyValid | asgn6/rsa.c:74-89 | p = 61, q = 53, e = 17, d = 2753 is a valid key |
| Rsa.TextbookRoundTrip | asgn6/rsa.c:110-150 | with that key 65 encrypts to 2790, and 2790 decrypts to 65 |
| Rsa.BlockSize | asgn6/rsa.c:124 | k is the number of whole bytes in one bit fewer than n has: 8k <= bits(n) - 1 < 8k + 8 |
| Rsa.BlockFits | asgn6/rsa.c:124 | 256^k is at most n, so a block of k bytes read as a number is below n |
| Rsa.Chunks | asgn6/rsa.c:132-137 | the pieces successive reads of k - 1 bytes return until one comes back short; their shape and concatenation are proved in ChunksShape and ChunksFlatten |
| Rsa.ChunksShape | asgn6/rsa.c:132-137 | the reads give \|input\| / (k-1) + 1 pieces: all but the last are full, and the last holds the remaining \|input\| mod (k-1) bytes (possibly none) |
| Rsa.ChunksFlatten | asgn6/rsa.c:132-137 | the pieces concatenate to the input |
| Rsa.EncryptBlocks | asgn6/rsa.c:132-137 | one ciphertext per piece |
| Rsa.DecryptBlocks | asgn6/rsa.c:167-172 | the bytes the decryption loop writes: each ciphertext decrypted, exported and stripped of its first byte, in order; DecryptBlocksAppend states that the lines are decrypted independently |
| Rsa.DecryptBlocksAppend | asgn6/rsa.c:167-172 | decrypting two runs of ciphertexts one after the other writes the concatenation of what each run writes |
| Rsa.BlockValue | asgn6/rsa.c:128-134 | a piece of at most k - 1 bytes behind 0xFF is a positive number below n that exports to the same bytes |
| Rsa.BlocksRoundTrip | asgn6/rsa.c:116-178 | with a valid key, every decrypted block is positive and fits k bytes, and the decrypted blocks give back the concatenated pieces |
| Rsa.FileRoundTrip | asgn6/rsa.c:116-178 | with a valid key and k >= 2, decrypting the encrypted file gives back its bytes, and every block meets the decryption's demands |
| Rsa.EncryptChunksStep | asgn6/rsa.c:132-137 | the ciphertexts of the rest of the input are that of its first piece, then (after a full piece) those of what follows |
| Rsa.ReadChunk | asgn6/rsa.c:133 | the read copies min(count, remaining) bytes behind the first byte of the block, and leaves the first byte and every byte after those copied unchanged |
| Rsa.EncryptNextBlock | asgn6/rsa.c:133-135 | one pass of the loop leaves 0xFF followed by the bytes read at the head of the block, leaves the rest of the block unchanged, and returns the ciphertext of those head bytes |
| Rsa.EncryptLoopStep | asgn6/rsa.c:132-137 | the loop invariant (written ciphertexts followed by those of the rest are all of them) survives a full read, and a short read completes the output |
| Rsa.EncryptFile | asgn6/rsa.c:116-143 | the output is the ciphertexts of the pieces of the input, \|input\| / (k-1) + 1 of them |
| Rsa.ExportInto | asgn6/rsa.c:170 | the block starts with the export of m, j is its length, and the bytes after it are unchanged |
| Rsa.DecryptFile | asgn6/rsa.c:153-178 | for a non-empty ciphertext file, the output is each ciphertext decrypted and exported, without its first byte, in order |

## Left out

- The seeded Mersenne Twister in `encryption/c_files/randstate.c` is not
  modelled. A draw is any value in the range GMP documents.
- Reading and writing key files (`rsa_write_pub`, `rsa_read_pub`,
  `rsa_write_priv`, `rsa_read_priv`) and hexadecimal text I/O are not
  modelled. Their only logic is formatted I/O. The file codecs take and
  return sequences instead of `FILE *` handles.
- The command-line drivers `keygen.c`, `encrypt.c` and `decrypt.c` are not
  part of this model. That includes the signature of the user name.
- Memory management (`mpz_inits`/`mpz_clears`, `calloc`/`free`) is not
  modelled.
- NumTheory.MakePrime: the source loops until a candidate is accepted. The
  model stops after fuel draws and returns None, so it does not state that a
  prime is eventually found.
- Rsa.MakePub: the source's loops run without a bound. The model gives each
  loop fuel draws and returns OutOfFuel when they are spent.
- NumTheory.IsPrime: n is a natural number, so negative n is not modelled.
  For a negative odd n with iters <= 1 the source runs no round and accepts
  n; for example is_prime(-1, 1) returns true, because the halving turns
  r = -2 into -1 and the loop never runs. With iters >= 2 it calls
  `mpz_urandomm` with the negative range n - 3, which GMP does not define.
- Rsa.MakePub: requires nbits >= 2. For nbits < 2 the source calls
  `mpz_urandomm` with the range 0, which GMP does not define.
- NumTheory.MakePrime: `bits + 1` is computed in unbounded integers. The
  source's 64-bit `bits + 1` wraps only for bits = 2^64 - 1, and the model
  leaves that case out.
- Rsa.EncryptFile: requires k >= 2. With k = 0 the source writes outside its
  zero-byte block. With k = 1 every read asks for 0 bytes and never reaches
  the end of the file.
- Rsa.DecryptFile: requires every decrypted value to be positive and to
  export to at most k bytes. For 0, the count of bytes written, `j - 1`,
  wraps around as an unsigned number. A longer export overruns the block.
- Rsa.DecryptFile: requires at least one ciphertext. On an empty file the
  loop body still runs once, the failed scan leaves c at 0, and decrypting 0
  asks `fwrite` for 2^64 - 1 bytes through the same wrap-around.
- NumTheory.PowMod: requires d <= 0 or n != 0. With n = 0 and d > 0, GMP's
  `mpz_mod` divides by zero and aborts the program, which the model does not
  represent.
- Rsa.Encrypt: requires e <= 0 or n != 0, for the division by zero of
  NumTheory.PowMod.
- Rsa.Decrypt: requires d <= 0 or n != 0, for the same reason.
- Rsa.Sign: requires d <= 0 or n != 0, for the same reason.
- Rsa.Verify: requires e <= 0 or n != 0, for the same reason.
- Probabilistic claims are not modelled: there is no error bound of
  4^(-iters) and no uniformity of the draws. The model proves only that the
  test never rejects a prime and that its verdict is the Miller-Rabin verdict
  on the witnesses drawn.
