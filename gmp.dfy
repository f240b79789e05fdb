/** The GMP primitives the core calls, with the behaviour the library
    documents for them: `mpz_sizeinbase(x, 2)`, `mpz_fdiv_q`, `mpz_import` and
    `mpz_export` with one-byte words, most significant first, and the two
    random draws `mpz_urandomm` and `mpz_urandomb`.  The seeded Mersenne
    Twister behind the draws is not modelled: a draw may return any value in
    the documented range. */
module Gmp {
  import opened Arith

  type byte = x: int | 0 <= x < 256

  /** `mpz_sizeinbase(x, 2)`: the number of binary digits of x, and 1 for 0. */
  function SizeInBase2(x: nat): (r: nat)
    ensures r >= 1
  {
    if x < 2 then 1 else 1 + SizeInBase2(x / 2)
  }

  lemma {:induction false} SizeInBase2Bounds(x: nat)
    requires x >= 1
    ensures Pow(2, SizeInBase2(x) - 1) <= x < Pow(2, SizeInBase2(x))
    decreases x
  {
    if x >= 2 {
      SizeInBase2Bounds(x / 2);
      var s := SizeInBase2(x / 2);
      assert SizeInBase2(x) == s + 1;
      assert Pow(2, s) == 2 * Pow(2, s - 1);
      assert Pow(2, s + 1) == 2 * Pow(2, s);
    }
  }

  /** x has at least b + 1 binary digits exactly when x >= 2^b. */
  lemma SizeInBase2AtLeast(x: nat, b: nat)
    requires x >= 1
    ensures SizeInBase2(x) >= b + 1 <==> x >= Pow(2, b)
  {
    SizeInBase2Bounds(x);
    var s := SizeInBase2(x);
    if s >= b + 1 {
      PowMonotone(2, b, s - 1);
    } else {
      PowMonotone(2, s, b);
    }
  }

  /** `mpz_fdiv_q(q, x, y)`: the quotient rounded towards minus infinity. */
  function FdivQ(x: int, y: int): (q: int)
    requires y != 0
    ensures y > 0 ==> 0 <= x - q * y < y
    ensures y < 0 ==> y < x - q * y <= 0
  {
    if y > 0 then x / y else (-x) / (-y)
  }

  /** `mpz_import(v, |bs|, 1, 1, 1, 0, bs)`: bs read as a big-endian number. */
  function Import(bs: seq<byte>): (v: nat)
    ensures v < Pow(256, |bs|)
    decreases |bs|
  {
    if |bs| == 0 then 0
    else
      var w := Import(bs[..|bs| - 1]);
      assert Pow(256, |bs|) == 256 * Pow(256, |bs| - 1);
      assert w * 256 <= (Pow(256, |bs| - 1) - 1) * 256;
      w * 256 + bs[|bs| - 1]
  }

  /** `mpz_export(bs, &count, 1, 1, 1, 0, v)`: the shortest big-endian bytes
      of v, so the first byte is never zero, and no bytes at all for 0. */
  function Export(v: nat): (bs: seq<byte>)
    ensures v == 0 <==> bs == []
    ensures v > 0 ==> bs[0] != 0
    decreases v
  {
    if v == 0 then [] else Export(v / 256) + [v % 256]
  }

  /** Importing what was exported gives back the number. */
  lemma {:induction false} ImportExport(v: nat)
    ensures Import(Export(v)) == v
    decreases v
  {
    if v > 0 {
      ImportExport(v / 256);
      var bs := Export(v);
      assert bs[..|bs| - 1] == Export(v / 256);
    }
  }

  /** A byte string whose first byte is not zero is at least 256^(length-1). */
  lemma {:induction false} ImportLeading(bs: seq<byte>)
    requires |bs| > 0 && bs[0] != 0
    ensures Import(bs) >= Pow(256, |bs| - 1)
    decreases |bs|
  {
    if |bs| > 1 {
      var init := bs[..|bs| - 1];
      ImportLeading(init);
      assert Pow(256, |bs| - 1) == 256 * Pow(256, |bs| - 2);
    }
  }

  /** Exporting what was imported gives back the bytes, provided the first
      byte is not zero (export never writes a leading zero). */
  lemma {:induction false} ExportImport(bs: seq<byte>)
    requires |bs| > 0 && bs[0] != 0
    ensures Export(Import(bs)) == bs
    decreases |bs|
  {
    var init, last := bs[..|bs| - 1], bs[|bs| - 1];
    var v := Import(bs);
    if |bs| == 1 {
      assert v == last;
      assert Export(v) == Export(0) + [v];
    } else {
      ImportLeading(init);
      PowPositive(256, |init| - 1);
      ModUnique(v, 256, Import(init), last);
      ExportImport(init);
      assert Export(v) == Export(Import(init)) + [last];
      assert init + [last] == bs;
    }
  }

  /** `mpz_urandomm(x, state, bound)`: a value in [0, bound). */
  method Urandomm(bound: int) returns (x: int)
    requires bound > 0
    ensures 0 <= x < bound
  {
    x :| 0 <= x < bound;
  }

  /** `mpz_urandomb(x, state, bits)`: a value in [0, 2^bits). */
  method Urandomb(bits: nat) returns (x: int)
    ensures 0 <= x < Pow(2, bits)
  {
    PowPositive(2, bits);
    x :| 0 <= x < Pow(2, bits);
  }
}
