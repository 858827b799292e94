/**
 * The byte layouts of utility/crypto.go on the NIST P-256 curve (FIPS
 * 186-4, appendix D.1.2.3):
 *  - compressed public keys, SEC 1 v2 sections 2.3.3 and 2.3.4: a prefix
 *    0x02 or 0x03 giving the parity of Y, then X as 32 big-endian bytes;
 *  - raw signatures, r and s each as 32 big-endian bytes (IEEE P1363);
 *  - multibase text, whose first character selects the encoding of the
 *    rest (RFC 4648 sections 8, 6, 4 and 5, and base58).
 *
 * Curve arithmetic, SHA-256, ECDSA and the text decoders are library code
 * and appear as function parameters. The modular square root is one of
 * them; what the proofs need of it is stated as hypotheses
 * (`SqrtSound`, `SqrtComplete`), and so is the one consequence of the
 * primality of p that the round trip needs (`PlusMinusRoots`).
 */
module Crypto {
  import opened GoStrings
  import opened Errors

  /** `P.BitLen() / 8` for P-256. */
  const CURVE_BYTES := 32
  const P256_P: int := 0xffffffff00000001000000000000000000000000ffffffffffffffffffffffff
  const P256_B: int := 0x5ac635d8aa3a93e7b3ebbd55769886bc651d06b0cc53b0f63bce3c3e27d2604b

  const NO_SQUARE_ROOT := "can not recovery public key"
  const BAD_KEY_PREFIX := "invalid public key format: first byte must be 0x02 or 0x03"
  const SLICE_OUT_OF_RANGE := "runtime error: slice bounds out of range"

  datatype PublicKey = PublicKey(x: nat, y: nat)
  datatype PrivateKey = PrivateKey(d: nat)

  function Pow256(n: nat): (r: nat)
    ensures r > 0
  {
    if n == 0 then 1 else 256 * Pow256(n - 1)
  }

  /** `big.Int.SetBytes`: the number a big-endian byte string denotes. */
  function BigEndian(bs: seq<byte>): nat
    decreases |bs|
  {
    if |bs| == 0 then 0 else BigEndian(bs[..|bs| - 1]) * 256 + bs[|bs| - 1]
  }

  /** `big.Int.Bytes`: the shortest big-endian byte string of a number. */
  function MinimalBytes(n: nat): (m: seq<byte>)
    ensures BigEndian(m) == n
    ensures |m| == 0 || m[0] != 0
    decreases n
  {
    if n == 0 then []
    else
      var m := MinimalBytes(n / 256) + [n % 256];
      assert m[..|m| - 1] == MinimalBytes(n / 256);
      m
  }

  function Zeros(n: nat): (z: seq<byte>)
    ensures |z| == n && forall i :: 0 <= i < n ==> z[i] == 0
  {
    seq(n, _ => 0)
  }

  /** A byte string of length `n` denotes a number below 256^n. */
  lemma {:induction false} BigEndianBound(bs: seq<byte>)
    ensures BigEndian(bs) < Pow256(|bs|)
    decreases |bs|
  {
    if |bs| > 0 {
      var init := bs[..|bs| - 1];
      BigEndianBound(init);
      assert BigEndian(init) + 1 <= Pow256(|init|);
      assert BigEndian(bs) == BigEndian(init) * 256 + bs[|bs| - 1];
      assert (BigEndian(init) + 1) * 256 <= Pow256(|init|) * 256;
    }
  }

  /** Leading zero bytes do not change the number. */
  lemma {:induction false} LeadingZeros(n: nat, bs: seq<byte>)
    ensures BigEndian(Zeros(n) + bs) == BigEndian(bs)
    decreases |bs|
  {
    if |bs| == 0 {
      assert Zeros(n) + bs == Zeros(n);
      AllZeros(n);
    } else {
      var init := bs[..|bs| - 1];
      assert (Zeros(n) + bs)[..|Zeros(n) + bs| - 1] == Zeros(n) + init;
      LeadingZeros(n, init);
    }
  }

  lemma {:induction false} AllZeros(n: nat)
    ensures BigEndian(Zeros(n)) == 0
  {
    if n > 0 {
      assert Zeros(n)[..n - 1] == Zeros(n - 1);
      AllZeros(n - 1);
    }
  }

  /** A number below 256^w needs at most `w` bytes. */
  lemma {:induction false} MinimalBytesFit(n: nat, w: nat)
    requires n < Pow256(w)
    ensures |MinimalBytes(n)| <= w
    decreases w
  {
    if n > 0 {
      assert w > 0;
      assert n / 256 < Pow256(w - 1);
      MinimalBytesFit(n / 256, w - 1);
    }
  }

  /** A number fits in `w` bytes exactly when it is below 256^w. */
  lemma MinimalBytesLength(n: nat, w: nat)
    ensures |MinimalBytes(n)| <= w <==> n < Pow256(w)
  {
    BigEndianBound(MinimalBytes(n));
    if |MinimalBytes(n)| <= w {
      Pow256Monotone(|MinimalBytes(n)|, w);
    }
    if n < Pow256(w) {
      MinimalBytesFit(n, w);
    }
  }

  lemma {:induction false} Pow256Monotone(a: nat, b: nat)
    requires a <= b
    ensures Pow256(a) <= Pow256(b)
    decreases b
  {
    if a < b {
      Pow256Monotone(a, b - 1);
    }
  }

  /** Go's built-in `copy(dst[at:], src)` where all of `src` fits. */
  method Copy(dst: array<byte>, at: nat, src: seq<byte>)
    requires at + |src| <= dst.Length
    modifies dst
    ensures dst[..] == old(dst[..at]) + src + old(dst[at + |src|..])
  {
    var i := 0;
    while i < |src|
      invariant 0 <= i <= |src|
      invariant forall j :: 0 <= j < dst.Length ==> dst[j] == if at <= j < at + i then src[j - at] else old(dst[j])
    {
      dst[at + i] := src[i];
      i := i + 1;
    }
    assert dst[..] == old(dst[..at]) + src + old(dst[at + |src|..]);
  }

  /** Copying `src` to the end of a buffer that is zero after its first byte leaves zeros in front of it. */
  lemma RightAligned(before: seq<byte>, at: nat, src: seq<byte>, after: seq<byte>)
    requires 1 <= at && at + |src| == |before|
    requires forall i :: 1 <= i < |before| ==> before[i] == 0
    requires after == before[..at] + src + before[at + |src|..]
    ensures after[0] == before[0] && after[1..] == Zeros(at - 1) + src
    ensures BigEndian(after[1..]) == BigEndian(src)
  {
    LeadingZeros(at - 1, src);
    assert before[at + |src|..] == [];
    assert before[..at] == [before[0]] + Zeros(at - 1);
  }

  /**
   * `CompressPublicKey`: 33 bytes, 0x03 for an odd Y and 0x02 for an even
   * one, then X right-aligned in 32 bytes with leading zeros. A P-256 X
   * fits in 32 bytes (by `MinimalBytesLength`, exactly when it is below
   * 256^32). The contract covers only such an X: a 33-byte X would start
   * the copy at offset 0 and overwrite the prefix byte, and a longer one
   * would make the Go slice expression panic.
   */
  method CompressPublicKey(key: PublicKey) returns (out: seq<byte>)
    requires |MinimalBytes(key.x)| <= CURVE_BYTES
    ensures |out| == CURVE_BYTES + 1
    ensures out[0] == if key.y % 2 == 1 then 0x03 else 0x02
    ensures out[1..] == Zeros(CURVE_BYTES - |MinimalBytes(key.x)|) + MinimalBytes(key.x)
    ensures BigEndian(out[1..]) == key.x
  {
    var xBytes := MinimalBytes(key.x);
    var buf := new byte[CURVE_BYTES + 1](_ => 0);
    if key.y % 2 == 1 {
      buf[0] := 0x03;
    } else {
      buf[0] := 0x02;
    }
    var pad := CURVE_BYTES - |xBytes|;
    ghost var before := buf[..];
    Copy(buf, 1 + pad, xBytes);
    out := buf[..];
    RightAligned(before, 1 + pad, xBytes, out);
  }

  /** Go's `%d` for a non-negative number. */
  function Decimal(n: nat): string
  {
    if n < 10 then [DigitChar(n)] else Decimal(n / 10) + [DigitChar(n % 10)]
  }

  function DigitChar(d: nat): char
    requires d < 10
  {
    "0123456789"[d]
  }

  /** The right-hand side of the curve equation y^2 = x^3 - 3x + b. */
  function CurveRhs(x: int): int
  {
    x * x * x - 3 * x + P256_B
  }

  function SquareMod(y: int): int
  {
    (y * y) % P256_P
  }

  /**
   * The right-hand side reduced modulo p, with x^3 - 3x reduced before b
   * is added (the same residue as `CurveRhs(x) % P256_P`, by
   * `CurveResidueOfRhs`).
   */
  function CurveResidue(x: int): int
  {
    ((x * x * x - 3 * x) % P256_P + P256_B) % P256_P
  }

  lemma CurveResidueOfRhs(x: int)
    ensures CurveRhs(x) % P256_P == CurveResidue(x)
  {
    var a := x * x * x - 3 * x;
    var q := a / P256_P;
    assert CurveRhs(x) == (a % P256_P + P256_B) + P256_P * q;
    ModMultiple(a % P256_P + P256_B, q);
  }

  /** The point satisfies the curve equation modulo p. */
  predicate OnCurve(key: PublicKey)
  {
    SquareMod(key.y) == CurveResidue(key.x)
  }

  /** `big.Int.ModSqrt(v, P)`: a square root modulo p, or none. */
  type ModSqrt = int -> Option<nat>

  /** Every root the library returns is a reduced square root. */
  ghost predicate SqrtSound(modSqrt: ModSqrt)
  {
    forall v :: modSqrt(v).Some? ==> modSqrt(v).value < P256_P && SquareMod(modSqrt(v).value) == v % P256_P
  }

  /** The library finds a root whenever one exists. */
  ghost predicate SqrtComplete(modSqrt: ModSqrt)
  {
    forall v, y :: 0 <= y < P256_P && SquareMod(y) == v % P256_P ==> modSqrt(v).Some?
  }

  /** Modulo a prime, the square roots of a square are y and p - y only. */
  ghost predicate PlusMinusRoots()
  {
    forall a, b :: 0 <= a < P256_P && 0 <= b < P256_P && SquareMod(a) == SquareMod(b) ==> a == b || a + b == P256_P
  }

  /** `Neg` then `Mod` on a reduced root: the other root. */
  lemma NegMod(y: int)
    requires 0 <= y < P256_P
    ensures (-y) % P256_P == if y == 0 then 0 else P256_P - y
    ensures y > 0 ==> SquareMod(P256_P - y) == SquareMod(y)
    ensures y > 0 ==> (P256_P - y) % 2 != y % 2
  {
    if y > 0 {
      NegReduced(y);
      NegSquare(y);
      NegParity(y);
    }
  }

  lemma NegReduced(y: int)
    requires 0 < y < P256_P
    ensures (-y) % P256_P == P256_P - y
  {
    ModMultiple(P256_P - y, -1);
  }

  lemma NegSquare(y: int)
    requires 0 < y < P256_P
    ensures SquareMod(P256_P - y) == SquareMod(y)
  {
    var z := P256_P - y;
    assert z * z == y * y + P256_P * (P256_P - 2 * y);
    ModMultiple(y * y, P256_P - 2 * y);
  }

  /** p is odd, so y and p - y differ in parity. */
  lemma NegParity(y: int)
    requires 0 < y < P256_P
    ensures (P256_P - y) % 2 != y % 2
  {
    assert P256_P % 2 == 1;
  }

  lemma ModMultiple(a: int, k: int)
    ensures (a + P256_P * k) % P256_P == a % P256_P
  {
    var q, r := a / P256_P, a % P256_P;
    assert a + P256_P * k == P256_P * (q + k) + r;
  }

  /** `DecompressPublicKey`. */
  function DecompressPublicKey(bs: seq<byte>, modSqrt: ModSqrt): (r: Result<PublicKey>)
    ensures |bs| != CURVE_BYTES + 1 ==> r == Err(Plain("invalid public key size: " + Decimal(|bs|) + ", expected 33"))
    ensures |bs| == CURVE_BYTES + 1 && bs[0] != 0x02 && bs[0] != 0x03 ==> r == Err(Plain(BAD_KEY_PREFIX))
    ensures |bs| == CURVE_BYTES + 1 && modSqrt(CurveRhs(BigEndian(bs[1..]))).None? ==> r.Err?
    ensures r.Ok? ==> |bs| == CURVE_BYTES + 1 && r.value.x == BigEndian(bs[1..])
    ensures r.Ok? && SqrtSound(modSqrt) ==> r.value.y < P256_P && OnCurve(r.value)
    ensures r.Ok? && SqrtSound(modSqrt) ==> r.value.y % 2 == bs[0] - 0x02 || r.value.y == 0
  {
    if |bs| != CURVE_BYTES + 1 then Err(Plain("invalid public key size: " + Decimal(|bs|) + ", expected 33"))
    else if bs[0] != 0x02 && bs[0] != 0x03 then Err(Plain(BAD_KEY_PREFIX))
    else
      var x := BigEndian(bs[1..]);
      match modSqrt(CurveRhs(x))
      case None => Err(Plain(NO_SQUARE_ROOT))
      case Some(y1) =>
        var y2 := (-(y1 as int)) % P256_P;
        var y := if bs[0] == 0x02 then (if y1 % 2 == 0 then y1 else y2)
                 else (if y1 % 2 == 1 then y1 else y2);
        CurveResidueOfRhs(x);
        assert SqrtSound(modSqrt) ==> y1 < P256_P && SquareMod(y1) == CurveResidue(x);
        assert SqrtSound(modSqrt) ==> y2 == (if y1 == 0 then 0 else P256_P - y1) by {
          if SqrtSound(modSqrt) {
            NegMod(y1);
          }
        }
        assert SqrtSound(modSqrt) && y1 > 0 ==> SquareMod(y2) == SquareMod(y1) && y2 % 2 != y1 % 2 by {
          if SqrtSound(modSqrt) && y1 > 0 {
            NegMod(y1);
          }
        }
        Ok(PublicKey(x, y))
  }

  /**
   * Decompressing the compressed form of a point of the curve gives the
   * point back. The compressed form is described by the facts
   * `CompressPublicKey` ensures.
   */
  lemma CompressionRoundTrip(key: PublicKey, bs: seq<byte>, modSqrt: ModSqrt)
    requires key.x < P256_P && key.y < P256_P && OnCurve(key)
    requires SqrtSound(modSqrt) && SqrtComplete(modSqrt) && PlusMinusRoots()
    requires |bs| == CURVE_BYTES + 1 && bs[0] == (if key.y % 2 == 1 then 0x03 else 0x02)
    requires BigEndian(bs[1..]) == key.x
    ensures DecompressPublicKey(bs, modSqrt) == Ok(key)
  {
    var rhs := CurveRhs(key.x);
    CurveResidueOfRhs(key.x);
    assert modSqrt(rhs).Some?;
    var y1 := modSqrt(rhs).value;
    assert y1 == key.y || y1 + key.y == P256_P;
    NegMod(y1);
    var r := DecompressPublicKey(bs, modSqrt);
    assert r.Ok?;
    if key.y == 0 {
      assert y1 == 0;
    } else if y1 == key.y {
    } else {
      NegMod(key.y);
    }
  }

  /** Any slice of a run of zeros is a run of zeros. */
  lemma ZerosSlice(n: nat, i: nat, j: nat)
    requires i <= j <= n
    ensures Zeros(n)[i..j] == Zeros(j - i)
  {
  }

  /**
   * The two halves of a signature buffer into which r and s were copied
   * right-aligned denote r and s.
   */
  lemma PaddedHalves(buf: seq<byte>, rBytes: seq<byte>, sBytes: seq<byte>)
    requires |rBytes| <= CURVE_BYTES && |sBytes| <= CURVE_BYTES
    requires buf == (Zeros(CURVE_BYTES - |rBytes|) + rBytes) + (Zeros(CURVE_BYTES - |sBytes|) + sBytes)
    ensures |buf| == 2 * CURVE_BYTES
    ensures BigEndian(buf[..CURVE_BYTES]) == BigEndian(rBytes)
    ensures BigEndian(buf[CURVE_BYTES..]) == BigEndian(sBytes)
  {
    var rPadded := Zeros(CURVE_BYTES - |rBytes|) + rBytes;
    var sPadded := Zeros(CURVE_BYTES - |sBytes|) + sBytes;
    assert |rPadded| == CURVE_BYTES;
    assert buf[..CURVE_BYTES] == rPadded;
    assert buf[CURVE_BYTES..] == sPadded;
    LeadingZeros(CURVE_BYTES - |rBytes|, rBytes);
    LeadingZeros(CURVE_BYTES - |sBytes|, sBytes);
  }

  /** The buffer after both copies, when r and s each fit in 32 bytes. */
  lemma TwoCopies(afterR: seq<byte>, afterS: seq<byte>, rBytes: seq<byte>, sBytes: seq<byte>)
    requires |rBytes| <= CURVE_BYTES && |sBytes| <= CURVE_BYTES
    requires afterR == Zeros(CURVE_BYTES - |rBytes|) + rBytes + Zeros(CURVE_BYTES)
    requires afterS == afterR[..2 * CURVE_BYTES - |sBytes|] + sBytes + afterR[2 * CURVE_BYTES..]
    ensures afterS == (Zeros(CURVE_BYTES - |rBytes|) + rBytes) + (Zeros(CURVE_BYTES - |sBytes|) + sBytes)
  {
    assert afterR[..2 * CURVE_BYTES - |sBytes|]
        == (Zeros(CURVE_BYTES - |rBytes|) + rBytes) + Zeros(CURVE_BYTES - |sBytes|);
    assert afterR[2 * CURVE_BYTES..] == [];
  }

  /**
   * `Sign`: ECDSA over the SHA-256 digest, laid out as r then s, each
   * right-aligned in 32 bytes. The nonce comes from a random source, which
   * is folded into `ecdsaSign`. An r longer than 32 bytes (by
   * `MinimalBytesLength`, one of at least 256^32) makes the Go slice
   * expression panic.
   */
  method Sign(data: seq<byte>, key: PrivateKey, sha256: seq<byte> -> seq<byte>,
              ecdsaSign: (PrivateKey, seq<byte>) -> Result<(nat, nat)>)
    returns (r: Result<seq<byte>>)
    ensures var signed := ecdsaSign(key, sha256(data));
            signed.Err? ==> r == Err(signed.error)
    ensures var signed := ecdsaSign(key, sha256(data));
            signed.Ok? && |MinimalBytes(signed.value.0)| > CURVE_BYTES ==> r == Err(Panic(SLICE_OUT_OF_RANGE))
    ensures var signed := ecdsaSign(key, sha256(data));
            (signed.Ok? && |MinimalBytes(signed.value.0)| <= CURVE_BYTES && |MinimalBytes(signed.value.1)| <= CURVE_BYTES)
            ==> r.Ok? && |r.value| == 2 * CURVE_BYTES
                && BigEndian(r.value[..CURVE_BYTES]) == signed.value.0
                && BigEndian(r.value[CURVE_BYTES..]) == signed.value.1
  {
    var digest := sha256(data);
    var signed := ecdsaSign(key, digest);
    if signed.Err? {
      return Err(signed.error);
    }
    var (rInt, sInt) := signed.value;
    var rBytes := MinimalBytes(rInt);
    var sBytes := MinimalBytes(sInt);
    var signature := new byte[2 * CURVE_BYTES](_ => 0);
    ghost var zeros := signature[..];
    assert zeros == Zeros(2 * CURVE_BYTES);
    if |rBytes| > CURVE_BYTES {
      return Err(Panic(SLICE_OUT_OF_RANGE));
    }
    Copy(signature, CURVE_BYTES - |rBytes|, rBytes);
    ghost var afterR := signature[..];
    if |sBytes| > 2 * CURVE_BYTES {
      return Err(Panic(SLICE_OUT_OF_RANGE));
    }
    Copy(signature, 2 * CURVE_BYTES - |sBytes|, sBytes);
    r := Ok(signature[..]);
    if |sBytes| <= CURVE_BYTES {
      ZerosSlice(2 * CURVE_BYTES, 0, CURVE_BYTES - |rBytes|);
      ZerosSlice(2 * CURVE_BYTES, CURVE_BYTES, 2 * CURVE_BYTES);
      TwoCopies(afterR, signature[..], rBytes, sBytes);
      PaddedHalves(signature[..], rBytes, sBytes);
    }
  }

  /**
   * `Verify`: r from the first 32 bytes, s from the rest. There is no
   * length check, so a signature shorter than 32 bytes makes the slice
   * expression panic.
   */
  function Verify(data: seq<byte>, signature: seq<byte>, key: PublicKey, sha256: seq<byte> -> seq<byte>,
                  ecdsaVerify: (PublicKey, seq<byte>, nat, nat) -> bool): (r: Result<bool>)
    ensures |signature| < CURVE_BYTES ==> r == Err(Panic(SLICE_OUT_OF_RANGE))
    ensures r.Ok? ==> |signature| >= CURVE_BYTES
  {
    if |signature| < CURVE_BYTES then Err(Panic(SLICE_OUT_OF_RANGE))
    else
      var rInt := BigEndian(signature[..CURVE_BYTES]);
      var sInt := BigEndian(signature[CURVE_BYTES..]);
      Ok(ecdsaVerify(key, sha256(data), rInt, sInt))
  }

  /**
   * `Verify` reads r from the first 32 bytes and s from all the bytes after
   * them, whatever the signature's length from 32 bytes up: a signature
   * whose two parts denote r and s is checked against exactly that pair.
   * `Sign`'s 64-byte layout is one such signature.
   */
  lemma SignatureLayoutRoundTrip(data: seq<byte>, signature: seq<byte>, key: PublicKey, rInt: nat, sInt: nat,
                                 sha256: seq<byte> -> seq<byte>, ecdsaVerify: (PublicKey, seq<byte>, nat, nat) -> bool)
    requires |signature| >= CURVE_BYTES
    requires BigEndian(signature[..CURVE_BYTES]) == rInt && BigEndian(signature[CURVE_BYTES..]) == sInt
    ensures Verify(data, signature, key, sha256, ecdsaVerify) == Ok(ecdsaVerify(key, sha256(data), rInt, sInt))
  {
  }

  /** Go's `big.Int.Cmp`. */
  function Cmp(a: nat, b: nat): int
  {
    if a < b then -1 else if a == b then 0 else 1
  }

  /** `ComparePublicKey`: the same point. */
  function ComparePublicKey(k1: PublicKey, k2: PublicKey): (same: bool)
    ensures same <==> k1 == k2
  {
    var x := Cmp(k1.x, k2.x);
    var y := Cmp(k1.y, k2.y);
    x == 0 && y == 0
  }

  /** The library decoders a multibase prefix selects. */
  datatype Decoders = Decoders(
    hex: string -> Result<seq<byte>>,
    base58: string -> seq<byte>,
    base32: string -> Result<seq<byte>>,
    base64Raw: string -> Result<seq<byte>>,
    base64Url: string -> Result<seq<byte>>)

  /** `DecodeMultibase`. */
  function DecodeMultibase(input: string, dec: Decoders): (r: Result<seq<byte>>)
    ensures |input| == 0 ==> r == Err(Plain("input data is too short"))
    ensures |input| > 0 && input[0] !in "fFzbmu" ==> r == Err(Plain("unsupported encoding : " + [input[0]]))
    ensures |input| > 0 && input[0] == 'z' ==> r.Ok?
  {
    if |input| < 1 then Err(Plain("input data is too short"))
    else
      var encodingType, encodingData := input[0], input[1..];
      match encodingType
      case 'f' => dec.hex(encodingData)
      case 'F' => dec.hex(encodingData)
      case 'z' => Ok(dec.base58(encodingData))
      case 'b' => dec.base32(encodingData)
      case 'm' => dec.base64Raw(encodingData)
      case 'u' => dec.base64Url(encodingData)
      case _ => Err(Plain("unsupported encoding : " + [encodingType]))
  }

  /** The multibase encodings the contract accepts. */
  datatype Base = Base16 | Base16Upper | Base58Btc | Base32 | Base64 | Base64Url

  function PrefixOf(b: Base): char
  {
    match b
    case Base16 => 'f'
    case Base16Upper => 'F'
    case Base58Btc => 'z'
    case Base32 => 'b'
    case Base64 => 'm'
    case Base64Url => 'u'
  }

  /** The decoder `DecodeMultibase` uses for an encoding. */
  function DecoderOf(b: Base, dec: Decoders): string -> Result<seq<byte>>
  {
    match b
    case Base16 => dec.hex
    case Base16Upper => dec.hex
    case Base58Btc => (s: string) => Ok(dec.base58(s))
    case Base32 => dec.base32
    case Base64 => dec.base64Raw
    case Base64Url => dec.base64Url
  }

  /**
   * Multibase text is decoded by the decoder of its own encoding: the
   * prefix of an encoding followed by any text `s` decodes exactly as that
   * encoding's decoder decodes `s`, its errors included; so whatever an
   * encoder produces that its decoder inverts comes back unchanged.
   */
  lemma DecodeMultibaseDispatch(b: Base, s: string, dec: Decoders)
    ensures DecodeMultibase([PrefixOf(b)] + s, dec) == DecoderOf(b, dec)(s)
  {
    assert ([PrefixOf(b)] + s)[1..] == s;
  }
}
