/**
 * Fixed-width values of the Ethereum world and the text encodings the core uses:
 * 256-bit words, 20-byte addresses, big-endian 32-byte hashes (go-ethereum's
 * `common.Hash` / `common.BigToHash`), lowercase hex (`encoding/hex`) and the
 * decimal rendering of `strconv.FormatUint(id, 10)`.
 */
module Encoding {
  import opened Wrappers

  /** 2^256: the range of `uint256.Int` and of a storage slot. */
  const WORD_MODULUS: nat := 0x1_0000000000000000000000000000000000000000000000000000000000000000
  /** 2^64: the range of a Go `uint64`. */
  const UINT64_MODULUS: nat := 0x1_0000000000000000
  /** 2^63: the first value a Go `int64` cannot hold. */
  const INT64_LIMIT: nat := 0x8000000000000000

  type Byte = b: int | 0 <= b < 256
  type Word = n: nat | n < WORD_MODULUS
  type Uint64 = n: nat | n < UINT64_MODULUS

  const ZERO_ADDRESS: seq<Byte> := [0, 0, 0, 0, 0, 0, 0, 0, 0, 0, 0, 0, 0, 0, 0, 0, 0, 0, 0, 0]

  /** A 20-byte account or contract address (`common.Address`). */
  type Address = s: seq<Byte> | |s| == 20 witness ZERO_ADDRESS

  function Pow256(k: nat): (p: nat)
    ensures p > 0
  {
    if k == 0 then 1 else 256 * Pow256(k - 1)
  }

  lemma {:induction false} Pow256Add(a: nat, b: nat)
    ensures Pow256(a + b) == Pow256(a) * Pow256(b)
    decreases a
  {
    if a > 0 {
      Pow256Add(a - 1, b);
    }
  }

  lemma Pow256Word()
    ensures Pow256(32) == WORD_MODULUS
  {
    assert Pow256(2) == 0x1_0000;
    Pow256Add(2, 2);
    Pow256Add(4, 4);
    Pow256Add(8, 8);
    Pow256Add(16, 16);
  }

  // ---------------------------------------------------------------------------
  // Big-endian byte strings
  // ---------------------------------------------------------------------------

  /** The low `width` bytes of `n`, most significant first (`BigToHash` for width 32). */
  function ToBigEndian(n: nat, width: nat): (bs: seq<Byte>)
    ensures |bs| == width
    decreases width
  {
    if width == 0 then [] else ToBigEndian(n / 256, width - 1) + [n % 256]
  }

  /** The unsigned number a big-endian byte string denotes (`big.Int.SetBytes`). */
  function FromBigEndian(bs: seq<Byte>): nat
    decreases |bs|
  {
    if |bs| == 0 then 0 else FromBigEndian(bs[..|bs| - 1]) * 256 + bs[|bs| - 1]
  }

  lemma {:induction false} FromBigEndianBound(bs: seq<Byte>)
    ensures FromBigEndian(bs) < Pow256(|bs|)
    decreases |bs|
  {
    if |bs| > 0 {
      var init := bs[..|bs| - 1];
      FromBigEndianBound(init);
      assert FromBigEndian(bs) <= (Pow256(|init|) - 1) * 256 + 255;
    }
  }

  /** Encoding `n` into `width` bytes and reading it back gives `n` reduced modulo 256^width. */
  lemma {:induction false} FromToBigEndian(n: nat, width: nat)
    ensures FromBigEndian(ToBigEndian(n, width)) == n % Pow256(width)
    decreases width
  {
    if width > 0 {
      var bs := ToBigEndian(n, width);
      assert bs[..|bs| - 1] == ToBigEndian(n / 256, width - 1);
      FromToBigEndian(n / 256, width - 1);
      DivModNested(n, 256, Pow256(width - 1));
    }
  }

  lemma ModUnique(n: nat, m: nat, k: nat, t: nat)
    requires m > 0 && t < m && n == k * m + t
    ensures n % m == t && n / m == k
  {
    var q, r := n / m, n % m;
    var d: int := q - k;
    assert d * m == t - r by {
      assert n == q * m + r;
      assert d * m == q * m - k * m;
    }
    if d >= 1 {
      MulAtLeast(d, m);
      assert false;
    } else if d <= -1 {
      MulAtLeast(-d, m);
      assert false;
    }
  }

  lemma MulAtLeast(d: int, m: nat)
    requires d >= 1
    ensures d * m >= m
  {
  }

  lemma DivModNested(n: nat, b: nat, p: nat)
    requires b > 0 && p > 0
    ensures (n / b) % p * b + n % b == n % (b * p)
  {
    var q, r := n / b, n % b;
    var q2, r2 := q / p, q % p;
    DivMod(n, b);
    DivMod(q, p);
    Regroup(q2, p, r2, b);
    SlackBound(r2, p, b, r);
    ModUnique(n, b * p, q2, r2 * b + r);
  }

  lemma DivMod(n: nat, m: nat)
    requires m > 0
    ensures n == n / m * m + n % m && n % m < m
  {
  }

  lemma Regroup(q2: nat, p: nat, r2: nat, b: nat)
    ensures (q2 * p + r2) * b == q2 * (b * p) + r2 * b
  {
  }

  lemma MulMono(a: nat, b: nat, m: nat)
    requires a <= b
    ensures a * m <= b * m
  {
  }

  lemma SlackBound(r2: nat, p: nat, b: nat, r: nat)
    requires r2 < p && r < b
    ensures r2 * b + r < b * p
  {
    MulMono(r2, p - 1, b);
    assert (p - 1) * b == b * p - b;
  }

  /** The 32-byte big-endian form of a word (`common.Hash` / `BigToHash`). */
  function Bytes32(w: Word): (bs: seq<Byte>)
    ensures |bs| == 32
  {
    ToBigEndian(w, 32)
  }

  lemma Bytes32RoundTrip(w: Word)
    ensures FromBigEndian(Bytes32(w)) == w
  {
    FromToBigEndian(w, 32);
    Pow256Word();
  }

  /** `x` with whole multiples of `m` taken off: what Go keeps of `x` when it narrows it to `m` values. */
  function Truncate(x: nat, m: nat): (r: nat)
    requires m > 0
    ensures r < m
    ensures x < m ==> r == x
    decreases x
  {
    if x < m then x else Truncate(x - m, m)
  }

  /** Truncating is taking the remainder. */
  lemma {:induction false} TruncateMod(x: nat, m: nat)
    requires m > 0
    ensures Truncate(x, m) == x % m
    decreases x
  {
    if x < m {
      ModUnique(x, m, 0, x);
    } else {
      TruncateMod(x - m, m);
      DivMod(x - m, m);
      ModUnique(x, m, (x - m) / m + 1, (x - m) % m);
    }
  }

  /** `BigToHash(x)` keeps the low 32 bytes: the word `x mod 2^256` (`TruncateMod`). */
  function WrapWord(x: nat): (w: Word)
  {
    Truncate(x, WORD_MODULUS)
  }

  /** `uint64(x)` or `big.Int.Uint64()` of a non-negative integer: the low 64 bits. */
  function Uint64Of(x: nat): (v: Uint64)
    ensures x < UINT64_MODULUS ==> v == x
  {
    Truncate(x, UINT64_MODULUS)
  }

  // ---------------------------------------------------------------------------
  // Lowercase hexadecimal (encoding/hex)
  // ---------------------------------------------------------------------------

  function HexDigit(v: nat): (c: char)
    requires v < 16
  {
    if v < 10 then (48 + v) as char else (87 + v) as char
  }

  /** The value of one hex digit; both letter cases are accepted (hex.DecodeString). */
  function HexValue(c: char): (r: Option<nat>)
    ensures r.Some? ==> r.value < 16
  {
    if '0' <= c <= '9' then Some(c as int - 48)
    else if 'a' <= c <= 'f' then Some(c as int - 87)
    else if 'A' <= c <= 'F' then Some(c as int - 55)
    else None
  }

  lemma HexValueOfDigit(v: nat)
    requires v < 16
    ensures HexValue(HexDigit(v)) == Some(v)
  {
  }

  predicate IsLowerHexDigit(c: char) {
    '0' <= c <= '9' || 'a' <= c <= 'f'
  }

  /** `hex.EncodeToString`: two lowercase digits per byte, high nibble first. */
  function HexEncode(bs: seq<Byte>): (s: string)
    ensures |s| == 2 * |bs|
    decreases |bs|
  {
    if |bs| == 0 then "" else [HexDigit(bs[0] / 16), HexDigit(bs[0] % 16)] + HexEncode(bs[1..])
  }

  /** `hex.DecodeString`: fails on odd length or on a character that is not a hex digit. */
  function HexDecode(s: string): (r: Option<seq<Byte>>)
    ensures r.Some? ==> 2 * |r.value| == |s|
    decreases |s|
  {
    if |s| == 0 then Some([])
    else if |s| == 1 then None
    else
      match (HexValue(s[0]), HexValue(s[1]), HexDecode(s[2..]))
      case (Some(hi), Some(lo), Some(rest)) => Some([hi * 16 + lo] + rest)
      case _ => None
  }

  lemma {:induction false} HexEncodeLower(bs: seq<Byte>)
    ensures forall i :: 0 <= i < |HexEncode(bs)| ==> IsLowerHexDigit(HexEncode(bs)[i])
    decreases |bs|
  {
    if |bs| > 0 {
      HexEncodeLower(bs[1..]);
    }
  }

  lemma {:induction false} HexRoundTrip(bs: seq<Byte>)
    ensures HexDecode(HexEncode(bs)) == Some(bs)
    decreases |bs|
  {
    if |bs| > 0 {
      var s := HexEncode(bs);
      assert s[2..] == HexEncode(bs[1..]);
      HexValueOfDigit(bs[0] / 16);
      HexValueOfDigit(bs[0] % 16);
      HexRoundTrip(bs[1..]);
      assert [bs[0]] + bs[1..] == bs;
    }
  }

  // ---------------------------------------------------------------------------
  // Decimal (strconv.FormatUint(n, 10))
  // ---------------------------------------------------------------------------

  function DecimalDigit(d: nat): char
    requires d < 10
  {
    (48 + d) as char
  }

  /** The shortest base-10 rendering of `n`, no sign and no leading zeros. */
  function FormatUint(n: nat): (s: string)
    ensures |s| > 0
    decreases n
  {
    if n < 10 then [DecimalDigit(n)] else FormatUint(n / 10) + [DecimalDigit(n % 10)]
  }

  function ParseDigits(s: string): (r: Option<nat>)
    decreases |s|
  {
    if |s| == 0 then Some(0)
    else
      var c := s[|s| - 1];
      if '0' <= c <= '9' then
        match ParseDigits(s[..|s| - 1])
        case Some(v) => Some(v * 10 + (c as int - 48))
        case None => None
      else None
  }

  /** Reads back a non-empty string of decimal digits. */
  function ParseUint(s: string): (r: Option<nat>)
  {
    if |s| == 0 then None else ParseDigits(s)
  }

  lemma {:induction false} ParseFormatUint(n: nat)
    ensures ParseUint(FormatUint(n)) == Some(n)
    decreases n
  {
    if n >= 10 {
      var s := FormatUint(n);
      assert s[..|s| - 1] == FormatUint(n / 10);
      ParseFormatUint(n / 10);
      assert ParseDigits(s[..|s| - 1]) == Some(n / 10);
      var c := s[|s| - 1];
      assert c == DecimalDigit(n % 10);
      assert '0' <= c <= '9';
      assert c as int - 48 == n % 10;
      assert ParseDigits(s) == Some(n / 10 * 10 + n % 10);
      assert n / 10 * 10 + n % 10 == n;
      assert ParseUint(s) == ParseDigits(s);
    } else {
      var s := FormatUint(n);
      assert s[..0] == [];
      assert ParseDigits(s[..0]) == Some(0);
    }
  }

  /** Distinct ids render as distinct map keys. */
  lemma FormatUintInjective(m: nat, n: nat)
    ensures FormatUint(m) == FormatUint(n) ==> m == n
  {
    ParseFormatUint(m);
    ParseFormatUint(n);
  }
}
