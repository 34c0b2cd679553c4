/**
 * Bytes, fixed-width unsigned integers and the big-endian encodings
 * (`u64::to_be_bytes`, `u32::to_be_bytes` and their `from_be_bytes`
 * inverses) that every on-disk and on-wire format of the crate uses.
 * Bit operations on header words are written as arithmetic: `x & (2^w - 1)`
 * is `x % 2^w`, `x >> w` is `x / 2^w`, and `|` is `BitOr`.
 */
module Bytes {

  newtype u8 = x: int | 0 <= x < 256

  const U32_LIMIT: nat := 0x1_0000_0000
  const U64_LIMIT: nat := 0x1_0000_0000_0000_0000

  type u32 = x: nat | x < U32_LIMIT
  type u64 = x: nat | x < U64_LIMIT

  function Pow2(n: nat): (r: nat)
    ensures r >= 1
  {
    if n == 0 then 1 else 2 * Pow2(n - 1)
  }

  function Pow256(n: nat): (r: nat)
    ensures r >= 1
  {
    if n == 0 then 1 else 256 * Pow256(n - 1)
  }

  lemma {:induction false} Pow2Add(a: nat, b: nat)
    ensures Pow2(a + b) == Pow2(a) * Pow2(b)
  {
    if a > 0 {
      Pow2Add(a - 1, b);
    }
  }

  /** The powers the formats use, as literals. */
  lemma PowLiterals()
    ensures Pow2(8) == 256
    ensures Pow2(24) == 0x100_0000
    ensures Pow2(32) == U32_LIMIT
    ensures Pow2(64) == U64_LIMIT
    ensures Pow256(4) == U32_LIMIT
    ensures Pow256(8) == U64_LIMIT
  {
    assert Pow2(8) == 256;
    Pow2Add(8, 8);
    Pow2Add(16, 8);
    Pow2Add(16, 16);
    Pow2Add(32, 32);
  }

  /** Big-endian encoding of `x` in `width` bytes. */
  function ToBE(x: nat, width: nat): (r: seq<u8>)
    requires x < Pow256(width)
    ensures |r| == width
  {
    if width == 0 then [] else ToBE(x / 256, width - 1) + [(x % 256) as u8]
  }

  /** Big-endian decoding of a byte string. */
  function FromBE(s: seq<u8>): (r: nat)
    ensures r < Pow256(|s|)
  {
    if s == [] then 0 else FromBE(s[..|s| - 1]) * 256 + s[|s| - 1] as nat
  }

  lemma {:induction false} FromToBE(x: nat, width: nat)
    requires x < Pow256(width)
    ensures FromBE(ToBE(x, width)) == x
  {
    if width > 0 {
      var s := ToBE(x, width);
      assert s[..|s| - 1] == ToBE(x / 256, width - 1);
      FromToBE(x / 256, width - 1);
    }
  }

  /** `x.to_be_bytes()` for a `u64`. */
  function BE64(x: u64): (r: seq<u8>)
    ensures |r| == 8
  {
    PowLiterals();
    ToBE(x, 8)
  }

  /** `x.to_be_bytes()` for a `u32`. */
  function BE32(x: u32): (r: seq<u8>)
    ensures |r| == 4
  {
    PowLiterals();
    ToBE(x, 4)
  }

  /** `u64::from_be_bytes(s[at..at + 8])`. */
  function Word64(s: seq<u8>, at: nat): (r: u64)
    requires at + 8 <= |s|
  {
    PowLiterals();
    FromBE(s[at..at + 8])
  }

  /** `u32::from_be_bytes(s[at..at + 4])`. */
  function Word32(s: seq<u8>, at: nat): (r: u32)
    requires at + 4 <= |s|
  {
    PowLiterals();
    FromBE(s[at..at + 4])
  }

  /** A word written at position |a| is read back from there, whatever surrounds it. */
  lemma Word64At(a: seq<u8>, x: u64, b: seq<u8>)
    ensures Word64(a + BE64(x) + b, |a|) == x
  {
    PowLiterals();
    assert (a + BE64(x) + b)[|a|..|a| + 8] == BE64(x);
    FromToBE(x, 8);
  }

  /** Reading the bytes a word was written to gives the word back. */
  lemma Word64Of(s: seq<u8>, at: nat, x: u64)
    requires at + 8 <= |s| && s[at..at + 8] == BE64(x)
    ensures Word64(s, at) == x
  {
    PowLiterals();
    FromToBE(x, 8);
  }

  /** A word inside a slice reads the same as in the whole string. */
  lemma Word64Slice(s: seq<u8>, lo: nat, hi: nat, at: nat)
    requires lo <= at && at + 8 <= hi <= |s|
    ensures Word64(s[lo..hi], at - lo) == Word64(s, at)
  {
    var u, w := s[lo..hi][at - lo..at - lo + 8], s[at..at + 8];
    assert forall i :: 0 <= i < 8 ==> u[i] == w[i];
    assert u == w;
  }

  /** A slice inside the left operand of a concatenation. */
  lemma SliceLeft(a: seq<u8>, b: seq<u8>, i: nat, j: nat)
    requires i <= j <= |a|
    ensures (a + b)[i..j] == a[i..j]
  {
  }

  /** A slice from inside the left operand runs on into the right one. */
  lemma SliceRight(a: seq<u8>, b: seq<u8>, i: nat)
    requires i <= |a|
    ensures (a + b)[i..] == a[i..] + b
  {
  }

  /** The tail of a prefix is a prefix of the tail. */
  lemma PrefixTail(s: seq<u8>, h: nat, m: nat)
    requires h <= m <= |s|
    ensures s[..m][h..] == s[h..][..m - h]
  {
  }

  lemma AppendAssoc(a: seq<u8>, b: seq<u8>, c: seq<u8>)
    ensures a + b + c == a + (b + c)
  {
  }

  /** A word inside a prefix reads the same as in the whole string. */
  lemma Word64Prefix(s: seq<u8>, m: nat, at: nat)
    requires at + 8 <= m <= |s|
    ensures Word64(s[..m], at) == Word64(s, at)
  {
    assert s[..m][at..at + 8] == s[at..at + 8];
  }

  lemma Word32Of(s: seq<u8>, at: nat, x: u32)
    requires at + 4 <= |s| && s[at..at + 4] == BE32(x)
    ensures Word32(s, at) == x
  {
    PowLiterals();
    FromToBE(x, 4);
  }

  lemma Word32At(a: seq<u8>, x: u32, b: seq<u8>)
    ensures Word32(a + BE32(x) + b, |a|) == x
  {
    PowLiterals();
    assert (a + BE32(x) + b)[|a|..|a| + 4] == BE32(x);
    FromToBE(x, 4);
  }

  /** `count` zero bytes. */
  function Zeros(count: nat): (r: seq<u8>)
    ensures |r| == count
    ensures forall i :: 0 <= i < count ==> r[i] == 0
  {
    seq(count, _ => 0 as u8)
  }

  /** `buf.resize(n + count, 0)`. */
  function Grow(buf: seq<u8>, count: nat): (r: seq<u8>)
    ensures |r| == |buf| + count
    ensures r[..|buf|] == buf
    ensures forall i :: |buf| <= i < |r| ==> r[i] == 0
  {
    buf + Zeros(count)
  }

  /** `buf[at..at + w.len()].copy_from_slice(w)`. */
  function Patch(buf: seq<u8>, at: nat, w: seq<u8>): (r: seq<u8>)
    requires at + |w| <= |buf|
    ensures |r| == |buf|
  {
    buf[..at] + w + buf[at + |w|..]
  }

  /** Bitwise or of two naturals. */
  function BitOr(a: nat, b: nat): nat
    decreases a + b
  {
    if a == 0 then b
    else if b == 0 then a
    else 2 * BitOr(a / 2, b / 2) + (if a % 2 == 1 || b % 2 == 1 then 1 else 0)
  }

  /** Or-ing a value below 2^w into a word whose low w bits are clear is addition. */
  lemma {:induction false} BitOrDisjoint(t: nat, k: nat, w: nat)
    requires k < Pow2(w)
    ensures BitOr(t * Pow2(w), k) == t * Pow2(w) + k
  {
    if w > 0 && t != 0 && k != 0 {
      var a := t * Pow2(w);
      assert a == 2 * (t * Pow2(w - 1));
      BitOrDisjoint(t, k / 2, w - 1);
    }
  }

  lemma {:induction false} BitOrBound(a: nat, b: nat, w: nat)
    requires a < Pow2(w) && b < Pow2(w)
    ensures BitOr(a, b) < Pow2(w)
    decreases a + b
  {
    if a != 0 && b != 0 {
      BitOrBound(a / 2, b / 2, w - 1);
    }
  }

  /** Or-ing a word with itself changes nothing. */
  lemma {:induction false} BitOrSelf(a: nat)
    ensures BitOr(a, a) == a
    decreases a
  {
    if a != 0 {
      BitOrSelf(a / 2);
    }
  }

  /** `(t as u64) << 32 | k` for 64-bit `k`: the op/entry header word. */
  function HeaderWord(t: nat, k: u64): (r: u64)
    requires t < 0x100_0000
  {
    PowLiterals();
    Pow2Add(24, 32);
    assert t * Pow2(32) < Pow2(64);
    BitOrBound(t * Pow2(32), k, 64);
    BitOr(t * Pow2(32), k)
  }

  /** Both fields of a header word are recovered when `k` fits in 32 bits. */
  lemma HeaderWordFields(t: nat, k: u64)
    requires t < 0x100_0000 && k < U32_LIMIT
    ensures HeaderWord(t, k) % U32_LIMIT == k
    ensures (HeaderWord(t, k) / U32_LIMIT) % 0x100_0000 == t
  {
    PowLiterals();
    BitOrDisjoint(t, k, 32);
    WordFields(t, k);
  }

  lemma WordFields(t: nat, k: nat)
    requires t < 0x100_0000 && k < U32_LIMIT
    ensures (t * U32_LIMIT + k) % U32_LIMIT == k
    ensures ((t * U32_LIMIT + k) / U32_LIMIT) % 0x100_0000 == t
  {
    var x := t * U32_LIMIT + k;
    assert x / U32_LIMIT == t;
  }
}
