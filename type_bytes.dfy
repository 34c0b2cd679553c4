/**
 * The `Vec<u8>` instance of the crate's `Diff` and `Serialize` traits.
 * A delta of a byte string is the older byte string itself, so merging a
 * delta into any newer value gives the delta back.
 */
module TypeBytes {
  import opened Bytes
  import opened Common

  /** `diff(&self, old)`: D = N - O. */
  function Diff(newer: seq<u8>, older: seq<u8>): seq<u8>
  {
    older
  }

  /** `merge(&self, delta)`: O = N - D. */
  function Merge(newer: seq<u8>, delta: seq<u8>): seq<u8>
  {
    delta
  }

  /** The `Diff` trait's law: merging the diff of a newer and an older value restores the older one. */
  lemma MergeUndoesDiff(newer: seq<u8>, older: seq<u8>)
    ensures Merge(newer, Diff(newer, older)) == older
  {
  }

  /** For byte strings the rebuilt value does not depend on the newer value it is merged into. */
  lemma MergeIgnoresNewer(a: seq<u8>, b: seq<u8>, delta: seq<u8>)
    ensures Merge(a, delta) == Merge(b, delta)
  {
  }

  /**
   * `encode(&self, buf)`: grows `buf` by the value's length and copies the
   * value into the new tail; the bytes already in `buf` are untouched.
   */
  method Encode(value: seq<u8>, buf: seq<u8>) returns (out: seq<u8>, n: nat)
    ensures out == buf + value
    ensures |out| == |buf| + |value|
    ensures out[..|buf|] == buf
    ensures out[|buf|..] == value
    ensures n == |value|
  {
    var start := |buf|;
    out := buf + seq(|value|, _ => 0 as u8);
    out := out[..start] + value;
    n := |value|;
  }

  /** `decode(&mut self, buf)`: resizes `self` to the slice and copies it. */
  method Decode(current: seq<u8>, buf: seq<u8>) returns (decoded: seq<u8>, r: Result<()>)
    ensures decoded == buf
    ensures r == Ok(())
  {
    var resized := if |current| >= |buf| then current[..|buf|]
                   else current + seq(|buf| - |current|, _ => 0 as u8);
    // `copy_from_slice` writes every byte of the resized buffer from `buf`.
    decoded := seq(|resized|, i requires 0 <= i < |resized| => buf[i]);
    r := Ok(());
  }
}
