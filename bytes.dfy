/** Byte sequences as the driver sees them: user data, records and the
    concatenation of all retained records. */
module Bytes {

  /** One byte of user data (a C `char` moved through `copy_from_user`). */
  type byte = b: int | 0 <= b < 256

  /** The record delimiter, ASCII line feed. */
  const NEWLINE: byte := 10

  /** The width of the kernel's `size_t`, in which lengths and indices are computed. */
  const SIZE_T_MODULUS: int := 0x1_0000_0000_0000_0000

  datatype Option<T> = None | Some(value: T)

  /** True when `s` is non-empty and its final byte is the delimiter. */
  predicate EndsWithNewline(s: seq<byte>)
  {
    |s| > 0 && s[|s| - 1] == NEWLINE
  }

  /** `n` zero bytes: what `copy_from_user` leaves in the part of the
      destination it could not fill. */
  function Zeros(n: nat): (z: seq<byte>)
    ensures |z| == n && forall i :: 0 <= i < n ==> z[i] == 0
  {
    seq(n, _ => 0)
  }

  /** The bytes of all entries, one after another. */
  function Concat(es: seq<seq<byte>>): (r: seq<byte>)
    ensures |r| == Total(es)
  {
    if es == [] then [] else es[0] + Concat(es[1..])
  }

  /** The number of bytes held by all entries together. */
  function Total(es: seq<seq<byte>>): nat
  {
    if es == [] then 0 else |es[0]| + Total(es[1..])
  }

  lemma {:induction false} ConcatAppend(es: seq<seq<byte>>, fs: seq<seq<byte>>)
    ensures Concat(es + fs) == Concat(es) + Concat(fs)
  {
    if es == [] {
      assert es + fs == fs;
    } else {
      assert (es + fs)[1..] == es[1..] + fs;
      ConcatAppend(es[1..], fs);
    }
  }

  lemma {:induction false} TotalAppend(es: seq<seq<byte>>, fs: seq<seq<byte>>)
    ensures Total(es + fs) == Total(es) + Total(fs)
  {
    ConcatAppend(es, fs);
  }
}
