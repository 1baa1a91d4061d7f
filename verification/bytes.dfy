/** Byte-level vocabulary of the TNC line layer: the Option wrapper, the
    KISS marker bytes, the text-mode terminators and small sequence helpers. */
module Bytes {

  type byte = bv8

  /** A value that may be absent (a NULL pointer in the C structures). */
  datatype Option<+T> = None | Some(value: T)

  /** KISS special characters (Chepponis and Karn, "The KISS TNC: A simple
      Host-to-TNC communications protocol", section "Special characters"). */
  const FEND: byte := 0xC0
  const FESC: byte := 0xDB
  const TFEND: byte := 0xDC
  const TFESC: byte := 0xDD

  /** Text-mode line terminators and the TNC2 address/payload separator. */
  const CR: byte := 0x0D
  const LF: byte := 0x0A
  const COLON: byte := 0x3A

  predicate IsTerminator(c: byte) {
    c == CR || c == LF
  }

  /** Bitwise XOR of every byte of `s` (0 for the empty sequence). */
  function XorAll(s: seq<byte>): byte {
    if s == [] then 0 else s[0] ^ XorAll(s[1..])
  }

  /** Position of the first `b` in `s`, or `|s|` when there is none. */
  function IndexOf<T(==)>(s: seq<T>, b: T): (k: nat)
    ensures k <= |s|
    ensures k < |s| ==> s[k] == b
    ensures forall j :: 0 <= j < k ==> s[j] != b
    ensures k == |s| <==> b !in s
  {
    if s == [] then 0
    else if s[0] == b then 0
    else 1 + IndexOf(s[1..], b)
  }

  /** Concatenation of a sequence of byte strings, in order. */
  function Flatten(ss: seq<seq<byte>>): seq<byte> {
    if ss == [] then [] else ss[0] + Flatten(ss[1..])
  }

  /** Sum of the lengths of the byte strings in `ss`. */
  function TotalLength(ss: seq<seq<byte>>): nat {
    if ss == [] then 0 else |ss[0]| + TotalLength(ss[1..])
  }

  lemma {:induction false} FlattenLength(ss: seq<seq<byte>>)
    ensures |Flatten(ss)| == TotalLength(ss)
  {
    if ss != [] {
      FlattenLength(ss[1..]);
    }
  }

  /** The smaller of two integers. */
  function Min(a: int, b: int): int {
    if a <= b then a else b
  }
}
