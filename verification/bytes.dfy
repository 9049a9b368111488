/**
 Byte-order helpers for the hash check: in-place byte reversal (modelled as
 sequence reversal), big-endian decoding (Go's `big.Int.SetBytes`), and an
 independent little-endian reading with its encoder.
 */
module Bytes {
  import opened Types
  import opened Arith

  /** The bytes of `s` in the opposite order. */
  function Reverse(s: seq<byte>): (r: seq<byte>)
    ensures |r| == |s|
    ensures forall i :: 0 <= i < |s| ==> r[i] == s[|s| - 1 - i]
  {
    if |s| == 0 then [] else Reverse(s[1..]) + [s[0]]
  }

  /** Unsigned value of `s` read most significant byte first. */
  function BigEndian(s: seq<byte>): (r: nat)
    ensures r < Pow(256, |s|)
  {
    if |s| == 0 then
      0
    else
      var high := BigEndian(s[..|s| - 1]);
      MulLeMono(high + 1, Pow(256, |s| - 1), 256);
      high * 256 + s[|s| - 1]
  }

  /** Unsigned value of `s` read least significant byte first. */
  function LittleEndian(s: seq<byte>): nat
  {
    if |s| == 0 then 0 else s[0] + 256 * LittleEndian(s[1..])
  }

  /** The `n`-byte little-endian encoding of `v`. */
  function ToLittleEndian(v: nat, n: nat): (s: seq<byte>)
    requires v < Pow(256, n)
    ensures |s| == n
  {
    if n == 0 then [] else [v % 256] + ToLittleEndian(v / 256, n - 1)
  }

  /** Reading reversed bytes big-endian is reading the original little-endian. */
  lemma {:induction false} BigEndianOfReverse(s: seq<byte>)
    ensures BigEndian(Reverse(s)) == LittleEndian(s)
  {
    if |s| > 0 {
      var rest := Reverse(s[1..]);
      var r := rest + [s[0]];
      assert r[..|r| - 1] == rest;
      BigEndianOfReverse(s[1..]);
    }
  }

  /** An `n`-byte value is below 256^n. */
  lemma {:induction false} LittleEndianBound(s: seq<byte>)
    ensures LittleEndian(s) < Pow(256, |s|)
  {
    if |s| > 0 {
      LittleEndianBound(s[1..]);
      MulLeMono(LittleEndian(s[1..]) + 1, Pow(256, |s| - 1), 256);
    }
  }

  /** Decoding an encoding gives the value back. */
  lemma {:induction false} LittleEndianRoundTrip(v: nat, n: nat)
    requires v < Pow(256, n)
    ensures LittleEndian(ToLittleEndian(v, n)) == v
  {
    if n > 0 {
      var s := ToLittleEndian(v, n);
      assert s[1..] == ToLittleEndian(v / 256, n - 1);
      LittleEndianRoundTrip(v / 256, n - 1);
    }
  }

  /** Encoding a decoded sequence gives the sequence back. */
  lemma {:induction false} ToLittleEndianRoundTrip(s: seq<byte>)
    ensures LittleEndian(s) < Pow(256, |s|)
    ensures ToLittleEndian(LittleEndian(s), |s|) == s
  {
    LittleEndianBound(s);
    if |s| > 0 {
      ToLittleEndianRoundTrip(s[1..]);
      var v := LittleEndian(s);
      assert v % 256 == s[0] && v / 256 == LittleEndian(s[1..]);
    }
  }
}
