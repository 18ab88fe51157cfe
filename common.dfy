/** Shared vocabulary: the fixed-width integers of the on-disk structures,
    an Option for "not found" results, and small sequence helpers. */
module Common {

  /** An unsigned 8-, 16- and 32-bit value, as in `uint8_t`, `uint16_t`, `uint32_t`. */
  type U8 = x: int | 0 <= x < 0x100
  type U16 = x: int | 0 <= x < 0x1_0000
  type U32 = x: int | 0 <= x < 0x1_0000_0000

  const U32Modulus: int := 0x1_0000_0000
  const U16Modulus: int := 0x1_0000

  datatype Option<T> = None | Some(value: T)

  function Min(a: int, b: int): (r: int)
    ensures r <= a && r <= b && (r == a || r == b)
  {
    if a <= b then a else b
  }

  /** `n` zero bytes, the content `memset(p, 0, n)` leaves behind. */
  function Zeros(n: nat): (r: seq<bv8>)
    ensures |r| == n
    ensures forall i :: 0 <= i < n ==> r[i] == 0
  {
    seq(n, _ => 0)
  }

  /** `s` with the bytes at `at .. at + |w|` replaced by `w`: the effect of `memcpy(s + at, w, |w|)`. */
  function Overwrite<T>(s: seq<T>, at: nat, w: seq<T>): (r: seq<T>)
    requires at + |w| <= |s|
    ensures |r| == |s|
    ensures r[at..at + |w|] == w
    ensures forall i :: 0 <= i < |s| && !(at <= i < at + |w|) ==> r[i] == s[i]
  {
    s[..at] + w + s[at + |w|..]
  }

  /** A sequence is its first `m` elements followed by the rest. */
  lemma TakeDrop<T>(s: seq<T>, m: nat)
    requires m <= |s|
    ensures s[..m] + s[m..] == s
  {
  }

  /** A sequence agreeing with `w` on `at .. at + |w|` and with `s` elsewhere is `Overwrite(s, at, w)`. */
  lemma OverwriteIntro<T>(s: seq<T>, at: nat, w: seq<T>, r: seq<T>)
    requires at + |w| <= |s| && |r| == |s|
    requires forall i :: 0 <= i < |w| ==> r[at + i] == w[i]
    requires forall i :: 0 <= i < |s| && !(at <= i < at + |w|) ==> r[i] == s[i]
    ensures r == Overwrite(s, at, w)
  {
    var o := Overwrite(s, at, w);
    forall i | 0 <= i < |s|
      ensures r[i] == o[i]
    {
      if at <= i < at + |w| {
        assert o[at..at + |w|][i - at] == w[i - at];
        assert r[at + (i - at)] == w[i - at];
      }
    }
  }

  /** Writing `w` at `at` appends it to the untouched prefix and keeps the suffix past it. */
  lemma OverwriteSplit<T>(s: seq<T>, at: nat, w: seq<T>)
    requires at + |w| <= |s|
    ensures Overwrite(s, at, w)[..at + |w|] == s[..at] + w
    ensures Overwrite(s, at, w)[at + |w|..] == s[at + |w|..]
  {
    var r := s[..at] + w + s[at + |w|..];
    assert r[..at + |w|] == s[..at] + w;
    assert r[at + |w|..] == s[at + |w|..];
  }

  /** A buffer filled up to `at` with the front of `total` stays so after the next `piece`. */
  lemma AccumulateStep<T>(before: seq<T>, at: nat, piece: seq<T>, rest: seq<T>, total: seq<T>)
    requires at + |piece| <= |before|
    requires before[..at] + (piece + rest) == total
    ensures Overwrite(before, at, piece)[..at + |piece|] + rest == total
    ensures Overwrite(before, at, piece)[at + |piece|..] == before[at + |piece|..]
  {
    OverwriteSplit(before, at, piece);
    assert before[..at] + (piece + rest) == (before[..at] + piece) + rest;
  }

  /** Dropping `m` more bytes of a zero suffix leaves a zero suffix. */
  lemma ZerosDrop(s: seq<bv8>, at: nat, m: nat)
    requires at + m <= |s| && s[at..] == Zeros(|s| - at)
    ensures s[at + m..] == Zeros(|s| - (at + m))
  {
    assert s[at + m..] == s[at..][m..];
  }
}
