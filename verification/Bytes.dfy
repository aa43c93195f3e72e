/** Bytes, machine words and the little-endian layout of the packed C records. */
module Bytes {

  type byte = x: int | 0 <= x < 256
  type u16 = x: int | 0 <= x < 0x1_0000
  type u32 = x: int | 0 <= x < 0x1_0000_0000
  type u64 = x: int | 0 <= x < 0x1_0000_0000_0000_0000

  const TWO_32: int := 0x1_0000_0000
  const TWO_64: int := 0x1_0000_0000_0000_0000

  datatype Option<T> = None | Some(value: T)

  function Min(a: int, b: int): int {
    if a <= b then a else b
  }

  lemma SliceOfSlice<T>(s: seq<T>, lo: nat, hi: nat, i: nat, j: nat)
    requires lo <= hi <= |s| && i <= j <= hi - lo
    ensures s[lo..hi][i..j] == s[lo + i..lo + j]
  {
    assert forall k | 0 <= k < j - i :: s[lo..hi][i..j][k] == s[lo..hi][i + k];
  }

  lemma Associate<T>(x: seq<T>, y: seq<T>, z: seq<T>)
    ensures x + (y + z) == x + y + z
  {
  }

  lemma DropSplit<T>(s: seq<T>, i: nat, j: nat)
    requires i <= j <= |s|
    ensures s[i..] == s[i..j] + s[j..]
  {
  }

  lemma TakeStep<T>(s: seq<T>, i: nat)
    requires i < |s|
    ensures s[..i + 1] == s[..i] + [s[i]]
    ensures s == s[..i + 1] + s[i + 1..]
  {
  }

  /** `d` with the bytes at `at` overwritten by `x`. */
  function Splice<T>(d: seq<T>, at: nat, x: seq<T>): (r: seq<T>)
    requires at + |x| <= |d|
    ensures |r| == |d|
  {
    d[..at] + x + d[at + |x|..]
  }

  /** A splice shows at its place and nowhere else. */
  lemma SpliceAt<T>(d: seq<T>, at: nat, x: seq<T>, lo: nat, hi: nat)
    requires at + |x| <= |d| && lo <= hi <= |d|
    ensures Splice(d, at, x)[at..at + |x|] == x
    ensures hi <= at || at + |x| <= lo ==> Splice(d, at, x)[lo..hi] == d[lo..hi]
  {
  }

  /** Two splices in a row are one. */
  lemma SpliceJoin<T>(d: seq<T>, at: nat, x: seq<T>, p: nat, y: seq<T>)
    requires p == at + |x| && p + |y| <= |d|
    ensures Splice(Splice(d, at, x), p, y) == Splice(d, at, x + y)
  {
  }

  lemma SpliceNothing<T>(d: seq<T>, at: nat, x: seq<T>)
    requires at <= |d| && x == []
    ensures Splice(d, at, x) == d
  {
  }

  function Zeros(n: nat): (s: seq<byte>)
    ensures |s| == n && forall i :: 0 <= i < n ==> s[i] == 0
  {
    seq(n, _ => 0)
  }

  /** Concatenation of a list of sequences. */
  function Flatten<T>(xs: seq<seq<T>>): seq<T> {
    if xs == [] then [] else xs[0] + Flatten(xs[1..])
  }

  lemma {:induction false} FlattenConcat<T>(xs: seq<seq<T>>, ys: seq<seq<T>>)
    ensures Flatten(xs + ys) == Flatten(xs) + Flatten(ys)
  {
    if xs == [] {
      assert xs + ys == ys;
    } else {
      assert (xs + ys)[1..] == xs[1..] + ys;
      FlattenConcat(xs[1..], ys);
    }
  }

  lemma FlattenOne<T>(x: seq<T>)
    ensures Flatten([x]) == x
  {
    assert [x][1..] == [];
  }

  /** Moving the boundary of a split list over one element. */
  lemma FlattenStep<T>(xs: seq<seq<T>>, i: nat)
    requires i < |xs|
    ensures Flatten(xs[i..]) == xs[i] + Flatten(xs[i + 1..])
    ensures Flatten(xs[..i + 1]) == Flatten(xs[..i]) + xs[i]
  {
    assert xs[..i + 1] == xs[..i] + [xs[i]];
    FlattenConcat(xs[..i], [xs[i]]);
    FlattenOne(xs[i]);
    assert xs[i..][1..] == xs[i + 1..];
  }

  lemma FlattenSplit<T>(xs: seq<seq<T>>, i: nat)
    requires i <= |xs|
    ensures Flatten(xs) == Flatten(xs[..i]) + Flatten(xs[i..])
  {
    assert xs == xs[..i] + xs[i..];
    FlattenConcat(xs[..i], xs[i..]);
  }

  function Pow256(n: nat): (p: nat)
    ensures p > 0
  {
    if n == 0 then 1 else 256 * Pow256(n - 1)
  }

  /** Value of a little-endian word. */
  function Word(s: seq<byte>): nat {
    if s == [] then 0 else s[0] as int + 256 * Word(s[1..])
  }

  /** The `n` low bytes of `v`, least significant first. */
  function Encode(v: nat, n: nat): (s: seq<byte>)
    ensures |s| == n
  {
    if n == 0 then [] else [(v % 256) as byte] + Encode(v / 256, n - 1)
  }

  lemma {:induction false} WordBound(s: seq<byte>)
    ensures Word(s) < Pow256(|s|)
  {
    if s != [] {
      WordBound(s[1..]);
    }
  }

  lemma {:induction false} WordOfEncode(v: nat, n: nat)
    requires v < Pow256(n)
    ensures Word(Encode(v, n)) == v
  {
    if n > 0 {
      assert Encode(v, n)[1..] == Encode(v / 256, n - 1);
      WordOfEncode(v / 256, n - 1);
    }
  }

  lemma {:induction false} EncodeOfWord(s: seq<byte>)
    ensures Encode(Word(s), |s|) == s
  {
    if s != [] {
      EncodeOfWord(s[1..]);
      assert Word(s) % 256 == s[0] && Word(s) / 256 == Word(s[1..]);
    }
  }

  lemma Powers()
    ensures Pow256(2) == 0x1_0000 && Pow256(4) == 0x1_0000_0000 && Pow256(8) == 0x1_0000_0000_0000_0000
  {
    assert Pow256(1) == 256 && Pow256(3) == 0x100_0000 && Pow256(5) == 0x100_0000_0000;
    assert Pow256(6) == 0x1_0000_0000_0000;
  }

  /** The `n` bytes at `off` of a memory. */
  function Part(mem: nat -> byte, off: nat, n: nat): (s: seq<byte>)
    ensures |s| == n
  {
    seq(n, i requires 0 <= i => mem(off + i))
  }

  /** Little-endian fields at an offset of a byte sequence. */
  function U16(s: seq<byte>, off: nat): u16
    requires off + 2 <= |s|
  {
    WordBound(s[off..off + 2]);
    Powers();
    Word(s[off..off + 2])
  }

  function U32(s: seq<byte>, off: nat): u32
    requires off + 4 <= |s|
  {
    WordBound(s[off..off + 4]);
    Powers();
    Word(s[off..off + 4])
  }

  function U64(s: seq<byte>, off: nat): u64
    requires off + 8 <= |s|
  {
    WordBound(s[off..off + 8]);
    Powers();
    Word(s[off..off + 8])
  }

  function LE16(v: u16): seq<byte> {
    Encode(v, 2)
  }

  function LE32(v: u32): seq<byte> {
    Encode(v, 4)
  }

  function LE64(v: u64): seq<byte> {
    Encode(v, 8)
  }

  function Reverse(s: seq<byte>): (r: seq<byte>)
    ensures |r| == |s| && forall i :: 0 <= i < |s| ==> r[i] == s[|s| - 1 - i]
  {
    seq(|s|, i requires 0 <= i < |s| => s[|s| - 1 - i])
  }

  lemma ReverseTwice(s: seq<byte>)
    ensures Reverse(Reverse(s)) == s
  {
  }

  /** Big-endian words. */
  function BE16(v: u16): seq<byte> {
    Reverse(LE16(v))
  }

  function BE32(v: u32): seq<byte> {
    Reverse(LE32(v))
  }

  function BE64(v: u64): seq<byte> {
    Reverse(LE64(v))
  }

  /** Fields of a splice: the stored one is read back, the others are kept. */
  lemma FieldsOfSplice(d: seq<byte>, at: nat, x: seq<byte>, off: nat)
    requires at + |x| <= |d|
    ensures off + 2 <= at || at + |x| <= off <= off + 2 <= |d| ==> U16(Splice(d, at, x), off) == U16(d, off)
    ensures off + 4 <= at || at + |x| <= off <= off + 4 <= |d| ==> U32(Splice(d, at, x), off) == U32(d, off)
    ensures |x| == 2 ==> U16(Splice(d, at, x), at) == U16(x, 0)
    ensures |x| == 4 ==> U32(Splice(d, at, x), at) == U32(x, 0)
  {
    if off + 2 <= |d| {
      SpliceAt(d, at, x, off, off + 2);
    }
    if off + 4 <= |d| {
      SpliceAt(d, at, x, off, off + 4);
    }
    assert x[0..|x|] == x;
    SpliceAt(d, at, x, 0, 0);
  }

  lemma EncodedFields(v: nat)
    ensures v < 0x1_0000 ==> U16(LE16(v), 0) == v
    ensures v < 0x1_0000_0000 ==> U32(LE32(v), 0) == v
  {
    Powers();
    if v < 0x1_0000 {
      WordOfEncode(v, 2);
      assert LE16(v)[0..2] == LE16(v);
    }
    if v < 0x1_0000_0000 {
      WordOfEncode(v, 4);
      assert LE32(v)[0..4] == LE32(v);
    }
  }

  lemma EncodedField64(v: u64)
    ensures U64(LE64(v), 0) == v
  {
    Powers();
    WordOfEncode(v, 8);
    assert LE64(v)[0..8] == LE64(v);
  }

  lemma Field64OfSlice(s: seq<byte>, lo: nat, hi: nat, k: nat)
    requires lo <= hi <= |s| && k + 8 <= hi - lo
    ensures U64(s[lo..hi], k) == U64(s, lo + k)
  {
    SliceOfSlice(s, lo, hi, k, k + 8);
  }

  /** Fields of a slice are fields of the whole sequence at the shifted offset. */
  lemma FieldsOfSlice(s: seq<byte>, lo: nat, hi: nat, k: nat)
    requires lo <= hi <= |s|
    ensures k + 2 <= hi - lo ==> U16(s[lo..hi], k) == U16(s, lo + k)
    ensures k + 4 <= hi - lo ==> U32(s[lo..hi], k) == U32(s, lo + k)
  {
    if k + 2 <= hi - lo {
      SliceOfSlice(s, lo, hi, k, k + 2);
    }
    if k + 4 <= hi - lo {
      SliceOfSlice(s, lo, hi, k, k + 4);
    }
  }
}
