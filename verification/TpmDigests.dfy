/** The digest lists of the TPM commands (libedk2_tpm/Tpm2Integrity.c, libedk2_tpm/Tpm2Help.c). */
module TpmDigests {
  import opened Bytes

  const HASH_COUNT := 5
  const MAX_DIGEST := 64

  datatype Status = Success | DeviceError

  /** The digests of a list: SHA1, SHA256, SM3_256, SHA384 and SHA512 have a size, no other algorithm does. */
  function HashSize(alg: u16): (n: nat)
    ensures n <= MAX_DIGEST
  {
    if alg == 0x0004 then 20
    else if alg == 0x000B then 32
    else if alg == 0x0012 then 32
    else if alg == 0x000C then 48
    else if alg == 0x000D then 64
    else 0
  }

  const HASH_INFO: seq<(u16, nat)> := [(0x0004, 20), (0x000B, 32), (0x0012, 32), (0x000C, 48), (0x000D, 64)]

  /** GetHashSizeFromAlgo. */
  method GetHashSizeFromAlgo(alg: u16) returns (n: nat)
    ensures n == HashSize(alg)
  {
    for i := 0 to |HASH_INFO|
      invariant forall k :: 0 <= k < i ==> HASH_INFO[k].0 != alg
    {
      if HASH_INFO[i].0 == alg {
        return HASH_INFO[i].1;
      }
    }
    assert HASH_INFO[0].0 != alg && HASH_INFO[1].0 != alg && HASH_INFO[2].0 != alg;
    assert HASH_INFO[3].0 != alg && HASH_INFO[4].0 != alg;
    n := 0;
  }

  /** SwapBytes16 and SwapBytes32: shifts in a word of that width. */
  function Swap16(v: u16): u16 {
    v * 0x100 % 0x1_0000 + v / 0x100
  }

  function Swap32(v: u32): u32 {
    Swap16(v % 0x1_0000) * 0x1_0000 + Swap16(v / 0x1_0000)
  }

  /** A swapped word stored by a little-endian machine is big-endian, and swapping twice undoes it. */
  lemma SwappedStore(w: u32)
    ensures LE32(Swap32(w)) == BE32(w) && Swap32(Swap32(w)) == w
  {
    hide Swap16, Encode, Reverse;
    var hi, lo := w / 0x1_0000, w % 0x1_0000;
    Store16(hi);
    Store16(lo);
    var x, y := Swap16(lo), Swap16(hi);
    Store32(x, y);
    Store32(hi, lo);
    Halves(x, y);
    Halves(hi, lo);
    ReverseParts(LE16(lo), LE16(hi));
    assert w == hi * 0x1_0000 + lo;
  }

  lemma ReverseParts(a: seq<byte>, b: seq<byte>)
    ensures Reverse(a + b) == Reverse(b) + Reverse(a)
  {
  }

  lemma Halves(hi: u16, lo: u16)
    ensures (hi * 0x1_0000 + lo) / 0x1_0000 == hi && (hi * 0x1_0000 + lo) % 0x1_0000 == lo
  {
  }

  lemma LE16Is(v: u16)
    ensures LE16(v) == [(v % 256) as byte, (v / 256) as byte]
  {
    assert Encode(v, 2) == [(v % 256) as byte] + Encode(v / 256, 1);
    assert Encode(v / 256, 1) == [(v / 256 % 256) as byte] + Encode(v / 256 / 256, 0);
  }

  lemma Shifted(hi: nat, lo: nat)
    requires lo < 256
    ensures (hi * 256 + lo) * 0x100 % 0x1_0000 == lo * 256
  {
    var x := (hi * 256 + lo) * 0x100;
    assert x == 0x1_0000 * hi + lo * 256;
  }

  lemma BytesOf(hi: nat, lo: nat)
    requires lo < 256
    ensures (hi * 256 + lo) / 256 == hi && (hi * 256 + lo) % 256 == lo
  {
  }

  lemma SwapOf(hi: nat, lo: nat)
    requires hi < 256 && lo < 256
    ensures Swap16(hi * 256 + lo) == lo * 256 + hi
  {
    Shifted(hi, lo);
    BytesOf(hi, lo);
  }

  /** The two bytes of a word change places. */
  lemma SwappedBytes(v: u16)
    ensures Swap16(v) % 256 == v / 256 && Swap16(v) / 256 == v % 256 && Swap16(Swap16(v)) == v
  {
    hide Swap16;
    var hi, lo := v / 256, v % 256;
    SwapOf(hi, lo);
    SwapOf(lo, hi);
    BytesOf(lo, hi);
  }

  lemma Reversed(a: byte, b: byte)
    ensures Reverse([a, b]) == [b, a]
  {
    assert [a, b][..1] == [a] && [a, b][1..] == [b] && [a][..0] == [] && [b][1..] == [];
  }

  lemma Store16(v: u16)
    ensures LE16(Swap16(v)) == BE16(v) && Swap16(Swap16(v)) == v
  {
    hide Encode, LE16, Swap16, Reverse;
    SwappedBytes(v);
    LE16Is(Swap16(v));
    LE16Is(v);
    Reversed((v % 256) as byte, (v / 256) as byte);
  }

  lemma Store32(hi: u16, lo: u16)
    ensures LE32(hi * 0x1_0000 + lo) == LE16(lo) + LE16(hi)
  {
    var x := hi * 0x1_0000 + lo;
    var x1, x2, x3 := x / 256, x / 256 / 256, x / 256 / 256 / 256;
    assert x2 == hi && x % 256 == lo % 256 && x1 % 256 == lo / 256 && x3 == hi / 256;
    assert Encode(x, 4) == [(x % 256) as byte] + Encode(x1, 3);
    assert Encode(x1, 3) == [(x1 % 256) as byte] + Encode(x2, 2);
    assert Encode(lo, 2) == [(lo % 256) as byte] + Encode(lo / 256, 1);
    assert Encode(lo / 256, 1) == [(lo / 256 % 256) as byte] + Encode(lo / 256 / 256, 0);
  }

  /** A tagged digest as it goes over the wire. */
  datatype Digest = Digest(alg: u16, value: seq<byte>)

  predicate Known(d: Digest) {
    HashSize(d.alg) > 0 && |d.value| == HashSize(d.alg)
  }

  predicate AllKnown(ds: seq<Digest>) {
    forall i :: 0 <= i < |ds| ==> Known(ds[i])
  }

  function One(d: Digest): (s: seq<byte>)
    ensures |s| == 2 + |d.value|
  {
    BE16(d.alg) + d.value
  }

  function Body(ds: seq<Digest>): seq<byte> {
    if ds == [] then [] else Body(ds[..|ds| - 1]) + One(ds[|ds| - 1])
  }

  /** TPML_DIGEST_VALUES on the wire, section 10.9.2 of the TPM 2.0 Library, Part 2. */
  function Wire(ds: seq<Digest>): seq<byte>
    requires |ds| < 0x1_0000_0000
  {
    BE32(|ds|) + Body(ds)
  }

  lemma {:induction false} BodySize(ds: seq<Digest>)
    requires AllKnown(ds)
    ensures |Body(ds)| <= 66 * |ds|
  {
    if ds != [] {
      BodySize(ds[..|ds| - 1]);
    }
  }

  lemma BodyMore(ds: seq<Digest>, d: Digest)
    ensures Body(ds + [d]) == Body(ds) + One(d)
  {
    assert (ds + [d])[..|ds|] == ds;
  }

  /** TPMT_HA: room for the longest digest. */
  type Room = s: seq<byte> | |s| == 64 witness seq(64, _ => 0)
  datatype Ha = Ha(alg: u16, room: Room)

  /** What an entry holds. */
  function Held(h: Ha): Digest {
    Digest(h.alg, h.room[..HashSize(h.alg)])
  }

  function HeldAll(hs: seq<Ha>): (ds: seq<Digest>)
    ensures |ds| == |hs| && forall i :: 0 <= i < |hs| ==> ds[i] == Held(hs[i])
  {
    seq(|hs|, i requires 0 <= i < |hs| => Held(hs[i]))
  }

  /** The command or response buffer and the position `Buffer` reached in it. */
  class Cursor {
    const bytes: array<byte>
    var at: nat

    constructor (bytes: array<byte>)
      ensures this.bytes == bytes && at == 0
    {
      this.bytes, at := bytes, 0;
    }

    method Put(x: seq<byte>)
      requires at + |x| <= bytes.Length
      modifies this, bytes
      ensures at == old(at) + |x| && bytes[..] == Splice(old(bytes[..]), old(at), x)
    {
      forall i | 0 <= i < |x| {
        bytes[at + i] := x[i];
      }
      at := at + |x|;
    }

    /** One turn of the loop of Tpm2PcrExtend. */
    method WriteDigest(h: Ha) returns (r: Status)
      requires at + 66 <= bytes.Length
      modifies this, bytes
      ensures r == Success <==> HashSize(h.alg) > 0
      ensures r == Success ==>
                at == old(at) + |One(Held(h))| && bytes[..] == Splice(old(bytes[..]), old(at), One(Held(h)))
    {
      hide Splice, Swap16;
      ghost var was, p := bytes[..], at;
      Store16(h.alg);
      Put(LE16(Swap16(h.alg)));
      var size := GetHashSizeFromAlgo(h.alg);
      if size == 0 {
        return DeviceError;
      }
      Put(h.room[..size]);
      SpliceJoin(was, p, BE16(h.alg), p + 2, h.room[..size]);
      r := Success;
    }

    /** The digest list of Tpm2PcrExtend, written from the position on. */
    method WriteDigests(hs: seq<Ha>) returns (r: Status)
      requires |hs| <= HASH_COUNT && at + 334 <= bytes.Length
      modifies this, bytes
      ensures r == Success <==> forall i :: 0 <= i < |hs| ==> HashSize(hs[i].alg) > 0
      ensures r == Success ==> at == old(at) + |Wire(HeldAll(hs))| <= bytes.Length
      ensures r == Success ==> bytes[..] == Splice(old(bytes[..]), old(at), Wire(HeldAll(hs)))
    {
      hide Splice, Swap32, Body, One, Held;
      ghost var was, start, n := bytes[..], at, BE32(|hs|);
      SwappedStore(|hs|);
      Put(LE32(Swap32(|hs|)));
      ghost var done: seq<Digest> := [];
      NoBody();
      assert n + Body(done) == n;
      for i := 0 to |hs|
        invariant done == HeldAll(hs[..i]) && |Body(done)| <= 66 * i
        invariant at == start + 4 + |Body(done)| && bytes[..] == Splice(was, start, n + Body(done))
        invariant forall k :: 0 <= k < i ==> HashSize(hs[k].alg) > 0
      {
        ghost var p, x := at, n + Body(done);
        r := WriteDigest(hs[i]);
        if r != Success {
          return;
        }
        BodyMore(done, Held(hs[i]));
        HeldMore(hs, i);
        SpliceJoin(was, start, x, p, One(Held(hs[i])));
        Associate(n, Body(done), One(Held(hs[i])));
        done := done + [Held(hs[i])];
      }
      assert hs[..|hs|] == hs;
      r := Success;
    }

    /** ReadUnaligned16 and SwapBytes16. */
    method Read16() returns (v: u16)
      requires at + 2 <= bytes.Length
      modifies `at
      ensures at == old(at) + 2 && BE16(v) == bytes[old(at)..at]
    {
      var x := U16(bytes[..], at);
      Store16(x);
      Store16(Swap16(x));
      EncodeOfWord(bytes[..][at..at + 2]);
      at := at + 2;
      v := Swap16(x);
    }

    method Read32() returns (v: u32)
      requires at + 4 <= bytes.Length
      modifies `at
      ensures at == old(at) + 4 && BE32(v) == bytes[old(at)..at]
    {
      var x := U32(bytes[..], at);
      SwappedStore(Swap32(x));
      SwappedStore(x);
      EncodeOfWord(bytes[..][at..at + 4]);
      at := at + 4;
      v := Swap32(x);
    }

    /** One turn of the loop of Tpm2PcrEvent. */
    method ReadDigest(list: array<Ha>, i: nat) returns (r: Status)
      requires i < list.Length && at + 66 <= bytes.Length
      modifies this, list
      ensures forall k :: 0 <= k < list.Length && k != i ==> list[k] == old(list[k])
      ensures r == Success ==> Known(Held(list[i])) && at == old(at) + |One(Held(list[i]))|
      ensures r == Success ==> bytes[old(at)..at] == One(Held(list[i]))
      ensures r == DeviceError ==> forall d: Digest :: BE16(d.alg) == bytes[old(at)..old(at) + 2] ==> !Known(d)
    {
      hide BE16;
      ghost var q := at;
      var alg := Read16();
      list[i] := Ha(alg, list[i].room);
      var size := GetHashSizeFromAlgo(alg);
      if size == 0 {
        Refused(alg);
        return DeviceError;
      }
      list[i] := Ha(alg, bytes[at..at + size] + list[i].room[size..]);
      at := at + size;
      assert Held(list[i]).value == bytes[q + 2..at];
      assert bytes[q..at] == bytes[q..q + 2] + bytes[q + 2..at];
      r := Success;
    }

    /** The digest list of the response to Tpm2PcrEvent; `out` are the digests read. */
    method ReadDigests(list: array<Ha>) returns (r: Status, count: u32, ghost out: seq<Digest>)
      requires list.Length == HASH_COUNT && at + 334 <= bytes.Length
      modifies this, list
      ensures BE32(count) == bytes[old(at)..old(at) + 4]
      ensures |out| <= HASH_COUNT && |out| <= count && AllKnown(out) && out == HeldAll(list[..|out|])
      ensures old(at) + 4 + |Body(out)| <= bytes.Length && bytes[old(at) + 4..old(at) + 4 + |Body(out)|] == Body(out)
      ensures r == Success ==> |out| == count && at == old(at) + 4 + |Body(out)|
      ensures r == DeviceError ==>
                count > HASH_COUNT || (|out| < count && Rejects(bytes[..], old(at) + 4 + |Body(out)|))
      ensures count > HASH_COUNT ==> r == DeviceError
    {
      hide Body, One, Held, BE16, BE32, Rejects;
      ghost var start := at;
      out := [];
      NoBody();
      count := Read32();
      if count > HASH_COUNT {
        return DeviceError, count, out;
      }
      for i := 0 to count
        invariant |out| == i && AllKnown(out) && out == HeldAll(list[..i]) && |Body(out)| <= 66 * i
        invariant at == start + 4 + |Body(out)| && bytes[start + 4..at] == Body(out)
      {
        ghost var q, before := at, list[..i];
        r := ReadDigest(list, i);
        assert list[..i] == before;
        if r != Success {
          RejectsHere(bytes[..], q);
          return;
        }
        HeldMore(list[..], i);
        assert list[..][..i] == before && list[..][..i + 1] == list[..i + 1];
        BodyMore(out, Held(list[i]));
        assert bytes[start + 4..at] == bytes[start + 4..q] + bytes[q..at];
        out := out + [Held(list[i])];
      }
      r := Success;
    }
  }

  /** No digest with a known algorithm stands at `q`. */
  ghost predicate Rejects(b: seq<byte>, q: nat) {
    q + 2 <= |b| && forall d: Digest :: BE16(d.alg) == b[q..q + 2] ==> !Known(d)
  }

  lemma RejectsHere(b: seq<byte>, q: nat)
    requires q + 2 <= |b| && forall d: Digest :: BE16(d.alg) == b[q..q + 2] ==> !Known(d)
    ensures Rejects(b, q)
  {
  }

  lemma Refused(alg: u16)
    requires HashSize(alg) == 0
    ensures forall d: Digest :: BE16(d.alg) == BE16(alg) ==> !Known(d)
  {
    forall d: Digest | BE16(d.alg) == BE16(alg)
      ensures !Known(d)
    {
      BE16Same(d.alg, alg);
    }
  }

  lemma BE16Same(a: u16, b: u16)
    requires BE16(a) == BE16(b)
    ensures a == b
  {
    Powers();
    ReverseTwice(LE16(a));
    ReverseTwice(LE16(b));
    WordOfEncode(a, 2);
    WordOfEncode(b, 2);
  }

  lemma NoBody()
    ensures Body([]) == []
  {
  }

  lemma HeldMore(hs: seq<Ha>, i: nat)
    requires i < |hs|
    ensures HeldAll(hs[..i + 1]) == HeldAll(hs[..i]) + [Held(hs[i])] && |One(Held(hs[i]))| <= 66
  {
  }

  lemma {:induction false} BodyPrefix(ds: seq<Digest>, i: nat)
    requires i <= |ds|
    ensures Body(ds[..i]) <= Body(ds)
    decreases |ds| - i
  {
    if i < |ds| {
      BodyPrefix(ds, i + 1);
      assert ds[..i + 1] == ds[..i] + [ds[i]];
      BodyMore(ds[..i], ds[i]);
    } else {
      assert ds[..i] == ds;
    }
  }

  /** Where one known digest stands no other one does. */
  lemma OneSame(s: seq<byte>, x: Digest, y: Digest)
    requires Known(x) && Known(y) && One(x) <= s && One(y) <= s
    ensures x == y
  {
    assert One(x)[..2] == s[..2] == One(y)[..2];
    assert BE16(x.alg) == One(x)[..2] && BE16(y.alg) == One(y)[..2];
    BE16Same(x.alg, y.alg);
    assert One(x)[2..] == x.value && One(y)[2..] == y.value;
    assert One(x) == s[..|One(x)|] == One(y);
  }

  /** The digests at the start of some bytes are unique. */
  lemma {:induction false} BodySame(s: seq<byte>, a: seq<Digest>, b: seq<Digest>)
    requires AllKnown(a) && AllKnown(b) && |a| <= |b| && Body(a) <= s && Body(b) <= s
    ensures a == b[..|a|]
  {
    hide Body, One, HashSize;
    if a != [] {
      var n := |a| - 1;
      assert a == a[..n] + [a[n]] && b[..n + 1] == b[..n] + [b[n]];
      BodyMore(a[..n], a[n]);
      BodyMore(b[..n], b[n]);
      BodyPrefix(a, n);
      BodyPrefix(b, n + 1);
      BodySame(s, a[..n], b);
      var p := |Body(a[..n])|;
      assert Body(a[..n]) + One(a[n]) <= s && Body(b[..n]) + One(b[n]) <= s;
      Rest(Body(a[..n]), One(a[n]), s);
      Rest(Body(b[..n]), One(b[n]), s);
      OneSame(s[p..], a[n], b[n]);
    }
  }

  lemma Rest(x: seq<byte>, y: seq<byte>, s: seq<byte>)
    requires x + y <= s
    ensures |x| <= |s| && y <= s[|x|..]
  {
    assert (x + y)[|x|..] == y;
  }

  /** Tpm2PcrEvent's loop reads back what Tpm2PcrExtend's loop wrote. */
  method Echo(c: Cursor, hs: seq<Ha>, list: array<Ha>) returns (w: Status, r: Status, count: u32)
    requires |hs| <= HASH_COUNT && c.at + 334 <= c.bytes.Length && list.Length == HASH_COUNT
    modifies c, c.bytes, list
    ensures w == Success <==> forall i :: 0 <= i < |hs| ==> HashSize(hs[i].alg) > 0
    ensures w == Success ==> r == Success && count == |hs| && HeldAll(list[..|hs|]) == HeldAll(hs)
  {
    hide Body, BE32, Splice, Held, Rejects;
    var start := c.at;
    r, count := DeviceError, 0;
    w := c.WriteDigests(hs);
    if w != Success {
      return;
    }
    ghost var ds, was := HeldAll(hs), c.bytes[..];
    SpliceAt(old(c.bytes[..]), start, Wire(ds), 0, 0);
    KnownAll(hs);
    c.at := start;
    ghost var out;
    r, count, out := c.ReadDigests(list);
    ReadBack(was, start, ds, count, out);
  }

  lemma KnownAll(hs: seq<Ha>)
    requires forall i :: 0 <= i < |hs| ==> HashSize(hs[i].alg) > 0
    ensures AllKnown(HeldAll(hs))
  {
  }

  lemma BE32Same(a: u32, b: u32)
    requires BE32(a) == BE32(b)
    ensures a == b
  {
    Powers();
    ReverseTwice(LE32(a));
    ReverseTwice(LE32(b));
    WordOfEncode(a, 4);
    WordOfEncode(b, 4);
  }

  /** On a written list the reader cannot stop early. */
  lemma ReadBack(b: seq<byte>, start: nat, ds: seq<Digest>, count: u32, out: seq<Digest>)
    requires AllKnown(ds) && |ds| <= HASH_COUNT && AllKnown(out) && |out| <= count
    requires start + |Wire(ds)| <= |b| && b[start..start + |Wire(ds)|] == Wire(ds)
    requires start + 4 <= |b| && BE32(count) == b[start..start + 4]
    requires start + 4 + |Body(out)| <= |b| && b[start + 4..start + 4 + |Body(out)|] == Body(out)
    ensures count == |ds| && out == ds[..|out|]
    ensures |out| < count ==> !Rejects(b, start + 4 + |Body(out)|)
  {
    hide Body, BE32, Wire, HashSize, Rejects;
    var s := b[start + 4..];
    Wires(b, start, ds);
    BE32Same(count, |ds|);
    assert Body(out) == s[..|Body(out)|];
    BodySame(s, out, ds);
    if |out| < |ds| {
      NextFound(b, start + 4, ds, |out|, start + 4 + |Body(out)|);
    }
  }

  /** After the first `k` digests of a list comes a known one. */
  lemma NextFound(b: seq<byte>, p: nat, ds: seq<Digest>, k: nat, q: nat)
    requires AllKnown(ds) && k < |ds| && p <= |b| && Body(ds) <= b[p..] && q == p + |Body(ds[..k])|
    ensures !Rejects(b, q)
  {
    hide Body, HashSize;
    var s, x := b[p..], Body(ds[..k]);
    assert ds[..k + 1] == ds[..k] + [ds[k]];
    BodyMore(ds[..k], ds[k]);
    BodyPrefix(ds, k + 1);
    Rest(x, One(ds[k]), s);
    assert One(ds[k])[..2] == BE16(ds[k].alg);
    assert s[|x|..][..2] == b[q..q + 2];
  }

  lemma Wires(b: seq<byte>, start: nat, ds: seq<Digest>)
    requires |ds| <= HASH_COUNT && start + |Wire(ds)| <= |b| && b[start..start + |Wire(ds)|] == Wire(ds)
    ensures start + 4 <= |b| && b[start..start + 4] == BE32(|ds|) && Body(ds) <= b[start + 4..]
  {
    hide Body, Encode;
    TwoParts(b, start, BE32(|ds|), Body(ds));
  }

  lemma TwoParts(b: seq<byte>, start: nat, h: seq<byte>, t: seq<byte>)
    requires start + |h + t| <= |b| && b[start..start + |h + t|] == h + t
    ensures b[start..start + |h|] == h && t <= b[start + |h|..]
  {
    var w := b[start..start + |h + t|];
    assert b[start..start + |h|] == w[..|h|];
    assert b[start + |h|..][..|t|] == w[|h|..];
  }
}
