/** The streams that the readers produce: header bytes and bytes of memory. */
module MemoryStream {
  import opened Bytes

  datatype Status = Success | InvalidParameter | OutOfResources

  /** A byte of the stream: a byte of a header, or the memory byte at an address. */
  datatype Item = Lit(value: byte) | Mem(addr: nat)

  function Lits(s: seq<byte>): (r: seq<Item>)
    ensures |r| == |s|
  {
    seq(|s|, i requires 0 <= i < |s| => Lit(s[i]))
  }

  function MemRange(addr: nat, n: nat): (r: seq<Item>)
    ensures |r| == n
  {
    seq(n, i requires 0 <= i => Mem(addr + i))
  }

  /** A piece taken off the front of what is left of a file. */
  lemma TakeFront(file: seq<Item>, at: nat, data: seq<Item>, rest: seq<Item>, next: nat)
    requires at <= |file| && file[at..] == data + rest && next == at + |data|
    ensures next <= |file| && data == file[at..next] && file[next..] == rest
  {
    assert |file[at..]| == |data| + |rest|;
    assert file[at..next] == file[at..][..|data|] && file[next..] == file[at..][|data|..];
  }

  /** The bytes of the stream for a given memory. */
  function Render(items: seq<Item>, mem: nat -> byte): (s: seq<byte>)
    ensures |s| == |items|
  {
    seq(|items|, i requires 0 <= i < |items| =>
      match items[i] case Lit(b) => b case Mem(a) => mem(a))
  }

  lemma RenderConcat(a: seq<Item>, b: seq<Item>, mem: nat -> byte)
    ensures Render(a + b, mem) == Render(a, mem) + Render(b, mem)
  {
  }

  lemma RenderParts(s: seq<byte>, addr: nat, n: nat, mem: nat -> byte)
    ensures Render(Lits(s), mem) == s && Render(MemRange(addr, n), mem) == Part(mem, addr, n)
  {
  }

  lemma RenderNothing(mem: nat -> byte)
    ensures Render([], mem) == []
  {
  }
}
