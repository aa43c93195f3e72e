/**
 * Fastboot over TCP (libfastboot/fastboot_transport.c) and the download it carries (libfastboot/fastboot.c):
 * the host sends messages, each an eight byte big-endian length and its bytes.
 */
module FastbootTcp {
  import opened Bytes
  import opened TcpRx

  /** A message: its length fits the eight bytes that announce it. */
  type Message = m: seq<byte> | |m| < TWO_64 witness []

  /** be64toh on the eight bytes of a message length. */
  function FromBE64(s: seq<byte>): nat
    requires |s| == 8
  {
    U64(Reverse(s), 0)
  }

  lemma LengthRoundTrip(v: u64)
    ensures FromBE64(BE64(v)) == v
  {
    ReverseTwice(LE64(v));
    EncodedField64(v);
  }

  function Frame(m: Message): seq<byte> {
    BE64(|m|) + m
  }

  function Frames(ms: seq<Message>): seq<byte> {
    if ms == [] then [] else Frame(ms[0]) + Frames(ms[1..])
  }

  /** Bytes carried by the first `n` messages. */
  function Carried(ms: seq<Message>, n: nat): nat
    requires n <= |ms|
  {
    |Flatten(ms[..n])|
  }

  datatype TcpState = Ready | WaitingDataSize | WaitingData | Error
  datatype State = Download | Complete
  datatype Outcome = Okay | Waiting | Stuck | Cut

  /** The transport (`tcpState`, `rx`, `remaining`) and the download (`dl`, `receivedLen`, `state`). */
  class Link {
    const tcp: Tcp
    const header: array<byte>
    const data: array<byte>
    var tcpState: TcpState
    var rxBase: nat
    var rxSize: nat
    var rxUsed: nat
    var remaining: nat
    var dlSize: nat
    var receivedLen: nat
    var state: State
    var okays: nat

    ghost predicate Valid()
      reads this, tcp
    {
      tcp.Valid() && header != data && header.Length == 8 && dlSize <= data.Length
    }

    /** No TCP read is on. */
    ghost predicate Idle()
      reads tcp
    {
      !tcp.receiving && tcp.queue == []
    }

    /** A download is on and the next message is awaited. */
    ghost predicate Awaiting()
      reads this, tcp
    {
      && Valid() && Idle() && state == Download && tcpState == WaitingDataSize
      && receivedLen < dlSize && rxBase == receivedLen && rxSize == dlSize - receivedLen && rxUsed == 0
    }

    constructor (tcp: Tcp, header: array<byte>, data: array<byte>)
      requires tcp.Valid() && !tcp.receiving && tcp.queue == [] && header != data && header.Length == 8
      ensures Valid() && Idle() && this.tcp == tcp && this.data == data && this.header == header
      ensures tcpState == Ready && state == Complete && okays == 0
    {
      this.tcp, this.header, this.data := tcp, header, data;
      tcpState, rxBase, rxSize, rxUsed, remaining := Ready, 0, 0, 0, 0;
      dlSize, receivedLen, state, okays := 0, 0, Complete, 0;
    }

    /** fastboot_tcp_read, up to its tcp_read of the message length. */
    method TransportRead(at: nat, n: nat) returns (ok: bool)
      modifies this
      ensures ok <==> old(tcpState) == Ready
      ensures ok ==> tcpState == WaitingDataSize && rxBase == at && rxSize == n && rxUsed == 0
      ensures !ok ==>
                tcpState == old(tcpState) && rxBase == old(rxBase) && rxSize == old(rxSize) && rxUsed == old(rxUsed)
      ensures dlSize == old(dlSize) && receivedLen == old(receivedLen) && state == old(state) && okays == old(okays)
      ensures remaining == old(remaining)
    {
      if tcpState != Ready {
        return false;
      }
      rxBase, rxSize, rxUsed := at, n, 0;
      tcpState := WaitingDataSize;
      ok := true;
    }

    /** worker_download, after a `download:` of `size` bytes was answered with DATA. */
    method StartDownload(size: nat)
      requires Valid() && Idle() && tcpState == Ready && 0 < size <= data.Length
      modifies this
      ensures Awaiting() && receivedLen == 0 && dlSize == size && okays == old(okays)
    {
      dlSize, receivedLen := size, 0;
      var ok := TransportRead(0, dlSize);
      state := Download;
    }

    /** fastboot_process_rx while downloading. */
    method ProcessRx(at: nat, len: nat)
      requires tcpState == Ready && state == Download
      modifies this
      ensures receivedLen == old(receivedLen) + len && dlSize == old(dlSize)
      ensures receivedLen < dlSize ==>
                && state == Download && okays == old(okays) && tcpState == WaitingDataSize
                && rxBase == at + len && rxSize == dlSize - receivedLen && rxUsed == 0
      ensures receivedLen >= dlSize ==> state == Complete && okays == old(okays) + 1 && tcpState == Ready
    {
      receivedLen := receivedLen + len;
      if receivedLen < dlSize {
        var ok := TransportRead(at + len, dlSize - receivedLen);
      } else {
        state := Complete;
        okays := okays + 1;
      }
    }

    /** transport_tcp_rx_cb in WAITING_DATA, called with `n` bytes; `more` is what its next tcp_read asks for. */
    method DataArrived(n: nat) returns (more: nat)
      requires tcpState == WaitingData && state == Download && 0 < rxSize - rxUsed
      modifies this
      ensures dlSize == old(dlSize)
      ensures n > old(rxSize - rxUsed) || n > old(remaining) ==>
                tcpState == Error && more == 0 && receivedLen == old(receivedLen) && okays == old(okays)
      ensures n < old(rxSize - rxUsed) && n < old(remaining) ==>
                && tcpState == WaitingData && more == old(Min(rxSize - rxUsed, remaining)) - n > 0
                && receivedLen == old(receivedLen) && okays == old(okays)
                && rxUsed == old(rxUsed) + n && remaining == old(remaining) - n
                && rxBase == old(rxBase) && rxSize == old(rxSize)
      ensures n == old(Min(rxSize - rxUsed, remaining)) ==>
                && more == 0 && receivedLen == old(receivedLen + rxUsed) + n
                && (receivedLen < dlSize ==>
                      && state == Download && okays == old(okays) && tcpState == WaitingDataSize
                      && rxBase == old(rxBase + rxUsed) + n && rxSize == dlSize - receivedLen && rxUsed == 0)
                && (receivedLen >= dlSize ==> state == Complete && okays == old(okays) + 1 && tcpState == Ready)
    {
      more := 0;
      if n + rxUsed > rxSize || n > remaining {
        tcpState := Error;
        return;
      }
      rxUsed := rxUsed + n;
      remaining := remaining - n;
      if rxUsed == rxSize || remaining == 0 {
        tcpState := Ready;
        ProcessRx(rxBase, rxUsed);
        return;
      }
      more := Min(rxSize - rxUsed, remaining);
    }

    /** transport_tcp_rx_cb in WAITING_DATA_SIZE: the size of its tcp_read. */
    method SizeArrived() returns (n: nat)
      requires tcpState == WaitingDataSize && header.Length == 8
      modifies `remaining, `tcpState
      ensures tcpState == WaitingData && remaining == FromBE64(header[..]) && n == Min(rxSize, remaining)
    {
      remaining := FromBE64(header[..]);
      tcpState := WaitingData;
      n := Min(rxSize, remaining);
    }

    /** The length of one message is read, whatever fragments it arrives in, as far as the connection holds. */
    method ReceiveSize(m: Message) returns (ok: bool, n: nat)
      requires Awaiting() && tcp.taken <= |tcp.input|
      requires Frame(m) <= tcp.input[tcp.taken..]
      modifies this, tcp, header
      ensures Valid() && Idle() && dlSize == old(dlSize) && okays == old(okays) && state == Download
      ensures receivedLen == old(receivedLen) && rxBase == receivedLen && rxSize == dlSize - receivedLen && rxUsed == 0
      ensures ok ==>
                tcpState == WaitingData && remaining == |m| && n == Min(|m|, rxSize) && tcp.taken == old(tcp.taken) + 8
      ensures tcp.Clean() ==> ok
    {
      hide Splice, BE64, FromBE64, Tcp.Clean;
      ghost var at := tcp.taken;
      FrameAt(m, tcp.input, at);
      n := 0;
      var calls := tcp.callbacks;
      var s := tcp.ReadAll(header, 0, 8);
      ok := tcp.callbacks > calls;
      if ok {
        HeaderRead(old(header[..]), header[..], m);
        n := SizeArrived();
      }
    }

    /** One message `m` goes through the two layers. */
    method Receive(m: Message) returns (ok: bool, ghost n: nat)
      requires Awaiting() && tcp.taken <= |tcp.input|
      requires Frame(m) <= tcp.input[tcp.taken..]
      modifies this, tcp, header, data
      ensures Valid() && dlSize == old(dlSize) && n <= old(Min(|m|, dlSize - receivedLen)) && (tcp.Clean() ==> ok)
      ensures data[..] == Splice(old(data[..]), old(receivedLen), m[..n])
      ensures !ok ==> Idle() && state == Download && okays == old(okays) && receivedLen == old(receivedLen)
      ensures ok ==> n == old(Min(|m|, dlSize - receivedLen))
      ensures ok ==> receivedLen == old(receivedLen) + n && tcp.taken == old(tcp.taken) + 8 + n
      ensures ok && m == [] ==> tcp.receiving && tcp.queue == [] && state == Download && okays == old(okays)
      ensures ok && m != [] && receivedLen < dlSize ==> Awaiting() && okays == old(okays)
      ensures ok && m != [] && receivedLen == dlSize ==>
                Idle() && tcpState == Ready && state == Complete && okays == old(okays) + 1
    {
      hide Splice, BE64, FromBE64, Tcp.Clean;
      ghost var input, body := tcp.input, tcp.taken + 8;
      FrameAt(m, input, body - 8);
      var k;
      ok, k := ReceiveSize(m);
      n := 0;
      SpliceNothing(data[..], receivedLen, m[..0]);
      if !ok {
        return;
      }
      n := k;
      BodyAt(m, input, body, n);
      var s;
      if k == 0 {
        s := tcp.Read(data, rxBase, k);
        return;
      }
      var calls := tcp.callbacks;
      s := tcp.ReadAll(data, rxBase, k);
      ok := tcp.callbacks > calls;
      if ok {
        var more := DataArrived(k);
      } else {
        n := tcp.taken - body;
        BodyAt(m, input, body, n);
      }
    }

    /** The first `used` of the messages have arrived, all of them in the buffer. */
    ghost predicate Fed(ms: seq<Message>, used: nat, was: seq<byte>, start: nat)
      requires used <= |ms|
      reads this, tcp, header, data
    {
      && Awaiting() && |was| == data.Length && receivedLen == Carried(ms, used) <= |was|
      && data[..] == Splice(was, 0, Flatten(ms[..used]))
      && tcp.taken == start + |Frames(ms[..used])| <= |tcp.input| && Frames(ms[used..]) <= tcp.input[tcp.taken..]
    }

    /** The next message of a download. */
    method Feed(ms: seq<Message>, used: nat, ghost was: seq<byte>, ghost start: nat) returns (ok: bool)
      requires used < |ms| && Fed(ms, used, was, start)
      modifies this, tcp, header, data
      ensures dlSize == old(dlSize) && (tcp.Clean() ==> ok) && old(receivedLen) == Carried(ms, used) < dlSize
      ensures !ok || ms[used] == [] || state == Download ==> state == Download && okays == old(okays)
      ensures !ok ==> exists p :: p <= Flatten(ms) && |p| <= dlSize && data[..] == Splice(was, 0, p)
      ensures ok && ms[used] == [] ==> tcp.receiving && tcp.queue == []
      ensures ok && ms[used] != [] && state == Download ==> Fed(ms, used + 1, was, start)
      ensures ok && ms[used] != [] && state != Download ==>
                && state == Complete && okays == old(okays) + 1 && tcpState == Ready && Idle()
                && dlSize <= Carried(ms, used + 1) && data[..] == Splice(was, 0, Flatten(ms[..used + 1])[..dlSize])
                && (tcp.taken == start + |Frames(ms[..used + 1])| <==> Carried(ms, used + 1) == dlSize)
    {
      hide Splice, Frames, Frame, Flatten, Tcp.Clean;
      var m := ms[used];
      FramesStep(ms, used, tcp.input, tcp.taken);
      ghost var f := Flatten(ms[..used]);
      FlattenStep(ms, used);
      ghost var n;
      ok, n := Receive(m);
      SpliceNext(was, f, m, n);
      if !ok {
        FirstPart(ms, used, n);
      }
    }

    /**
     * A download fed by the messages `ms`: OKAY is answered exactly once, when the byte `dlSize` arrives,
     * and the buffer then holds the bytes in order; an empty message before that stops everything, and so does a
     * connection that breaks, with a first part of the bytes in place.
     */
    method Run(ms: seq<Message>) returns (r: Outcome, used: nat)
      requires Awaiting() && receivedLen == 0 && tcp.taken <= |tcp.input|
      requires Frames(ms) <= tcp.input[tcp.taken..]
      modifies this, tcp, header, data
      ensures used <= |ms| && dlSize == old(dlSize) <= data.Length && (tcp.Clean() ==> r != Cut)
      ensures r == Waiting ==> Carried(ms, |ms|) < dlSize && [] !in ms
      ensures r == Stuck ==> exists i :: 0 <= i < |ms| && ms[i] == [] && Carried(ms, i) < dlSize
      ensures Carried(ms, |ms|) < dlSize && [] !in ms ==> r == Waiting || r == Cut
      ensures (exists i :: 0 <= i < |ms| && ms[i] == [] && Carried(ms, i) < dlSize) ==> r == Stuck || r == Cut
      ensures r != Okay ==> state == Download && okays == old(okays)
      ensures r == Cut ==> exists p :: p <= Flatten(ms) && |p| <= dlSize && data[..] == Splice(old(data[..]), 0, p)
      ensures r == Stuck ==> tcp.receiving && tcp.queue == []
      ensures r == Waiting ==> Awaiting() && receivedLen == Carried(ms, |ms|)
      ensures r == Okay ==> state == Complete && okays == old(okays) + 1 && tcpState == Ready && Idle()
      ensures r == Okay ==> used > 0 && Carried(ms, used - 1) < dlSize <= Carried(ms, used)
      ensures r == Okay ==> data[..] == Splice(old(data[..]), 0, Flatten(ms[..used])[..dlSize])
      ensures r == Okay ==> (tcp.taken == old(tcp.taken) + |Frames(ms[..used])| <==> Carried(ms, used) == dlSize)
    {
      hide Splice, Frames, Flatten, Tcp.Clean, Tcp.Valid;
      ghost var was, start := data[..], tcp.taken;
      used := 0;
      FramesNone(ms);
      SpliceNothing(was, 0, Flatten(ms[..0]));
      while used < |ms|
        invariant used <= |ms| && Fed(ms, used, was, start) && okays == old(okays) && dlSize == old(dlSize)
        invariant state == Download && forall i :: 0 <= i < used ==> ms[i] != []
      {
        var ok := Feed(ms, used, was, start);
        if !ok {
          return Cut, used;
        }
        if ms[used] == [] {
          return Stuck, used;
        }
        used := used + 1;
        if state == Complete {
          CarriedGrows(ms, used);
          return Okay, used;
        }
      }
      assert ms[..|ms|] == ms;
      r := Waiting;
    }
  }

  /** A part of a message, behind the messages before it. */
  lemma FirstPart(ms: seq<Message>, i: nat, n: nat)
    requires i < |ms| && n <= |ms[i]|
    ensures (Flatten(ms[..i]) + ms[i])[..|Flatten(ms[..i])| + n] <= Flatten(ms)
  {
    FlattenStep(ms, i);
    FlattenConcat(ms[..i + 1], ms[i + 1..]);
    assert ms == ms[..i + 1] + ms[i + 1..];
  }

  lemma FramesNone(ms: seq<Message>)
    ensures Frames(ms[..0]) == Flatten(ms[..0]) == [] && ms[0..] == ms
  {
  }

  /** The next message of a run of messages. */
  lemma FramesStep(ms: seq<Message>, i: nat, input: seq<byte>, at: nat)
    requires i < |ms| && at <= |input| && Frames(ms[i..]) <= input[at..]
    ensures Frame(ms[i]) <= input[at..] && at + 8 + |ms[i]| <= |input|
    ensures Frames(ms[i + 1..]) <= input[at + 8 + |ms[i]|..]
    ensures |Frames(ms[..i + 1])| == |Frames(ms[..i])| + 8 + |ms[i]|
  {
    var m, rest := ms[i], Frames(ms[i + 1..]);
    assert ms[i..][1..] == ms[i + 1..];
    assert Frames(ms[i..]) == Frame(m) + rest;
    assert |Frame(m)| == 8 + |m|;
    Behead(Frame(m), rest, input, at);
    FramesLength(ms[..i + 1], i);
    assert ms[..i + 1][..i] == ms[..i];
  }

  lemma Behead(x: seq<byte>, y: seq<byte>, input: seq<byte>, at: nat)
    requires at <= |input| && x + y <= input[at..]
    ensures x <= input[at..] && at + |x| <= |input| && y <= input[at + |x|..]
  {
    assert input[at..][|x|..] == input[at + |x|..];
    assert (x + y)[..|x|] == x && (x + y)[|x|..] == y;
  }

  lemma {:induction false} FramesLength(ms: seq<Message>, i: nat)
    requires |ms| == i + 1
    ensures |Frames(ms)| == |Frames(ms[..i])| + 8 + |ms[i]|
  {
    if i > 0 {
      FramesLength(ms[1..], i - 1);
      assert ms[1..][..i - 1] == ms[..i][1..];
    }
  }

  lemma {:induction false} CarriedGrows(ms: seq<Message>, i: nat)
    requires i <= |ms|
    ensures forall j :: i <= j <= |ms| ==> Carried(ms, i) <= Carried(ms, j)
    decreases |ms| - i
  {
    if i < |ms| {
      FlattenStep(ms, i);
      CarriedGrows(ms, i + 1);
    }
  }

  /** A message, or the part of it that was wanted, goes after the bytes received before. */
  lemma SpliceNext(was: seq<byte>, f: seq<byte>, m: seq<byte>, n: nat)
    requires |f| + n <= |was| && n <= |m|
    ensures Splice(Splice(was, 0, f), |f|, m[..n]) == Splice(was, 0, (f + m)[..|f| + n])
    ensures n == |m| ==> (f + m)[..|f| + n] == f + m
  {
    assert (f + m)[..|f| + n] == f + m[..n];
  }

  /** The length of a message is read first. */
  lemma FrameAt(m: Message, input: seq<byte>, at: nat)
    requires at <= |input| && Frame(m) <= input[at..]
    ensures at + 8 + |m| <= |input| && input[at..at + 8] == BE64(|m|)
    ensures input[at + 8..at + 8 + |m|] == m
  {
    var f := input[at..][..|Frame(m)|];
    assert f == Frame(m);
    assert f[..8] == BE64(|m|) && f[8..] == m;
    assert input[at..at + 8] == f[..8];
    assert input[at + 8..at + 8 + |m|] == f[8..];
  }

  lemma HeaderRead(was: seq<byte>, now: seq<byte>, m: Message)
    requires |was| == 8 && now == Splice(was, 0, BE64(|m|))
    ensures FromBE64(now) == |m|
  {
    assert now == BE64(|m|);
    LengthRoundTrip(|m|);
  }

  lemma BodyAt(m: seq<byte>, input: seq<byte>, body: nat, n: nat)
    requires body + |m| <= |input| && input[body..body + |m|] == m && n <= |m|
    ensures input[body..body + n] == m[..n]
  {
    assert input[body..body + n] == input[body..body + |m|][..n];
  }

  lemma NothingCarried(ms: seq<Message>)
    requires ms != [] && ms[0] == []
    ensures exists i :: 0 <= i < |ms| && ms[i] == [] && Carried(ms, i) < 1
  {
    assert ms[..0] == [] && Carried(ms, 0) == 0;
  }

  /** A host that begins a download of one byte with an empty message: the device waits for ever. */
  method EmptyMessageExample(completions: nat -> Completion) returns (link: Link, r: Outcome)
    requires forall k :: completions(k).Data?
    ensures r == Stuck && link.state == Download && link.okays == 0
    ensures link.tcp.receiving && link.tcp.queue == []
  {
    hide Frames, Tcp.Valid, Flatten;
    var ms: seq<Message> := [[], [7]];
    NothingCarried(ms);
    var header, data := new byte[8](_ => 0), new byte[1](_ => 0);
    var tcp := new Tcp(Frames(ms), data, _ => Accepted, completions);
    link := new Link(tcp, header, data);
    link.StartDownload(1);
    assert tcp.input[0..] == Frames(ms);
    var used;
    r, used := link.Run(ms);
  }
}
