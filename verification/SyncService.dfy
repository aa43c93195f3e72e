/** Sending a file over ADB sync (libadb/sync_service.c): one WRTE packet per OKAY, framing the reader's output. */
module SyncService {
  import opened Bytes
  import opened Readers

  const MSG_SZ := 8

  const ID_DATA: seq<byte> := [0x44, 0x41, 0x54, 0x41]
  const ID_DONE: seq<byte> := [0x44, 0x4f, 0x4e, 0x45]

  datatype Status = Success | InvalidParameter | ReaderError | SendError
  datatype State = Established | SendingData

  // ----- what the host receives

  function DataMsg(size: u32): (s: seq<byte>)
    ensures |s| == MSG_SZ
  {
    ID_DATA + LE32(size)
  }

  function DoneMsg(): (s: seq<byte>)
    ensures |s| == MSG_SZ
  {
    ID_DONE + LE32(0)
  }

  datatype Received = Incomplete | Malformed | Complete(file: seq<byte>)

  /** The host's end of the protocol: DATA messages with their bodies, up to DONE, and nothing after it. */
  function Host(wire: seq<byte>, file: seq<byte>): Received
    decreases |wire|
  {
    if |wire| < MSG_SZ then Incomplete
    else
      var id, size := wire[..4], U32(wire, 4);
      if id == ID_DONE then if |wire| == MSG_SZ then Complete(file) else Malformed
      else if id != ID_DATA then Malformed
      else if |wire| < MSG_SZ + size then Incomplete
      else Host(wire[MSG_SZ + size..], file + wire[MSG_SZ..MSG_SZ + size])
  }

  predicate ValidBlock(b: seq<byte>) {
    0 < |b| <= SYNC_DATA_MAX
  }

  predicate ValidBlocks(bs: seq<seq<byte>>) {
    forall i :: 0 <= i < |bs| ==> ValidBlock(bs[i])
  }

  function Frame(b: seq<byte>): seq<byte>
    requires ValidBlock(b)
  {
    DataMsg(|b|) + b
  }

  function Frames(bs: seq<seq<byte>>): seq<byte>
    requires ValidBlocks(bs)
  {
    if bs == [] then [] else Frame(bs[0]) + Frames(bs[1..])
  }

  /** Reading the header of a message off the front. */
  lemma MsgFields(id: seq<byte>, size: u32, tail: seq<byte>)
    requires |id| == 4
    ensures var w := id + LE32(size) + tail; w[..4] == id && U32(w, 4) == size && w[MSG_SZ..] == tail
  {
    var w := id + LE32(size) + tail;
    EncodedFields(size);
    assert w[4..8] == LE32(size) == LE32(size)[0..4];
  }

  /** One framed block is received as its body. */
  lemma HostFrame(b: seq<byte>, tail: seq<byte>, file: seq<byte>)
    requires ValidBlock(b)
    ensures Host(Frame(b) + tail, file) == Host(tail, file + b)
  {
    hide LE32, U32;
    var w := Frame(b) + tail;
    MsgFields(ID_DATA, |b|, b + tail);
    assert w == ID_DATA + LE32(|b|) + (b + tail);
    assert w[MSG_SZ..][..|b|] == b && w[MSG_SZ..MSG_SZ + |b|] == w[MSG_SZ..][..|b|];
    assert w[MSG_SZ + |b|..] == w[MSG_SZ..][|b|..] == tail;
  }

  lemma HostDone(file: seq<byte>)
    ensures Host(DoneMsg(), file) == Complete(file)
  {
    MsgFields(ID_DONE, 0, []);
    assert DoneMsg() == ID_DONE + LE32(0) + [];
  }

  /** The host gets the blocks back, in order, and knows that the file is complete. */
  lemma {:induction false} HostReceives(bs: seq<seq<byte>>, file: seq<byte>)
    requires ValidBlocks(bs)
    ensures Host(Frames(bs) + DoneMsg(), file) == Complete(file + Flatten(bs))
    decreases |bs|
  {
    hide Host, DoneMsg, Frame;
    if bs == [] {
      HostDone(file);
      assert Frames(bs) + DoneMsg() == DoneMsg() && file + Flatten(bs) == file;
    } else {
      HostFrame(bs[0], Frames(bs[1..]) + DoneMsg(), file);
      HostReceives(bs[1..], file + bs[0]);
      Associate(Frame(bs[0]), Frames(bs[1..]), DoneMsg());
      Associate(file, bs[0], Flatten(bs[1..]));
    }
  }

  /** Before DONE the host waits for more, whatever part of the frames it has. */
  lemma {:induction false} HostWaits(bs: seq<seq<byte>>, part: seq<byte>, file: seq<byte>)
    requires ValidBlocks(bs) && Host(part, file + Flatten(bs)) == Incomplete
    ensures Host(Frames(bs) + part, file) == Incomplete
    decreases |bs|
  {
    hide Host, Frame;
    if bs == [] {
      assert Frames(bs) + part == part && file + Flatten(bs) == file;
    } else {
      HostFrame(bs[0], Frames(bs[1..]) + part, file);
      Associate(file, bs[0], Flatten(bs[1..]));
      HostWaits(bs[1..], part, file + bs[0]);
      Associate(Frame(bs[0]), Frames(bs[1..]), part);
    }
  }

  lemma {:induction false} FramesSnoc(bs: seq<seq<byte>>, b: seq<byte>)
    requires ValidBlocks(bs) && ValidBlock(b)
    ensures ValidBlocks(bs + [b]) && Frames(bs + [b]) == Frames(bs) + Frame(b)
  {
    hide Frame;
    if bs == [] {
      assert bs + [b] == [b] && [b][1..] == [];
    } else {
      FramesSnoc(bs[1..], b);
      assert (bs + [b])[1..] == bs[1..] + [b];
    }
  }

  /** Part of a framed block: its header and a prefix of its body. */
  lemma HostPart(b: seq<byte>, n: nat, file: seq<byte>)
    requires ValidBlock(b) && n < |b|
    ensures Host(DataMsg(|b|) + b[..n], file) == Incomplete
  {
    MsgFields(ID_DATA, |b|, b[..n]);
  }

  lemma FlattenSnoc(ws: seq<seq<byte>>, w: seq<byte>)
    ensures Flatten(ws + [w]) == Flatten(ws) + w
  {
    FlattenConcat(ws, [w]);
    FlattenOne(w);
  }

  /** Payloads that asock_write accepts; none of them is empty. */
  predicate Packets(wire: seq<seq<byte>>, maxPayload: nat) {
    forall i :: 0 <= i < |wire| ==> 0 < |wire[i]| <= maxPayload
  }

  lemma ReadOn(stream: seq<byte>, pos: nat, next: nat, data: seq<byte>, blocks: seq<seq<byte>>)
    requires pos <= next <= |stream| && data == stream[pos..next] && Flatten(blocks) == stream[..pos]
    ensures Flatten(blocks) + data == stream[..next]
    ensures pos == |stream| ==> Flatten(blocks) == stream
  {
  }

  lemma HeaderOnly(blocks: seq<seq<byte>>, buf: seq<byte>)
    requires ValidBlocks(blocks) && ValidBlock(buf)
    ensures Frames(blocks) + DataMsg(|buf|) == Frames(blocks) + (DataMsg(|buf|) + buf[..0])
  {
    hide DataMsg;
    assert DataMsg(|buf|) + buf[..0] == DataMsg(|buf|);
  }

  lemma BodyPart(blocks: seq<seq<byte>>, buf: seq<byte>, i: nat, j: nat)
    requires ValidBlocks(blocks) && ValidBlock(buf) && i <= j <= |buf|
    ensures Frames(blocks) + (DataMsg(|buf|) + buf[..i]) + buf[i..j] == Frames(blocks) + (DataMsg(|buf|) + buf[..j])
  {
    hide DataMsg;
    assert buf[..j] == buf[..i] + buf[i..j];
    Associate(DataMsg(|buf|), buf[..i], buf[i..j]);
    Associate(Frames(blocks), DataMsg(|buf|) + buf[..i], buf[i..j]);
  }

  lemma BlockSent(blocks: seq<seq<byte>>, buf: seq<byte>)
    requires ValidBlocks(blocks) && ValidBlock(buf)
    ensures ValidBlocks(blocks + [buf]) && Flatten(blocks + [buf]) == Flatten(blocks) + buf
    ensures Frames(blocks) + (DataMsg(|buf|) + buf[..|buf|]) == Frames(blocks + [buf])
  {
    hide DataMsg;
    assert buf[..|buf|] == buf;
    FramesSnoc(blocks, buf);
    FlattenSnoc(blocks, buf);
  }

  /** A sync context and its socket; `sendOk` says which packets the transport takes. */
  class Session {
    const reader: Reader
    const maxPayload: nat
    const sendOk: nat -> bool
    var state: State
    var needMoreData: bool
    var buf: seq<byte>
    var bufCur: nat
    var wire: seq<seq<byte>>
    ghost var blocks: seq<seq<byte>>

    constructor (reader: Reader, maxPayload: nat, sendOk: nat -> bool)
      ensures this.reader == reader && this.maxPayload == maxPayload && this.sendOk == sendOk
      ensures state == Established && wire == []
    {
      this.reader, this.maxPayload, this.sendOk := reader, maxPayload, sendOk;
      state, needMoreData, buf, bufCur, wire, blocks := Established, false, [], 0, [], [];
    }

    /** Every packet sent so far carries the next bytes of the framed stream. */
    ghost predicate Sending()
      reads this, reader, Repr(reader.source)
    {
      && state == SendingData && reader.Valid() && reader.pos <= |reader.stream|
      && ValidBlocks(blocks) && Packets(wire, maxPayload)
      && if needMoreData then Flatten(wire) == Frames(blocks) && Flatten(blocks) == reader.stream[..reader.pos]
         else
           && ValidBlock(buf) && bufCur < |buf| && MSG_SZ <= maxPayload
           && Flatten(wire) == Frames(blocks) + (DataMsg(|buf|) + buf[..bufCur])
           && Flatten(blocks) + buf == reader.stream[..reader.pos]
    }

    /** The transfer is over: the packets are the whole file and one DONE. */
    ghost predicate Sent()
      reads this, reader, Repr(reader.source)
    {
      && state == Established && reader.Valid() && reader.pos == |reader.stream|
      && ValidBlocks(blocks) && Packets(wire, maxPayload)
      && Flatten(wire) == Frames(blocks) + DoneMsg() && Flatten(blocks) == reader.stream
    }

    /** asock_write. */
    method Write(data: seq<byte>) returns (r: Status)
      modifies `wire
      ensures r == if |data| > maxPayload then InvalidParameter else if !sendOk(|old(wire)|) then SendError else Success
      ensures wire == if r == Success then old(wire) + [data] else old(wire)
      ensures r == Success ==> Flatten(wire) == Flatten(old(wire)) + data
    {
      FlattenSnoc(wire, data);
      if |data| > maxPayload {
        return InvalidParameter;
      }
      if !sendOk(|wire|) {
        return SendError;
      }
      wire := wire + [data];
      r := Success;
    }

    /** The first half of send_more_data: load a block and announce it, or announce the end. */
    method LoadMoreData() returns (r: Status)
      requires Sending() && needMoreData
      modifies this, reader, Repr(reader.source)
      ensures reader.Valid() && (r == Success ==> Sending() || Sent())
      ensures r == Success ==> |wire| == |old(wire)| + 1 && Progress() < old(Progress())
      ensures r != Success ==> wire == old(wire)
      ensures r == ReaderError ==> Sending() && reader.Fails()
      ensures r == if old(reader.Fails()) then ReaderError
                   else if maxPayload < MSG_SZ then InvalidParameter
                   else if !sendOk(|old(wire)|) then SendError else Success
    {
      hide Frames, DataMsg, DoneMsg, Flatten, Reader.Valid, Reader.Fails;
      ghost var at := reader.pos;
      var ok, data := reader.Read();
      if !ok {
        return ReaderError;
      }
      ReadOn(reader.stream, at, reader.pos, data, blocks);
      if data == [] {
        state := Established;
        r := Write(DoneMsg());
        return;
      }
      buf, bufCur, needMoreData := data, 0, false;
      HeaderOnly(blocks, buf);
      r := Write(DataMsg(|buf|));
    }

    /** send_more_data: one WRTE packet. */
    method SendMoreData() returns (r: Status)
      requires Sending()
      modifies this, reader, Repr(reader.source)
      ensures reader.Valid() && (r == Success ==> Sending() || Sent())
      ensures r == Success ==> |wire| == |old(wire)| + 1 && Progress() < old(Progress())
      ensures r != Success ==> wire == old(wire)
      ensures r == ReaderError ==> Sending() && reader.Fails()
      ensures r == if old(needMoreData && reader.Fails()) then ReaderError
                   else if old(needMoreData) && maxPayload < MSG_SZ then InvalidParameter
                   else if !sendOk(|old(wire)|) then SendError else Success
    {
      hide Frames, DataMsg, DoneMsg, Flatten, Reader.Valid, Reader.Fails;
      if needMoreData {
        r := LoadMoreData();
        return;
      }
      var sent := Min(maxPayload, |buf| - bufCur);
      BodyPart(blocks, buf, bufCur, bufCur + sent);
      r := Write(buf[bufCur..bufCur + sent]);
      if r != Success {
        return;
      }
      bufCur := bufCur + sent;
      if bufCur == |buf| {
        BlockSent(blocks, buf);
        blocks := blocks + [buf];
        needMoreData := true;
      }
    }

    /** Bytes still to be framed or sent, counted so that every packet makes it smaller. */
    ghost function Progress(): int
      reads this, reader
    {
      if state != SendingData then 0
      else 1 + 2 * (|reader.stream| - reader.pos) + if needMoreData then 0 else |buf| - bufCur
    }

    /** sync_service_recv on a freshly opened reader: the first packet. */
    method Recv() returns (r: Status)
      requires reader.Valid() && reader.pos == 0 && wire == []
      modifies this, reader, Repr(reader.source)
      ensures reader.Valid() && (r == Success ==> (Sending() || Sent()) && |wire| == 1)
      ensures r != Success ==> wire == [] && (r == ReaderError ==> Sending() && reader.Fails())
      ensures r == if old(reader.Fails()) then ReaderError
                   else if maxPayload < MSG_SZ then InvalidParameter
                   else if !sendOk(0) then SendError else Success
    {
      hide Reader.Valid, Reader.Fails;
      state, needMoreData, blocks := SendingData, true, [];
      assert reader.stream[..0] == [];
      r := SendMoreData();
    }

    /** sync_service_okay. */
    method Okay() returns (r: Status)
      requires Sending() || Sent()
      modifies this, reader, Repr(reader.source)
      ensures old(state) == Established ==> r == Success && Sent() && wire == old(wire)
      ensures reader.Valid() && (r == Success ==> Sending() || Sent())
      ensures r == Success && old(state) == SendingData ==>
                |wire| == |old(wire)| + 1 && sendOk(|old(wire)|) && Progress() < old(Progress())
      ensures r != Success ==> wire == old(wire) && old(Sending())
      ensures r == ReaderError ==> Sending() && reader.Fails()
      ensures r == InvalidParameter ==> maxPayload < MSG_SZ
      ensures r == SendError ==> !sendOk(|wire|)
    {
      hide Reader.Valid, Reader.Fails, Frames, Flatten, DataMsg, DoneMsg;
      r := Success;
      if state == SendingData {
        r := SendMoreData();
      }
    }

    /** A whole transfer, the host acknowledging every packet: with a payload size of at least 8 bytes and no
        failure, the host ends up with exactly the reader's stream; after a failure it knows that bytes are missing. */
    method Transfer() returns (r: Status)
      requires reader.Valid() && reader.pos == 0 && wire == []
      modifies this, reader, Repr(reader.source)
      ensures reader.Valid() && (r == InvalidParameter <==> maxPayload < MSG_SZ && !old(reader.Fails()))
      ensures r == ReaderError ==> reader.Fails()
      ensures r == SendError ==> !sendOk(|wire|)
      ensures forall k :: 0 <= k < |wire| ==> sendOk(k)
      ensures r == Success ==> Sent() && Host(Flatten(wire), []) == Complete(reader.stream)
      ensures r != Success ==> Host(Flatten(wire), []) == Incomplete
    {
      hide Frames, Flatten, Host, DoneMsg, DataMsg, Packets, Reader.Valid, Reader.Fails;
      HostWaitsForAny();
      r := Recv();
      while r == Success && state == SendingData
        invariant reader.Valid() && (r == Success ==> (Sending() || Sent()) && maxPayload >= MSG_SZ)
        invariant r == InvalidParameter <==> maxPayload < MSG_SZ && !old(reader.Fails())
        invariant r == ReaderError ==> reader.Fails()
        invariant r == SendError ==> !sendOk(|wire|)
        invariant forall k :: 0 <= k < |wire| ==> sendOk(k)
        invariant r != Success ==> Host(Flatten(wire), []) == Incomplete
        decreases if r == Success then Progress() else 0
      {
        HostStillWaits(this);
        r := Okay();
      }
      if r == Success {
        HostReceives(blocks, []);
        assert [] + Flatten(blocks) == Flatten(blocks);
      }
    }
  }

  lemma HostWaitsForAny()
    ensures Host(Flatten([]), []) == Incomplete
  {
  }

  /** As long as the transfer runs, the host neither takes the file for complete nor sees a malformed message. */
  lemma HostStillWaits(s: Session)
    requires s.Sending()
    ensures Host(Flatten(s.wire), []) == Incomplete
  {
    if s.needMoreData {
      HostWaits(s.blocks, [], []);
      assert Frames(s.blocks) + [] == Frames(s.blocks);
    } else {
      HostPart(s.buf, s.bufCur, [] + Flatten(s.blocks));
      HostWaits(s.blocks, DataMsg(|s.buf|) + s.buf[..s.bufCur], []);
    }
  }
}
