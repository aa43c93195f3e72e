/** A download from its command to its OKAY: fastboot above, the message layer and TCP below. */
module FastbootDownload {
  import opened Bytes
  import opened CommandLine
  import opened FastbootSteps
  import opened FastbootQueue
  import FastbootTcp

  /** The first half: DATA is sent and the data awaited. */
  method Begin(f: Fastboot, text: string, commands: Commands)
    requires f.Valid() && f.reading && f.state == Complete && |text| < f.command.Length
    requires Runs(CString(text)) && commands(Ran(CString(text))).StartsDownload?
    modifies f, f.command
    ensures f.Valid() && f.state == Download && f.next == Complete && !f.reading && !f.sending
            && f.asked == old(f.asked)
    ensures var data := Msg(DATA, commands(Ran(CString(text))).text);
            f.wire == old(f.wire) + [data] && LastOf(f.answers) == [data]
  {
    hide Inv, CString, Ran, Runs;
    f.Serve(text, commands);
    Waiting(f.Now());
  }

  lemma Waiting(w: World)
    requires Inv(w) && w.state == Download
    ensures !w.reading && !w.sending && w.answers != [] && w.txbuf == []
  {
  }

  /** The second half: OKAY is sent and the next command read. */
  method End(f: Fastboot)
    requires f.Valid() && f.state == Download && f.next == Complete
    modifies f
    ensures f.Valid() && f.state == Complete && f.next == Complete && f.reading && !f.sending
    ensures f.asked == old(f.asked) + 1 && f.wire == old(f.wire) + [DOWNLOADED]
    ensures LastOf(f.answers) == old(LastOf(f.answers)) + [DOWNLOADED]
  {
    hide Inv, CString, Flatten, Given;
    ghost var w := f.Now();
    Waiting(w);
    Written(w);
    GivenFlat(w.answers, [DOWNLOADED]);
    f.DataRead(true, true);
    f.Drain();
  }

  lemma Written(w: World)
    requires Inv(w) && w.txbuf == [] && w.state == Download
    ensures w.wire == Flatten(w.answers)
  {
    assert w.wire + [] == w.wire;
  }

  /** An empty message comes before the last byte. */
  predicate Blocked(ms: seq<FastbootTcp.Message>, size: nat) {
    exists i :: 0 <= i < |ms| && ms[i] == [] && FastbootTcp.Carried(ms, i) < size
  }

  /**
   * A command that starts a download of `size` bytes, followed by the messages `ms` on the same link: DATA goes out,
   * the bytes arrive in order behind each other, and exactly when the last one is there one OKAY goes out and the
   * next command is read; whatever stops the messages before that leaves the host with DATA alone.
   */
  method CarryOut(f: Fastboot, link: FastbootTcp.Link, text: string, commands: Commands, size: nat,
                  ms: seq<FastbootTcp.Message>)
    returns (r: FastbootTcp.Outcome, used: nat)
    requires f.Valid() && f.reading && f.state == Complete && |text| < f.command.Length
    requires Runs(CString(text)) && commands(Ran(CString(text))).StartsDownload?
    requires link.Valid() && link.Idle() && link.tcpState == FastbootTcp.Ready && 0 < size <= link.data.Length
    requires link.tcp.taken <= |link.tcp.input| && FastbootTcp.Frames(ms) <= link.tcp.input[link.tcp.taken..]
    modifies f, f.command, link, link.tcp, link.header, link.data
    ensures f.Valid() && used <= |ms| && (link.tcp.Clean() ==> r != FastbootTcp.Cut)
    ensures r == FastbootTcp.Waiting ==> FastbootTcp.Carried(ms, |ms|) < size && [] !in ms
    ensures FastbootTcp.Carried(ms, |ms|) < size && [] !in ms ==> r == FastbootTcp.Waiting || r == FastbootTcp.Cut
    ensures r == FastbootTcp.Stuck ==> Blocked(ms, size)
    ensures Blocked(ms, size) ==> r == FastbootTcp.Stuck || r == FastbootTcp.Cut
    ensures var data := Msg(DATA, commands(Ran(CString(text))).text);
            if r == FastbootTcp.Okay then
              && f.wire == old(f.wire) + [data, DOWNLOADED] && LastOf(f.answers) == [data, DOWNLOADED]
              && f.next == Complete && f.state == Complete && f.reading && !f.sending && f.asked == old(f.asked) + 1
              && link.tcpState == FastbootTcp.Ready && link.Idle()
              && 0 < used && size <= |Flatten(ms[..used])| && size <= link.data.Length
              && link.data[..] == Splice(old(link.data[..]), 0, Flatten(ms[..used])[..size])
            else
              && f.wire == old(f.wire) + [data] && f.state == Download && !f.reading && !f.sending
              && f.asked == old(f.asked)
  {
    hide CString, Flatten, Ran, Runs, Splice, FastbootTcp.Frames, Fastboot.Valid, Fastboot.Now, LastOf;
    Begin(f, text, commands);
    link.StartDownload(size);
    r, used := link.Run(ms);
    if r == FastbootTcp.Okay {
      End(f);
    }
  }
}
