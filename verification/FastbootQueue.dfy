/** Fastboot at work (libfastboot/fastboot.c): commands, handlers and a queue of answers sent one by one. */
module FastbootQueue {
  import opened Bytes
  import opened CommandLine
  import opened FastbootSteps

  /** The words that the pointers of an argument list lead to. */
  function WordsAt(b: seq<char>, argv: seq<nat>): seq<string>
    requires forall i :: 0 <= i < |argv| ==> argv[i] < |b|
  {
    seq(|argv|, i requires 0 <= i < |argv| => CString(b[argv[i]..]))
  }

  lemma {:induction false} CStringOf(b: seq<char>, s: seq<char>)
    requires s <= b && (|s| < |b| ==> b[|s|] == '\0')
    ensures CString(b) == CString(s)
  {
    if s != [] && s[0] != '\0' {
      CStringOf(b[1..], s[1..]);
    }
  }

  /** The fastboot state, its command buffer, its message queue and the transport. */
  class Fastboot {
    const command: array<char>
    var state: State
    var next: State
    var txbuf: seq<Msg>
    var wire: seq<Msg>
    var sending: bool
    var reading: bool
    var asked: nat
    ghost var answers: seq<seq<Msg>>

    ghost function Now(): World
      reads this, command
    {
      World(command.Length, state, next, txbuf, wire, sending, reading, CString(command[..]), asked, answers)
    }

    /** Between two events: a command to be run is terminated. */
    ghost predicate Valid()
      reads this, command
    {
      Inv(Now()) && (state == Command ==> '\0' in command[..])
    }

    constructor (room: nat)
      ensures Valid() && fresh(command) && Now() == Initial(room)
    {
      command := new char[room](_ => '\0');
      state, next, txbuf, wire, sending, reading := Offline, Complete, [], [], false, false;
      asked, answers := 0, [];
      new;
      StartsRight(room);
    }

    /** transport_write; a refused message is lost, and fastboot with it. */
    method Write(m: Msg, ok: bool)
      modifies this
      ensures Now() == AfterWrite(old(Now()), m, ok)
    {
      if ok {
        wire, sending := wire + [m], true;
      } else {
        state := Error;
      }
    }

    /** fastboot_ack: a message that cannot be built is not sent, and nothing changes. */
    method Ack(m: Msg, made: bool, ok: bool)
      modifies this
      ensures Now() == AfterAck(old(Now()), m, made, ok)
    {
      if made {
        state := next;
        answers := Given(answers, [m]);
        Write(m, ok);
      }
    }

    /** fastboot_ack_buffered. */
    method AckBuffered(m: Msg, made: bool)
      modifies this
      ensures Now() == AfterQueued(old(Now()), m, made)
    {
      if made {
        txbuf := txbuf + [m];
        state := Tx;
        answers := Given(answers, [m]);
      }
    }

    /** fastboot_okay and fastboot_fail. */
    method Finish(m: Msg, made: bool, ok: bool)
      modifies this
      ensures Now() == AfterFinish(old(Now()), m, made, ok)
    {
      if state == Tx {
        AckBuffered(m, made);
      } else {
        Ack(m, made, ok);
      }
    }

    /** fastboot_stop. */
    method StopCalled()
      modifies this
      ensures Now() == AfterStop(old(Now()))
    {
      if state == Complete {
        state := Stopped;
      } else {
        next := Stopping;
      }
    }

    /** flush_tx_buffer: one message leaves, and with the last one the next state is reached. */
    method Flush(ok: bool)
      requires txbuf != []
      modifies this
      ensures Now() == AfterFlush(old(Now()), ok)
    {
      var m := txbuf[0];
      txbuf := txbuf[1..];
      if txbuf == [] {
        state := next;
      }
      Write(m, ok);
    }

    /** The calls a handler makes before its last message. */
    method Act(actions: seq<Action>)
      modifies this
      ensures Now() == AfterActions(old(Now()), actions)
    {
      var i := 0;
      assert actions[0..] == actions;
      while i < |actions|
        invariant i <= |actions| && AfterActions(Now(), actions[i..]) == AfterActions(old(Now()), actions)
      {
        hide AfterQueued, AfterStop, CString;
        assert actions[i..][1..] == actions[i + 1..];
        match actions[i] {
          case Info(text, made) => AckBuffered(Msg(INFO, text), made);
          case Stop => StopCalled();
        }
        i := i + 1;
      }
    }

    /** fastboot_run_root_cmd: the handler of a command; `download:` answers DATA at once. */
    method Handle(h: Handler, ok: bool)
      modifies this
      ensures Now() == AfterHandler(old(Now()), h, ok)
    {
      match h {
        case Answer(actions, _, _, made) =>
          Act(actions);
          Finish(LastMsg(h), made, ok);
        case StartsDownload(text) =>
          state := StartDownload;
          answers := Given(answers, [Msg(DATA, text)]);
          Write(Msg(DATA, text), ok);
      }
    }

    /** fastboot_run_command: only a command that was read runs, with the words its buffer is cut into. */
    method RunCommand(commands: Commands, ok: bool)
      requires Valid()
      modifies this, command
      ensures Valid() && Now() == AfterTurn(old(Now()), commands, ok)
    {
      hide Argv, Splits, Name, CString, AfterHandler, AfterFlush, Inv;
      ghost var w := Now();
      StepExact(w, Turn(commands, ok));
      if state != Command {
        return;
      }
      Running(w);
      var splits, argv := StringToArgv(command);
      if !splits {
        return;
      }
      var words := WordsAt(command[..], argv);
      assert words == Argv(w.command) by {
        assert forall i :: 0 <= i < |argv| ==> command[..][argv[i]..] == command[argv[i]..];
      }
      HandlerIs(w, commands(words), ok);
      Handle(commands(words), ok);
      if state == Tx {
        Flush(ok);
      }
    }

    /** fastboot_read_command. */
    method ReadCommand(ok: bool)
      modifies this
      ensures Now() == AfterRead(old(Now()), ok)
    {
      if ok {
        reading, asked := true, asked + 1;
      }
    }

    /** worker_download: the data is awaited, or the answer ends with FAIL. */
    method StartData(ok: bool, made: bool, failOk: bool)
      requires state == StartDownload
      modifies this
      ensures Now() == if ok then old(Now()).(state := Download) else AfterFinish(old(Now()), NO_DATA, made, failOk)
    {
      if ok {
        state := Download;
      } else {
        Finish(NO_DATA, made, failOk);
      }
    }

    /** fastboot_process_tx: a written message has left. */
    method TxDone(ok: bool, made: bool, failOk: bool)
      requires Valid() && sending
      modifies this
      ensures Valid() && Now() == AfterSent(old(Now()), ok, made, failOk)
    {
      hide CString, Inv, Given, AfterFlush, AfterFinish;
      StepExact(Now(), Sent(ok, made, failOk));
      Queued(Now());
      NotToRun(Now(), ok, made, failOk);
      sending := false;
      match state {
        case Stopping => state := Stopped;
        case Tx => Flush(ok);
        case Complete => ReadCommand(ok);
        case StartDownload => StartData(ok, made, failOk);
        case _ =>
      }
    }

    /** fastboot_start_callback. */
    method Start(ok: bool)
      requires Valid() && state == Offline
      modifies this
      ensures Valid() && Now() == After(old(Now()), Started(ok))
    {
      StepExact(Now(), Started(ok));
      state := next;
      ReadCommand(ok);
    }

    /** fastboot_process_rx with a command that the transport has put into the buffer. */
    method CommandRead(text: string, made: bool, ok: bool)
      requires Valid() && reading && state == Complete && |text| <= command.Length
      modifies this, command
      ensures Valid() && Now() == AfterCommand(old(Now()), text, made, ok)
    {
      hide CString, Flatten, Inv, Given, AfterFinish;
      ghost var w := Now();
      StepExact(w, Event.CommandRead(text, made, ok));
      reading := false;
      answers := answers + [[]];
      Deliver(text);
      if |text| >= command.Length {
        Finish(NO_FIT, made, ok);
        Answerable(w, text, made, ok);
        return;
      }
      state := Command;
    }

    method Deliver(text: string)
      requires |text| <= command.Length
      modifies command
      ensures CString(command[..]) == CString(text) && (|text| < command.Length ==> '\0' in command[..])
    {
      forall i | 0 <= i < |text| {
        command[i] := text[i];
      }
      if |text| < command.Length {
        command[|text|] := '\0';
        assert command[..][|text|] == '\0';
      }
      assert text == command[..][..|text|];
      CStringOf(command[..], text);
    }

    /** fastboot_process_rx with the last bytes of a download. */
    method DataRead(made: bool, ok: bool)
      requires Valid() && state == Download
      modifies this
      ensures Valid() && Now() == AfterData(old(Now()), made, ok)
    {
      hide CString, Flatten;
      StepExact(Now(), Event.DataRead(made, ok));
      state := Complete;
      Finish(DOWNLOADED, made, ok);
    }

    /** One event; what is not awaited does not happen. */
    method Step(e: Event)
      requires Valid()
      modifies this, command
      ensures Valid() && Now() == After(old(Now()), e)
    {
      hide CString, Flatten, AfterTurn, AfterSent, AfterCommand, AfterData, Inv;
      StepExact(Now(), e);
      match e {
        case Started(ok) => if state == Offline { Start(ok); }
        case CommandRead(text, made, ok) =>
          if reading && state == Complete && |text| <= command.Length { CommandRead(text, made, ok); }
        case Turn(commands, ok) => RunCommand(commands, ok);
        case Sent(ok, made, failOk) => if sending { TxDone(ok, made, failOk); }
        case DataRead(made, ok) => if state == Download { DataRead(made, ok); }
        case StopCall => if state == Complete { StopCalled(); }
      }
    }

    /** Any run. */
    method Run(events: seq<Event>)
      requires Valid()
      modifies this, command
      ensures Valid() && Now() == AfterAll(old(Now()), events) && old(wire) <= wire
    {
      hide CString, After, Inv;
      RunSpoils(Now(), events, 0);
      for n := 0 to |events|
        invariant Valid() && Now() == AfterAll(old(Now()), events[..n])
      {
        assert events[..n + 1][..n] == events[..n];
        Step(events[n]);
      }
      assert events[..|events|] == events;
    }

    /** The messages leave one after the other, with a transport that accepts them. */
    method Drain()
      requires Valid() && sending && (state == Complete || state == Tx || state == Stopping || state == StartDownload)
      modifies this
      ensures Valid() && !sending && answers == old(answers) && next == old(next)
      ensures wire == Flatten(answers) && txbuf == []
      ensures old(state) == StartDownload ==> state == Download && asked == old(asked)
      ensures old(state) != StartDownload && next == Complete ==>
                state == Complete && reading && asked == old(asked) + 1
      ensures old(state) != StartDownload && next == Stopping ==> state == Stopped && asked == old(asked)
    {
      hide Flatten, CString, Whole, Cut;
      while sending
        invariant Valid() && answers == old(answers) && next == old(next)
        invariant sending ==> asked == old(asked) && (state == StartDownload <==> old(state) == StartDownload)
        invariant sending ==> state == Complete || state == Tx || state == Stopping || state == StartDownload
        invariant !sending && old(state) == StartDownload ==> state == Download && asked == old(asked)
        invariant !sending && old(state) != StartDownload && next == Complete ==>
                    state == Complete && reading && asked == old(asked) + 1
        invariant !sending && old(state) != StartDownload && next == Stopping ==>
                    state == Stopped && asked == old(asked)
        decreases |txbuf|, sending
      {
        TxDone(true, true, true);
      }
      assert wire + [] == wire;
    }

    /**
     * A command from its arrival, over two turns, with a transport that accepts everything. It hangs exactly when it
     * has nothing to run; else the argument list, or the name of a line with too many words, is answered, and then
     * one command is read or fastboot stops.
     */
    method Serve(text: string, commands: Commands)
      requires Valid() && reading && state == Complete && |text| < command.Length
      modifies this, command
      ensures var line := CString(text);
              && (!Runs(line) ==> Hung(Now()) && wire == old(wire) && !sending && !reading)
              && (Runs(line) && Speaks(commands(Ran(line))) ==>
                    var h := commands(Ran(line));
                    && Valid() && !sending && wire == old(wire) + Reply(h) && LastOf(answers) == Reply(h)
                    && next == (if Stops(h) then Stopping else Complete)
                    && (h.StartsDownload? ==> state == Download && asked == old(asked))
                    && (h.Answer? && Stops(h) ==> state == Stopped && asked == old(asked))
                    && (h.Answer? && !Stops(h) ==> state == Complete && reading && asked == old(asked) + 1))
    {
      hide CString, Flatten, Inv, AfterTurn, Argv, Name, Reply, Speaks, Runs, Ran;
      ghost var w := Now();
      CommandRead(text, true, true);
      ghost var u := Now();
      Served(w, u, text, commands);
      TurnStates(u, commands);
      RunCommand(commands, true);
      if state == Command {
        TurnStates(Now(), commands);
        RunCommand(commands, true);
      }
      if sending {
        Drain();
      }
    }
  }

  /** There is something to run: an argument list, or the name of a line with too many words. */
  predicate Runs(line: string) {
    Splits(line) || Name(line) != []
  }

  /** What is run. */
  function Ran(line: string): seq<string> {
    if Splits(line) then Argv(line) else [Name(line)]
  }

  /** In `z` the answer of handler `h` to a command that arrived in `w` is given and starts to leave. */
  predicate Leaving(w: World, z: World, h: Handler) {
    && z.sending && z.answers == w.answers + [Reply(h)] && Flatten(z.answers) == w.wire + Reply(h)
    && z.asked == w.asked && z.next == (if Stops(h) then Stopping else Complete)
    && (z.state == StartDownload <==> h.StartsDownload?) && z.state != Command
  }

  /** Both turns of a command, seen from before its arrival. */
  lemma Served(w: World, u: World, text: string, commands: Commands)
    requires Inv(w) && Arrives(w, text) && |text| < w.room && u == AfterCommand(w, text, true, true)
    ensures var line, v := CString(text), AfterTurn(u, commands, true);
            var z := if v.state == Command then AfterTurn(v, commands, true) else v;
            && (!Runs(line) ==> Hung(z) && z.wire == w.wire && !z.sending && !z.reading)
            && (Runs(line) && Speaks(commands(Ran(line))) ==> Leaving(w, z, commands(Ran(line))))
  {
    hide CString, Flatten, AfterTurn, Argv, Name, Splits, Reply, Speaks, Given, Infos, Inv, Leaving;
    var line := CString(text);
    Idle(w);
    if Splits(line) {
      if Speaks(commands(Argv(line))) {
        ServedOnce(w, u, commands);
        NowLeaving(w, AfterTurn(u, commands, true), commands(Argv(line)));
      }
    } else {
      Unsplit(u, commands);
      CutAgain(line);
      var v := u.(command := Name(line));
      if Name(line) == [] {
        Unsplit(v, commands);
      } else if Speaks(commands([Name(line)])) {
        ServedOnce(w, v, commands);
      }
    }
  }

  lemma NowLeaving(w: World, z: World, h: Handler)
    requires Leaving(w, z, h)
    ensures z.state != Command
  {
  }

  lemma TurnStates(w: World, commands: Commands)
    requires Inv(w) && w.state == Command
    ensures var z := AfterTurn(w, commands, true);
            z.sending ==> z.state == Complete || z.state == Tx || z.state == Stopping || z.state == StartDownload
  {
    hide Flatten, AfterTurn, Argv, Splits, Reply, Infos, Speaks, Given, Name;
    if Splits(w.command) {
      TurnIs(w, commands, true);
    } else {
      Unsplit(w, commands);
    }
  }

  lemma Idle(w: World)
    requires Inv(w) && w.reading && w.state == Complete
    ensures w.txbuf == [] && w.wire == Flatten(w.answers) && !w.sending && w.next == Complete
  {
    assert w.wire + [] == w.wire;
  }

  lemma Unsplit(u: World, commands: Commands)
    requires u.state == Command && !Splits(u.command)
    ensures AfterTurn(u, commands, true) == u.(command := Name(u.command))
  {
  }

  lemma ServedOnce(w: World, u: World, commands: Commands)
    requires w.wire == Flatten(w.answers) && w.txbuf == [] && !w.sending && w.next == Complete
    requires u == w.(state := Command, reading := false, command := u.command, answers := w.answers + [[]])
    requires Splits(u.command) && Speaks(commands(Argv(u.command)))
    ensures Leaving(w, AfterTurn(u, commands, true), commands(Argv(u.command)))
  {
    hide Flatten, AfterTurn, Argv, Splits, Reply, Infos, Speaks;
    var h := commands(Argv(u.command));
    TurnIs(u, commands, true);
    assert Given(u.answers, Reply(h)) == w.answers + [Reply(h)] by {
      assert u.answers[..|w.answers|] == w.answers && [] + Reply(h) == Reply(h);
    }
    FreshFlat(w.answers, Reply(h));
  }

  lemma Queued(w: World)
    requires Inv(w)
    ensures w.state == Tx <==> (w.state != Error && w.txbuf != [])
  {
  }

  lemma NotToRun(w: World, ok: bool, made: bool, failOk: bool)
    requires Inv(w) && w.sending
    ensures AfterSent(w, ok, made, failOk).state != Command
  {
    hide Flatten, Given;
  }

  lemma Running(w: World)
    requires Inv(w) && w.state == Command
    ensures w.txbuf == [] && w.answers != [] && w.next != Tx
  {
  }

  /** A command that does not fit is never run. */
  lemma Answerable(w: World, text: string, made: bool, ok: bool)
    requires Inv(w) && Arrives(w, text) && |text| == w.room
    ensures AfterCommand(w, text, made, ok).state != Command
  {
  }

  /** Every run from the start, with the fate of every command in it. */
  method FromStart(room: nat, events: seq<Event>) returns (f: Fastboot)
    ensures f.Valid() && f.Now() == AfterAll(Initial(room), events)
    ensures forall i :: 0 <= i < |f.answers| ==>
              var pending := i == |f.answers| - 1 && (Open(f.Now()) || Hung(f.Now()));
              (Full(f.Now(), i) <==> !LostIn(Initial(room), events, i) && !pending)
  {
    hide AfterAll, LostIn, Open, Full, Inv;
    f := new Fastboot(room);
    f.Run(events);
    forall i | 0 <= i < |f.answers|
      ensures var pending := i == |f.answers| - 1 && (Open(f.Now()) || Hung(f.Now()));
              (Full(f.Now(), i) <==> !LostIn(Initial(room), events, i) && !pending)
    {
      CommandExact(room, events, i);
    }
  }

  lemma OnlyInfo(h: Handler)
    requires h == Answer([Info("product", true)], true, "", false)
    ensures Reply(h) == [Msg(INFO, "product")] && Speaks(h) && !Stops(h) && Runs(CString("oem"))
  {
    assert [Info("product", true)][1..] == [];
    NoNul("oem");
    WordIs("oem", FIRST_DELIM, 3);
  }

  /** No memory for an OKAY behind an INFO: the host never gets it, and the next command is read all the same. */
  method CutExample() returns (f: Fastboot)
    ensures f.wire == [Msg(INFO, "product")] && f.state == Complete && f.reading && !f.sending
  {
    hide CString, Argv, Name, Inv, Flatten;
    var h := Answer([Info("product", true)], true, "", false);
    OnlyInfo(h);
    f := new Fastboot(64);
    f.Start(true);
    f.Serve("oem", _ => h);
  }

  /** An empty command: fastboot waits for ever, whatever happens. */
  method EmptyExample(events: seq<Event>) returns (f: Fastboot)
    ensures f.state == Command && f.wire == [] && !f.sending && !f.reading
  {
    f := new Fastboot(64);
    f.Start(true);
    f.CommandRead("", true, true);
    HungForGood(f.Now(), events);
    f.Run(events);
  }

  lemma {:induction false} Letters(ws: seq<string>)
    requires forall i :: 0 <= i < |ws| ==> ws[i] == "a"
    ensures |Joined(ws)| <= 2 * |ws| && '\0' !in Joined(ws)
  {
    if |ws| > 1 {
      Letters(ws[1..]);
    }
  }

  lemma {:induction false} NoNul(s: string)
    requires '\0' !in s
    ensures CString(s) == s
  {
    if s != [] {
      assert s[0] in s && s == [s[0]] + s[1..];
      NoNul(s[1..]);
    }
  }

  lemma SixteenWords(ws: seq<string>, line: string)
    requires ws == seq(16, _ => "a") && line == ":" + Joined(ws)
    ensures |line| < 64 && CString(line) == line && Name(line) == [] && !Splits(line)
  {
    hide Joined, Token, Rest, Words, CString;
    Letters(ws);
    NoNul(line);
    assert line == "" + ":" + Joined(ws);
    ArgvRoundTrip("", ws);
    assert Argv(line)[0] == Name(line);
  }

  /** A line that begins with a colon and has too many words: its name is empty once it is cut. */
  method NamelessExample(commands: Commands, events: seq<Event>) returns (f: Fastboot)
    ensures f.state == Command && f.wire == [] && !f.sending && !f.reading
  {
    hide Argv, Joined, Splits, CString;
    var ws := seq(16, _ => "a");
    var line := ":" + Joined(ws);
    SixteenWords(ws, line);
    f := new Fastboot(64);
    f.Start(true);
    f.CommandRead(line, true, true);
    Unsplit(f.Now(), commands);
    f.RunCommand(commands, true);
    HungForGood(f.Now(), events);
    f.Run(events);
  }
}
