/**
 * What fastboot does with a command from its arrival to its last message (libfastboot/fastboot.c), as a function of the
 * state: which commands are answered in full, which are not, and when nothing more can happen.
 */
module FastbootSteps {
  import opened Bytes
  import opened CommandLine

  datatype State = Offline | Command | Complete | StartDownload | Download | Tx | Stopping | Stopped | Error

  datatype Code = INFO | OKAY | FAIL | DATA
  datatype Msg = Msg(code: Code, text: string)

  /** What a command handler does before its last message; `made`: there is memory to build and queue the message. */
  datatype Action = Info(text: string, made: bool) | Stop

  /** A handler ends with one OKAY or FAIL, or, for `download:`, with DATA. */
  datatype Handler = Answer(actions: seq<Action>, okay: bool, text: string, made: bool) | StartsDownload(text: string)

  /** The handler that runs for an argument list. */
  type Commands = seq<string> -> Handler

  /**
   * What happens to fastboot. `ok`: the transport accepts the read or write that is made then; `failOk`: and the write
   * of the FAIL that follows a refused read; `made`: there is memory to build the message.
   */
  datatype Event =
    | Started(ok: bool)
    | CommandRead(command: string, made: bool, ok: bool)
    | Turn(commands: Commands, ok: bool)
    | Sent(ok: bool, made: bool, failOk: bool)
    | DataRead(made: bool, ok: bool)
    | StopCall

  /**
   * The state of fastboot. `wire` is what was written to the transport; `command` is the line in the command buffer of
   * `room` characters; `asked` counts the command reads posted; `answers` has the messages given to each command read.
   */
  datatype World = World(room: nat, state: State, next: State, txbuf: seq<Msg>, wire: seq<Msg>, sending: bool,
                         reading: bool, command: string, asked: nat, answers: seq<seq<Msg>>)

  // ----- one step

  /** The messages `ms` belong to the command read last. */
  function Given(answers: seq<seq<Msg>>, ms: seq<Msg>): (r: seq<seq<Msg>>)
    ensures answers != [] ==> |r| == |answers|
  {
    if answers == [] then [] else answers[..|answers| - 1] + [answers[|answers| - 1] + ms]
  }

  /** transport_write; a refused message is lost, and fastboot with it. */
  function AfterWrite(w: World, m: Msg, ok: bool): World {
    if ok then w.(wire := w.wire + [m], sending := true) else w.(state := Error)
  }

  /** fastboot_ack. */
  function AfterAck(w: World, m: Msg, made: bool, ok: bool): World {
    if made then AfterWrite(w.(state := w.next, answers := Given(w.answers, [m])), m, ok) else w
  }

  /** fastboot_ack_buffered. */
  function AfterQueued(w: World, m: Msg, made: bool): World {
    if made then w.(txbuf := w.txbuf + [m], state := Tx, answers := Given(w.answers, [m])) else w
  }

  /** fastboot_okay and fastboot_fail. */
  function AfterFinish(w: World, m: Msg, made: bool, ok: bool): World {
    if w.state == Tx then AfterQueued(w, m, made) else AfterAck(w, m, made, ok)
  }

  /** fastboot_stop. */
  function AfterStop(w: World): World {
    if w.state == Complete then w.(state := Stopped) else w.(next := Stopping)
  }

  /** flush_tx_buffer. */
  function AfterFlush(w: World, ok: bool): World
    requires w.txbuf != []
  {
    AfterWrite(w.(txbuf := w.txbuf[1..], state := if |w.txbuf| == 1 then w.next else w.state), w.txbuf[0], ok)
  }

  function AfterActions(w: World, actions: seq<Action>): World
    decreases |actions|
  {
    if actions == [] then w
    else
      var v := match actions[0]
               case Info(text, made) => AfterQueued(w, Msg(INFO, text), made)
               case Stop => AfterStop(w);
      AfterActions(v, actions[1..])
  }

  function LastMsg(h: Handler): Msg
    requires h.Answer?
  {
    Msg(if h.okay then OKAY else FAIL, h.text)
  }

  /** fastboot_run_root_cmd. */
  function AfterHandler(w: World, h: Handler, ok: bool): World {
    match h
    case Answer(actions, _, _, made) => AfterFinish(AfterActions(w, actions), LastMsg(h), made, ok)
    case StartsDownload(text) =>
      var m := Msg(DATA, text);
      AfterWrite(w.(state := StartDownload, answers := Given(w.answers, [m])), m, ok)
  }

  /** fastboot_run_command, in every turn of the main loop: the line is cut to its name, split or not. */
  function AfterTurn(w: World, commands: Commands, ok: bool): World {
    if w.state != Command then w
    else
      var cut := w.(command := Name(w.command));
      if !Splits(w.command) then cut
      else
        var v := AfterHandler(cut, commands(Argv(w.command)), ok);
        if v.state == Tx && v.txbuf != [] then AfterFlush(v, ok) else v
  }

  /** fastboot_read_command. */
  function AfterRead(w: World, ok: bool): World {
    if ok then w.(reading := true, asked := w.asked + 1) else w
  }

  const NO_DATA := Msg(FAIL, "Transport receive failed")
  const NO_FIT := Msg(FAIL, "Inappropriate command buffer or length")
  const DOWNLOADED := Msg(OKAY, "")

  /** fastboot_process_tx and worker_download. */
  function AfterSent(w: World, ok: bool, made: bool, failOk: bool): World {
    var v := w.(sending := false);
    match w.state
    case Stopping => v.(state := Stopped)
    case Tx => if v.txbuf != [] then AfterFlush(v, ok) else v
    case Complete => AfterRead(v, ok)
    case StartDownload => if ok then v.(state := Download) else AfterFinish(v, NO_DATA, made, failOk)
    case _ => v
  }

  /** fastboot_process_rx with a command. */
  function AfterCommand(w: World, command: string, made: bool, ok: bool): World {
    var v := w.(reading := false, command := CString(command), answers := w.answers + [[]]);
    if |command| < w.room then v.(state := Command) else AfterFinish(v, NO_FIT, made, ok)
  }

  /** fastboot_process_rx with the last bytes of a download. */
  function AfterData(w: World, made: bool, ok: bool): World {
    AfterFinish(w.(state := Complete), DOWNLOADED, made, ok)
  }

  /** A command is awaited, and the transport delivers no more than was asked for. */
  predicate Arrives(w: World, command: string) {
    w.reading && w.state == Complete && |command| <= w.room
  }

  /** One event; what is not awaited does not happen. */
  function After(w: World, e: Event): World {
    match e
    case Started(ok) => if w.state == Offline then AfterRead(w.(state := w.next), ok) else w
    case CommandRead(command, made, ok) => if Arrives(w, command) then AfterCommand(w, command, made, ok) else w
    case Turn(commands, ok) => AfterTurn(w, commands, ok)
    case Sent(ok, made, failOk) => if w.sending then AfterSent(w, ok, made, failOk) else w
    case DataRead(made, ok) => if w.state == Download then AfterData(w, made, ok) else w
    case StopCall => if w.state == Complete then AfterStop(w) else w
  }

  function AfterAll(w: World, events: seq<Event>): World {
    if events == [] then w else After(AfterAll(w, events[..|events| - 1]), events[|events| - 1])
  }

  function Initial(room: nat): World {
    World(room, Offline, Complete, [], [], false, false, "", 0, [])
  }

  // ----- answers

  predicate Last(m: Msg) {
    m.code == OKAY || m.code == FAIL
  }

  /** A finished answer to a command: some INFO, or the DATA of a download, and one last message. */
  predicate Whole(r: seq<Msg>) {
    && r != [] && Last(r[|r| - 1])
    && ((forall i :: 0 <= i < |r| - 1 ==> r[i].code == INFO) || (|r| == 2 && r[0].code == DATA))
  }

  /** An answer without its last message. */
  predicate Cut(r: seq<Msg>) {
    r != [] && forall i :: 0 <= i < |r| ==> r[i].code == INFO
  }

  /** A download between its DATA and its last message. */
  predicate Half(r: seq<Msg>) {
    |r| == 1 && r[0].code == DATA
  }

  function LastOf(answers: seq<seq<Msg>>): seq<Msg> {
    if answers == [] then [] else answers[|answers| - 1]
  }

  /** What the state says about the answer to the last command and the one thing that is due. */
  predicate Shaped(w: World) {
    var r := LastOf(w.answers);
    var idle := !w.sending && !w.reading;
    match w.state
    case Offline => w.answers == [] && idle && w.next == Complete
    case Command => w.answers != [] && r == [] && idle
    case Complete =>
      && !(w.sending && w.reading) && (w.answers != [] && !Whole(r) && !Cut(r) ==> idle && (r == [] || Half(r)))
      && (w.next == Complete || (idle && Half(r)))
    case StartDownload => Half(r) && !w.reading
    case Download => Half(r) && idle
    case Tx => (Whole(r) || Cut(r)) && w.sending && !w.reading
    case Stopping => (Whole(r) || Cut(r)) && w.sending && !w.reading && w.next == Stopping
    case Stopped => !(w.sending && w.reading)
    case Error => w.answers != []
  }

  /** What was written and what is queued are the answers in order; a refused message is missing at the end. */
  predicate Ordered(w: World) {
    if w.state == Error then |w.wire| < |Flatten(w.answers)| && w.wire <= Flatten(w.answers)
    else w.wire + w.txbuf == Flatten(w.answers) && (w.txbuf != [] <==> w.state == Tx)
  }

  /** The invariant of every run. */
  predicate Inv(w: World) {
    && (w.next == Complete || w.next == Stopping)
    && w.asked == |w.answers| + (if w.reading then 1 else 0)
    && (forall i :: 0 <= i < |w.answers| - 1 ==> Whole(w.answers[i]) || Cut(w.answers[i]))
    && Shaped(w) && Ordered(w) && |Flatten(w.answers)| - |LastOf(w.answers)| <= |w.wire|
  }

  // ----- the fate of a command

  /** The host has the whole answer to command `i`. */
  predicate Full(w: World, i: nat)
    requires i < |w.answers|
  {
    Whole(w.answers[i]) && |Flatten(w.answers[..i + 1])| <= |w.wire|
  }

  /** The last command can still be answered in full. */
  predicate Open(w: World) {
    match w.state
    case Command => w.command != []
    case Tx => Whole(LastOf(w.answers))
    case StartDownload => w.sending
    case Download => true
    case _ => false
  }

  /** The last command waits to be run and has no name to run. */
  predicate Hung(w: World) {
    w.state == Command && w.command == []
  }

  /** Command `i` is over without a whole answer. */
  predicate Spoiled(w: World, i: nat)
    requires i < |w.answers|
  {
    if i < |w.answers| - 1 then !Whole(w.answers[i])
    else
      match w.state
      case Error => true
      case Offline => false
      case Command => false
      case Download => false
      case StartDownload => !w.sending
      case _ => !Whole(w.answers[i])
  }

  /** The INFO lines of a handler that could be queued, in order. */
  function Infos(actions: seq<Action>): (ms: seq<Msg>)
    ensures forall i :: 0 <= i < |ms| ==> ms[i].code == INFO
  {
    if actions == [] then []
    else (if actions[0].Info? && actions[0].made then [Msg(INFO, actions[0].text)] else []) + Infos(actions[1..])
  }

  /** A handler that gives no message at all leaves its command to the next turn. */
  predicate Speaks(h: Handler) {
    h.Answer? ==> h.made || Infos(h.actions) != []
  }

  /** What a handler answers at once. */
  function Reply(h: Handler): seq<Msg> {
    if h.StartsDownload? then [Msg(DATA, h.text)]
    else Infos(h.actions) + if h.made then [LastMsg(h)] else []
  }

  /** The guards of the branches that lose a message of the command at hand. */
  predicate Loses(w: World, e: Event) {
    match e
    case CommandRead(command, made, ok) => Arrives(w, command) && |command| == w.room && !(made && ok)
    case Turn(commands, ok) =>
      && w.state == Command && Splits(w.command)
      && var h := commands(Argv(w.command));
         Speaks(h) && (!ok || (h.Answer? && !h.made))
    case Sent(ok, made, failOk) =>
      w.sending && !ok && (w.state == Tx || (w.state == StartDownload && !(made && failOk)))
    case DataRead(made, ok) => w.state == Download && !(made && ok)
    case _ => false
  }

  /** The command an event is about. */
  function Current(w: World, e: Event): int {
    if e.CommandRead? then |w.answers| else |w.answers| - 1
  }

  /** Some event of the run lost a message of command `i`. */
  predicate LostIn(w: World, events: seq<Event>, i: nat) {
    exists n :: 0 <= n < |events| && Loses(AfterAll(w, events[..n]), events[n])
             && Current(AfterAll(w, events[..n]), events[n]) == i
  }

  // ----- one step keeps the invariant and spoils exactly what it loses

  /** From `w` to `v`, with one command more or not, the last one spoiled or not. */
  predicate Moves(w: World, v: World, more: bool, lost: bool) {
    && Inv(v) && w.wire <= v.wire && |v.answers| == |w.answers| + (if more then 1 else 0)
    && forall i :: 0 <= i < |v.answers| ==>
         (Spoiled(v, i) <==> (i < |w.answers| && Spoiled(w, i)) || (lost && i == |v.answers| - 1))
  }

  lemma GivenFlat(answers: seq<seq<Msg>>, ms: seq<Msg>)
    requires answers != []
    ensures Flatten(Given(answers, ms)) == Flatten(answers) + ms
    ensures LastOf(Given(answers, ms)) == LastOf(answers) + ms
    ensures Given(answers, ms)[..|answers| - 1] == answers[..|answers| - 1]
    ensures |Flatten(answers)| == |Flatten(answers[..|answers| - 1])| + |LastOf(answers)|
  {
    hide Flatten;
    var n := |answers| - 1;
    var front, last := answers[..n], answers[n];
    assert answers == front + [last];
    FreshFlat(front, last);
    FreshFlat(front, last + ms);
    Associate(Flatten(front), last, ms);
  }

  lemma FreshFlat(answers: seq<seq<Msg>>, ms: seq<Msg>)
    ensures Flatten(answers + [ms]) == Flatten(answers) + ms && LastOf(answers + [ms]) == ms
  {
    hide Flatten;
    FlattenConcat(answers, [ms]);
    FlattenOne(ms);
  }

  lemma Joins(answers: seq<seq<Msg>>, a: seq<Msg>, b: seq<Msg>)
    requires answers != []
    ensures Given(Given(answers, a), b) == Given(answers, a + b) && Given(answers, []) == answers
  {
    var n := |answers| - 1;
    assert Given(answers, a)[..n] == answers[..n] && answers[n] + a + b == answers[n] + (a + b);
    assert answers[n] + [] == answers[n] && answers == answers[..n] + [answers[n]];
  }

  /** The state while a handler runs: its INFO lines `ms` are queued. */
  function Acting(w: World, ms: seq<Msg>, stop: bool): World {
    w.(txbuf := ms, answers := Given(w.answers, ms), next := if stop then Stopping else w.next,
       state := if ms == [] then w.state else Tx)
  }

  lemma ActingMore(w: World, ms: seq<Msg>, stop: bool, a: Action)
    requires w.state == Command && w.txbuf == [] && w.answers != []
    ensures var v := Acting(w, ms, stop);
            (match a case Info(text, made) => AfterQueued(v, Msg(INFO, text), made) case Stop => AfterStop(v))
            == Acting(w, ms + (if a.Info? && a.made then [Msg(INFO, a.text)] else []), stop || a == Stop)
  {
    if a.Info? && a.made {
      Joins(w.answers, ms, [Msg(INFO, a.text)]);
    } else {
      assert ms + [] == ms;
    }
  }

  lemma {:induction false} ActionsAre(w: World, ms: seq<Msg>, stop: bool, actions: seq<Action>)
    requires w.state == Command && w.txbuf == [] && w.answers != []
    ensures AfterActions(Acting(w, ms, stop), actions) == Acting(w, ms + Infos(actions), stop || Stop in actions)
    decreases |actions|
  {
    hide Acting, AfterQueued, AfterStop;
    if actions == [] {
      assert ms + [] == ms;
    } else {
      var a := actions[0];
      var m := if a.Info? && a.made then [Msg(INFO, a.text)] else [];
      ActingMore(w, ms, stop, a);
      ActionsAre(w, ms + m, stop || a == Stop, actions[1..]);
      assert ms + m + Infos(actions[1..]) == ms + Infos(actions);
      assert actions == [a] + actions[1..];
    }
  }

  predicate Stops(h: Handler) {
    h.Answer? && Stop in h.actions
  }

  /** A turn in which nothing is said: the command stays, cut to its name. */
  function Silent(w: World, stop: bool): World {
    w.(command := Name(w.command), next := if stop then Stopping else w.next)
  }

  /** A handler speaks: its answer is queued or goes out at once. */
  function Spoken(w: World, h: Handler): World {
    w.(command := Name(w.command), answers := Given(w.answers, Reply(h)), next := if Stops(h) then Stopping else w.next)
  }

  lemma HandlerIs(w: World, h: Handler, ok: bool)
    requires w.state == Command && w.txbuf == [] && w.answers != []
    ensures var cut := w.(command := Name(w.command));
            var v := AfterHandler(cut, h, ok);
            && (!Speaks(h) ==> v == Silent(w, Stops(h)))
            && (Speaks(h) && h.Answer? && Infos(h.actions) != [] ==> v == Spoken(w, h).(state := Tx, txbuf := Reply(h)))
            && (Speaks(h) && (h.Answer? ==> Infos(h.actions) == []) ==>
                  var u := Spoken(w, h);
                  && |Reply(h)| == 1
                  && v == AfterWrite(u.(state := if h.Answer? then u.next else StartDownload), Reply(h)[0], ok))
  {
    var cut := w.(command := Name(w.command));
    if h.Answer? {
      var infos := Infos(h.actions);
      Joins(w.answers, [], []);
      assert Acting(cut, [], false) == cut;
      assert [] + infos == infos;
      ActionsAre(cut, [], false, h.actions);
      Joins(w.answers, infos, [LastMsg(h)]);
      assert infos + [] == infos;
    }
  }

  /** What one turn does with a command that splits. */
  lemma TurnIs(w: World, commands: Commands, ok: bool)
    requires w.state == Command && w.txbuf == [] && w.answers != [] && Splits(w.command) && w.next != Tx
    ensures var h, v := commands(Argv(w.command)), AfterTurn(w, commands, ok);
            var u := Spoken(w, h);
            && (!Speaks(h) ==> v == Silent(w, Stops(h)))
            && (Speaks(h) && h.Answer? && Infos(h.actions) != [] ==>
                  Reply(h) != [] && v == AfterFlush(u.(state := Tx, txbuf := Reply(h)), ok))
            && (Speaks(h) && (h.Answer? ==> Infos(h.actions) == []) ==>
                  && |Reply(h)| == 1
                  && v == AfterWrite(u.(state := if h.Answer? then u.next else StartDownload), Reply(h)[0], ok))
  {
    hide AfterHandler, Argv, Splits, Infos, Given;
    HandlerIs(w, commands(Argv(w.command)), ok);
  }

  lemma StepStart(w: World, ok: bool)
    requires Inv(w) && w.state == Offline
    ensures Moves(w, AfterRead(w.(state := w.next), ok), false, false)
  {
    hide Flatten;
  }

  lemma StepStop(w: World)
    requires Inv(w) && w.state == Complete
    ensures Moves(w, AfterStop(w), false, false)
  {
    hide Flatten;
  }

  lemma StepCommand(w: World, command: string, made: bool, ok: bool)
    requires Inv(w) && Arrives(w, command)
    ensures Moves(w, AfterCommand(w, command, made, ok), true, |command| == w.room && !(made && ok))
  {
    hide Flatten, CString, Given;
    GivenFresh(w.answers, NO_FIT);
    assert w.wire + [] == w.wire;
  }

  lemma GivenFresh(answers: seq<seq<Msg>>, m: Msg)
    ensures Flatten(answers + [[]]) == Flatten(answers) && Given(answers + [[]], [m]) == answers + [[m]]
    ensures Flatten(answers + [[m]]) == Flatten(answers) + [m]
  {
    hide Flatten;
    FreshFlat(answers, []);
    FreshFlat(answers, [m]);
    assert (answers + [[]])[..|answers|] == answers && [] + [m] == [m];
    assert Flatten(answers) + [] == Flatten(answers);
  }

  lemma StepData(w: World, made: bool, ok: bool)
    requires Inv(w) && w.state == Download
    ensures Moves(w, AfterData(w, made, ok), false, !(made && ok))
  {
    hide Flatten;
    GivenFlat(w.answers, [DOWNLOADED]);
    assert w.wire + [] == w.wire;
  }

  lemma StepSent(w: World, ok: bool, made: bool, failOk: bool)
    requires Inv(w) && w.sending
    ensures Moves(w, AfterSent(w, ok, made, failOk), false, Loses(w, Sent(ok, made, failOk)))
  {
    hide Flatten;
    if w.state == StartDownload {
      StepNoData(w, ok, made, failOk);
    } else if w.state == Tx {
      StepFlush(w, ok);
    }
  }

  lemma StepNoData(w: World, ok: bool, made: bool, failOk: bool)
    requires Inv(w) && w.sending && w.state == StartDownload
    ensures var v := w.(sending := false);
            var u := if ok then v.(state := Download) else AfterFinish(v, NO_DATA, made, failOk);
            Moves(w, u, false, !ok && !(made && failOk))
  {
    hide Flatten;
    GivenFlat(w.answers, [NO_DATA]);
    assert w.wire + [] == w.wire;
  }

  lemma StepFlush(w: World, ok: bool)
    requires Inv(w) && w.sending && w.state == Tx
    ensures w.txbuf != [] && Moves(w, AfterFlush(w.(sending := false), ok), false, !ok)
  {
    hide Flatten, Whole, Cut;
    GivenFlat(w.answers, []);
    FlushKeeps(w.wire, w.txbuf);
  }

  /** The first of the queued messages goes out. */
  lemma FlushKeeps(wire: seq<Msg>, txbuf: seq<Msg>)
    requires txbuf != []
    ensures wire + [txbuf[0]] + txbuf[1..] == wire + txbuf && (|txbuf| == 1 ==> wire + [txbuf[0]] == wire + txbuf)
    ensures wire <= wire + txbuf && wire + [txbuf[0]] + [] == wire + [txbuf[0]]
  {
  }

  lemma Replied(h: Handler)
    requires Speaks(h)
    ensures Reply(h) != [] && (h.StartsDownload? <==> Half(Reply(h)))
    ensures h.Answer? ==> if h.made then Whole(Reply(h)) else Cut(Reply(h)) && !Whole(Reply(h))
  {
  }

  lemma SpeakNow(w: World, h: Handler, ok: bool)
    requires Inv(w) && w.state == Command && Speaks(h) && (h.Answer? ==> Infos(h.actions) == []) && |Reply(h)| == 1
    ensures var u := Spoken(w, h);
            var v := AfterWrite(u.(state := if h.Answer? then u.next else StartDownload), Reply(h)[0], ok);
            Moves(w, v, false, !ok || (h.Answer? && !h.made))
  {
    hide Flatten, Reply, Speaks, Whole, Cut, Infos, Name, Stops;
    Replied(h);
    GivenFlat(w.answers, Reply(h));
    NothingSaid(w);
    FlushKeeps(w.wire, Reply(h));
  }

  lemma SpeakFirst(w: World, h: Handler, ok: bool)
    requires Inv(w) && w.state == Command && Speaks(h) && h.Answer? && Reply(h) != []
    ensures Moves(w, AfterFlush(Spoken(w, h).(state := Tx, txbuf := Reply(h)), ok), false, !ok || !h.made)
  {
    hide Flatten, Reply, Speaks, Whole, Cut, Infos, Name, Stops;
    Replied(h);
    GivenFlat(w.answers, Reply(h));
    NothingSaid(w);
    FlushKeeps(w.wire, Reply(h));
  }

  /** Before its handler runs, nothing was given to a command. */
  lemma NothingSaid(w: World)
    requires Inv(w) && w.state == Command
    ensures w.answers != [] && w.wire == Flatten(w.answers) && forall r: seq<Msg> :: LastOf(w.answers) + r == r
  {
    assert w.wire + [] == w.wire;
    assert forall r: seq<Msg> :: [] + r == r;
  }

  lemma StepTurn(w: World, commands: Commands, ok: bool)
    requires Inv(w)
    ensures Moves(w, AfterTurn(w, commands, ok), false, Loses(w, Turn(commands, ok)))
  {
    hide Flatten, Infos, Argv, Splits, AfterHandler, AfterFlush, Name;
    if w.state == Command && Splits(w.command) {
      SplitTurn(w, commands, ok);
    }
  }

  lemma SplitTurn(w: World, commands: Commands, ok: bool)
    requires Inv(w) && w.state == Command && Splits(w.command)
    ensures var h := commands(Argv(w.command));
            Moves(w, AfterTurn(w, commands, ok), false, Speaks(h) && (!ok || (h.Answer? && !h.made)))
  {
    hide Flatten, Infos, Argv, Splits, AfterTurn, AfterWrite, AfterFlush, Spoken, Reply, Speaks, Moves, Silent;
    var h := commands(Argv(w.command));
    TurnIs(w, commands, ok);
    if !Speaks(h) {
      StepSilent(w, Stops(h));
    } else if h.Answer? && Infos(h.actions) != [] {
      SpeakFirst(w, h, ok);
    } else {
      SpeakNow(w, h, ok);
    }
  }

  lemma StepSilent(w: World, stop: bool)
    requires Inv(w) && w.state == Command
    ensures Moves(w, Silent(w, stop), false, false)
  {
    hide Flatten, Name;
  }

  /** One event: the invariant holds, nothing written is taken back, and exactly the command that loses is spoiled. */
  lemma StepExact(w: World, e: Event)
    requires Inv(w)
    ensures Inv(After(w, e)) && w.wire <= After(w, e).wire && |w.answers| <= |After(w, e).answers|
    ensures Current(w, e) < |After(w, e).answers| || !Loses(w, e)
    ensures forall i :: 0 <= i < |After(w, e).answers| ==>
              (Spoiled(After(w, e), i) <==> (i < |w.answers| && Spoiled(w, i)) || (Loses(w, e) && i == Current(w, e)))
  {
    hide Flatten, Inv, Spoiled, AfterCommand, AfterTurn, AfterSent, AfterData, AfterStop, AfterRead;
    match e
    case Started(ok) => if w.state == Offline { StepStart(w, ok); }
    case CommandRead(command, made, ok) => if Arrives(w, command) { StepCommand(w, command, made, ok); }
    case Turn(commands, ok) => StepTurn(w, commands, ok);
    case Sent(ok, made, failOk) => if w.sending { StepSent(w, ok, made, failOk); }
    case DataRead(made, ok) => if w.state == Download { StepData(w, made, ok); }
    case StopCall => if w.state == Complete { StepStop(w); }
  }

  // ----- every command of every run

  lemma PrefixFlat(answers: seq<seq<Msg>>, i: nat)
    requires i < |answers|
    ensures i < |answers| - 1 ==> |Flatten(answers[..i + 1])| <= |Flatten(answers)| - |LastOf(answers)|
    ensures i == |answers| - 1 ==> answers[..i + 1] == answers
  {
    var n := |answers| - 1;
    if i < n {
      FlattenConcat(answers[..i + 1], answers[i + 1..n]);
      assert answers[..n] == answers[..i + 1] + answers[i + 1..n];
      GivenFlat(answers, []);
    }
  }

  /** A command is answered in full, or spoiled, or still open, or hangs, and never two of these. */
  lemma Fates(w: World, i: nat)
    requires Inv(w) && i < |w.answers|
    ensures Full(w, i) <==> !Spoiled(w, i) && !(i == |w.answers| - 1 && (Open(w) || Hung(w)))
    ensures Spoiled(w, i) ==> !(i == |w.answers| - 1 && (Open(w) || Hung(w)))
  {
    hide Flatten;
    PrefixFlat(w.answers, i);
  }

  lemma {:induction false} RunSpoils(w: World, events: seq<Event>, i: nat)
    requires Inv(w)
    ensures Inv(AfterAll(w, events)) && |w.answers| <= |AfterAll(w, events).answers|
            && w.wire <= AfterAll(w, events).wire
    ensures i < |AfterAll(w, events).answers| ==>
              (Spoiled(AfterAll(w, events), i) <==> (i < |w.answers| && Spoiled(w, i)) || LostIn(w, events, i))
    ensures LostIn(w, events, i) ==> i < |AfterAll(w, events).answers|
  {
    hide Inv, Spoiled, After, Loses, Current;
    if events != [] {
      var n := |events| - 1;
      var init, e := events[..n], events[n];
      var v := AfterAll(w, init);
      RunSpoils(w, init, i);
      StepExact(v, e);
      assert forall m :: 0 <= m < n ==> init[..m] == events[..m] && init[m] == events[m];
      if LostIn(w, init, i) {
        var m :| 0 <= m < n && Loses(AfterAll(w, init[..m]), init[m]) && Current(AfterAll(w, init[..m]), init[m]) == i;
        assert Loses(AfterAll(w, events[..m]), events[m]);
      }
      if Loses(v, e) && Current(v, e) == i {
        assert Loses(AfterAll(w, events[..n]), events[n]);
      }
      if LostIn(w, events, i) && !LostIn(w, init, i) {
        var m :| 0 <= m < |events| && Loses(AfterAll(w, events[..m]), events[m])
              && Current(AfterAll(w, events[..m]), events[m]) == i;
        assert m == n;
      }
    }
  }

  lemma StartsRight(room: nat)
    ensures Inv(Initial(room))
  {
  }

  /**
   * Every command of every run has exactly one of four fates: the host has its whole answer, some event met one of the
   * guards that lose a message of it, it is the last one and still open, or it is the last one and hangs.
   */
  lemma CommandExact(room: nat, events: seq<Event>, i: nat)
    requires i < |AfterAll(Initial(room), events).answers|
    ensures var w := AfterAll(Initial(room), events);
            var pending := i == |w.answers| - 1 && (Open(w) || Hung(w));
            && (Full(w, i) <==> !LostIn(Initial(room), events, i) && !pending)
            && !(LostIn(Initial(room), events, i) && pending)
  {
    hide Inv, After, AfterAll, LostIn, Spoiled, Full, Open;
    StartsRight(room);
    RunSpoils(Initial(room), events, i);
    Fates(AfterAll(Initial(room), events), i);
  }

  /** A command is awaited only when all before it are over and every message given was written. */
  lemma Awaited(room: nat, events: seq<Event>)
    ensures var w := AfterAll(Initial(room), events);
            && w.wire <= Flatten(w.answers)
            && (w.reading && w.state == Complete ==>
                 w.wire == Flatten(w.answers) && w.asked == |w.answers| + 1 && !w.sending)
  {
    hide After, AfterAll, Flatten;
    StartsRight(room);
    RunSpoils(Initial(room), events, 0);
    var w := AfterAll(Initial(room), events);
    assert w.wire + [] == w.wire && w.wire <= w.wire + w.txbuf;
  }

  // ----- commands that hang

  lemma {:induction false} FirstOfAll(w: World, events: seq<Event>)
    requires events != []
    ensures AfterAll(w, events) == AfterAll(After(w, events[0]), events[1..])
  {
    hide After;
    if |events| > 1 {
      var n := |events| - 1;
      FirstOfAll(w, events[..n]);
      assert events[..n][1..] == events[1..][..n - 1];
    } else {
      assert events[..0] == [] && events[1..] == [];
    }
  }

  /** Nothing that happens changes a fastboot that hangs. */
  lemma {:induction false} HungForGood(w: World, events: seq<Event>)
    requires Inv(w) && Hung(w)
    ensures AfterAll(w, events) == w
  {
    if events != [] {
      EmptyLine();
      HungForGood(w, events[..|events| - 1]);
    }
  }

  predicate AllTurns(events: seq<Event>) {
    forall k :: 0 <= k < |events| ==> events[k].Turn?
  }

  /** The turn finds an argument list and its handler says something. */
  predicate Answers(line: string, e: Event)
    requires e.Turn?
  {
    Splits(line) && Speaks(e.commands(Argv(line)))
  }

  lemma {:induction false} TurnsIdle(w: World, turns: seq<Event>)
    requires w.state != Command && AllTurns(turns)
    ensures AfterAll(w, turns) == w
  {
    if turns != [] {
      TurnsIdle(w, turns[..|turns| - 1]);
    }
  }

  /** One turn: the command leaves its state exactly when it is answered, and else its line is cut to the name. */
  lemma TurnCuts(w: World, e: Event)
    requires Inv(w) && w.state == Command && e.Turn?
    ensures var v := After(w, e);
            && Inv(v) && (v.state == Command <==> !Answers(w.command, e)) && v.command == Name(w.command)
  {
    hide Flatten, Argv, Name, Infos, Reply, Given, AfterHandler;
    StepExact(w, e);
    if Splits(w.command) {
      TurnIs(w, e.commands, e.ok);
    }
  }

  /** A line with a name is found again in every turn. */
  lemma {:induction false} NamedTurns(w: World, turns: seq<Event>)
    requires Inv(w) && AllTurns(turns) && (w.state == Command ==> Name(w.command) == w.command != [])
    ensures !Hung(AfterAll(w, turns))
    decreases |turns|
  {
    hide Inv, After, Name;
    if turns != [] {
      FirstOfAll(w, turns);
      if w.state == Command {
        TurnCuts(w, turns[0]);
        NamedTurns(After(w, turns[0]), turns[1..]);
      } else {
        TurnsIdle(w, turns);
      }
    }
  }

  /**
   * When a command that was read hangs, whatever number of turns follow: its line is empty, or its name is empty and
   * the first turn does not answer it.
   */
  lemma HangExact(w: World, command: string, made: bool, ok: bool, turns: seq<Event>)
    requires Inv(w) && Arrives(w, command) && |command| < w.room && AllTurns(turns)
    ensures var line, v := CString(command), AfterAll(After(w, CommandRead(command, made, ok)), turns);
            Hung(v) <==> line == [] || (Name(line) == [] && turns != [] && !Answers(line, turns[0]))
  {
    hide Inv, Answers, Name, CString, AfterTurn;
    var u := After(w, CommandRead(command, made, ok));
    StepExact(w, CommandRead(command, made, ok));
    assert u.state == Command && u.command == CString(command);
    if u.command == [] {
      HungForGood(u, turns);
    } else if turns != [] {
      FirstOfAll(u, turns);
      TurnCuts(u, turns[0]);
      CutAgain(u.command);
      var v := After(u, turns[0]);
      if v.state != Command {
        TurnsIdle(v, turns[1..]);
      } else if v.command == [] {
        HungForGood(v, turns[1..]);
      } else {
        NamedTurns(v, turns[1..]);
      }
    }
  }

  /** A line with too many words and a name: the first turn says nothing, and the second one runs the name alone. */
  lemma LongLine(w: World, first: Commands, second: Commands, ok: bool)
    requires w.state == Command && |Argv(w.command)| > MAX_ARGS && Name(w.command) != []
    requires w.txbuf == [] && w.answers != [] && w.next != Tx
    ensures var v, h := AfterTurn(w, first, ok), second([Name(w.command)]);
            && v == w.(command := Name(w.command)) && Argv(v.command) == [Name(w.command)]
            && (Speaks(h) ==> LastOf(AfterTurn(v, second, true).answers) == LastOf(w.answers) + Reply(h))
  {
    hide Reply, Infos, Speaks, AfterHandler, Argv, Name, Given, Flatten;
    CutAgain(w.command);
    var v := AfterTurn(w, first, ok);
    TurnIs(v, second, true);
    GivenFlat(w.answers, Reply(second([Name(w.command)])));
  }

  // ----- when something is due

  /** An event can still happen: the start, a message to leave, a command or data to arrive, a command to run. */
  predicate Due(w: World) {
    match w.state
    case Command => w.command != []
    case Complete => w.sending || w.reading
    case StartDownload => w.sending
    case Error => false
    case _ => true
  }

  /** The guards of the branches after which nothing is due. */
  predicate Kills(w: World, e: Event) {
    match e
    case Started(ok) => w.state == Offline && !ok
    case CommandRead(command, made, ok) =>
      Arrives(w, command) && if |command| < w.room then CString(command) == [] else !(made && ok)
    case Turn(commands, ok) =>
      w.state == Command && if Answers(w.command, e) then !ok else Name(w.command) == []
    case Sent(ok, made, failOk) =>
      && w.sending && !ok
      && (w.state == Tx || w.state == Complete || (w.state == StartDownload && !(made && failOk)))
    case DataRead(made, ok) => w.state == Download && !(made && ok)
    case StopCall => false
  }

  lemma TurnKills(w: World, e: Event)
    requires Inv(w) && w.state == Command && e.Turn?
    ensures Due(After(w, e)) <==> Due(w) && !Kills(w, e)
  {
    hide Flatten, Argv, Infos, Reply, Given, AfterHandler, CString;
    TurnCuts(w, e);
    EmptyLine();
    if Splits(w.command) {
      TurnIs(w, e.commands, e.ok);
    }
  }

  lemma DueStep(w: World, e: Event)
    requires Inv(w) && !e.StopCall?
    ensures Due(After(w, e)) <==> Due(w) && !Kills(w, e)
  {
    hide Flatten, Given, Argv, Splits, CString, AfterHandler, Whole, Cut;
    if e.Turn? && w.state == Command {
      TurnKills(w, e);
    }
  }

  /** Some event of the run leaves nothing due. */
  predicate KilledIn(w: World, events: seq<Event>) {
    exists n :: 0 <= n < |events| && Kills(AfterAll(w, events[..n]), events[n])
  }

  lemma KilledStep(w: World, events: seq<Event>, n: nat)
    requires |events| == n + 1
    ensures KilledIn(w, events) <==> KilledIn(w, events[..n]) || Kills(AfterAll(w, events[..n]), events[n])
  {
    hide AfterAll, Kills;
    var init := events[..n];
    assert forall m :: 0 <= m < n ==> init[..m] == events[..m] && init[m] == events[m];
    if KilledIn(w, init) {
      var m :| 0 <= m < n && Kills(AfterAll(w, init[..m]), init[m]);
      assert Kills(AfterAll(w, events[..m]), events[m]);
    }
    if KilledIn(w, events) {
      var m :| 0 <= m < |events| && Kills(AfterAll(w, events[..m]), events[m]);
      if m < n {
        assert Kills(AfterAll(w, init[..m]), init[m]);
      }
    }
  }

  /** Unless fastboot_stop is called from outside, something is due after a run exactly when no event killed it. */
  lemma {:induction false} DueExact(w: World, events: seq<Event>)
    requires Inv(w) && forall n :: 0 <= n < |events| ==> !events[n].StopCall?
    ensures Due(AfterAll(w, events)) <==> Due(w) && !KilledIn(w, events)
  {
    hide Inv, After, Due, Kills, KilledIn;
    if events == [] {
      NoneKilled(w);
    } else {
      var n := |events| - 1;
      RunSpoils(w, events[..n], 0);
      DueExact(w, events[..n]);
      DueStep(AfterAll(w, events[..n]), events[n]);
      KilledStep(w, events, n);
    }
  }

  lemma NoneKilled(w: World)
    ensures !KilledIn(w, [])
  {
  }
}
