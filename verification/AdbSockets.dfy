/** The socket table, the sync context table and the reader locks behind ADB
    (libadb/adb_socket.c, libadb/sync_service.c, memory_open and memory_close of libadb/reader.c). */
module AdbSockets {

  const MAX_ADB_SOCKET := 5

  datatype Status = Success | InvalidParameter | OutOfResources | AlreadyStarted | SendError | ReaderError

  datatype Service = Sync | Other

  /** `local` is 0 for a free slot; `context` is the index of a sync context, or NO_CONTEXT. */
  datatype Socket = Socket(local: nat, remote: nat, service: Service, context: int)
  const NO_CONTEXT := -1

  datatype CtxState = Free | Established | Stat | Recv | SendingData

  /** The two memory readers have a lock of their own; the others have none. */
  datatype Kind = Ram | Vmcore | Unlocked
  datatype Context = Context(state: CtxState, reader: Kind)

  /** How far memory_open gets: too many or bad arguments, no memory map, nothing to dump, or opened. */
  datatype OpenOutcome = TooManyArguments | BadArguments | NoMemoryMap | InitFailed | Opened

  /** What send_more_data does next: send a packet, fail, or close the reader and send DONE. */
  datatype SendOutcome = SentMore | SendFailed | Finished

  /** A message of the host to the sync service. A request may carry its file name or leave it to the next message. */
  datatype Message = TooShort | StatRequest(named: bool) | RecvRequest(named: bool) | Quit | Unknown | Name

  /** The packets that the sockets react to, with the outcomes of what they call. */
  datatype Event =
    | Opening(remote: nat, known: bool, service: Service, argEmpty: bool, otherOk: bool, sendOk: bool)
    | Writing(local: nat, remote: nat, message: Message, reader: Kind, sendOk: bool, outcome: OpenOutcome,
              first: SendOutcome)
    | Acknowledging(local: nat, remote: nat, next: SendOutcome)
    | Closing(local: nat, remote: nat, otherOk: bool)
    | Disconnecting(failing: set<nat>)

  /** The socket a packet is meant for is open. */
  predicate Addressed(socks: seq<Socket>, local: nat, remote: nat) {
    0 < local <= |socks| && socks[local - 1].local == local && socks[local - 1].remote == remote
  }

  predicate OpenSync(s: Socket) {
    s.local != 0 && s.service == Sync
  }

  // ----- the tables

  /** Slot `i` is free or holds local id `i + 1`; open sync sockets and busy contexts correspond one to one. */
  ghost predicate Tables(socks: seq<Socket>, ctxs: seq<Context>) {
    && |socks| == MAX_ADB_SOCKET && |ctxs| == MAX_ADB_SOCKET
    && (forall i :: 0 <= i < |socks| ==> socks[i].local == 0 || socks[i].local == i + 1)
    && (forall i :: 0 <= i < |socks| && OpenSync(socks[i]) ==>
          0 <= socks[i].context < |ctxs| && ctxs[socks[i].context].state != Free)
    && (forall i, j :: 0 <= i < j < |socks| && OpenSync(socks[i]) && OpenSync(socks[j]) ==>
          socks[i].context != socks[j].context)
    && (forall c :: 0 <= c < |ctxs| && ctxs[c].state != Free ==> Owned(socks, c))
  }

  predicate Owned(socks: seq<Socket>, c: int) {
    exists i :: 0 <= i < |socks| && OpenSync(socks[i]) && socks[i].context == c
  }

  /** `n` busy contexts have `n` different owners. */
  lemma Owners(socks: seq<Socket>, ctxs: seq<Context>, n: nat) returns (s: set<int>)
    requires Tables(socks, ctxs) && n <= |ctxs| && forall c :: 0 <= c < n ==> ctxs[c].state != Free
    ensures |s| == n
    ensures forall i :: i in s ==> 0 <= i < |socks| && OpenSync(socks[i]) && socks[i].context < n
  {
    if n == 0 {
      s := {};
    } else {
      var t := Owners(socks, ctxs, n - 1);
      assert Owned(socks, n - 1);
      var i :| 0 <= i < |socks| && OpenSync(socks[i]) && socks[i].context == n - 1;
      s := t + {i};
    }
  }

  lemma ContextOf(socks: seq<Socket>, ctxs: seq<Context>, i: nat)
    requires Tables(socks, ctxs) && i < |socks| && OpenSync(socks[i])
    ensures 0 <= socks[i].context < |ctxs| && ctxs[socks[i].context].state != Free
  {
  }

  lemma SubsetSize(a: set<int>, b: set<int>)
    requires a <= b
    ensures |a| <= |b|
  {
    assert b == a + (b - a);
  }

  /** While a socket slot is free, a sync context is free: sync_service_open cannot run out of contexts. */
  lemma FreeContext(socks: seq<Socket>, ctxs: seq<Context>, k: nat)
    requires Tables(socks, ctxs) && k < |socks| && !OpenSync(socks[k])
    ensures |ctxs| == |socks| == MAX_ADB_SOCKET
    ensures exists c :: 0 <= c < |ctxs| && ctxs[c].state == Free
  {
    if forall c :: 0 <= c < |ctxs| ==> ctxs[c].state != Free {
      var s := Owners(socks, ctxs, |ctxs|);
      var others := {0, 1, 2, 3, 4} - {k};
      assert {0, 1, 2, 3, 4} == others + {k};
      forall i | i in s
        ensures i in others
      {
        assert OpenSync(socks[i]) && (i == 0 || i == 1 || i == 2 || i == 3 || i == 4);
      }
      SubsetSize(s, others);
    }
  }

  // ----- the locks

  predicate Locked(k: Kind) {
    k == Ram || k == Vmcore
  }

  /** The contexts that are sending what reader `k` reads. */
  function Senders(ctxs: seq<Context>, k: Kind): set<int> {
    set c | 0 <= c < |ctxs| && ctxs[c].state == SendingData && ctxs[c].reader == k
  }

  function Holders(ctxs: seq<Context>): nat {
    if ctxs == [] then 0 else (if ctxs[0].state == SendingData then 1 else 0) + Holders(ctxs[1..])
  }

  /** A memory reader is in use exactly when one context holds it or GetMemoryMap has failed for it (`leaked`). */
  ghost predicate Lock(senders: set<int>, used: bool, leaked: bool) {
    && |senders| <= 1
    && (used <==> leaked || senders != {})
    && (leaked ==> senders == {})
  }

  ghost predicate Locks(ctxs: seq<Context>, used: set<Kind>, leaked: set<Kind>) {
    && Lock(Senders(ctxs, Ram), Ram in used, Ram in leaked)
    && Lock(Senders(ctxs, Vmcore), Vmcore in used, Vmcore in leaked)
  }

  predicate Sends(x: Context, k: Kind) {
    x.state == SendingData && x.reader == k
  }

  lemma SendersUpdate(ctxs: seq<Context>, c: nat, x: Context, k: Kind)
    requires c < |ctxs|
    ensures c in Senders(ctxs, k) <==> Sends(ctxs[c], k)
    ensures !Sends(ctxs[c], k) && !Sends(x, k) ==> Senders(ctxs[c := x], k) == Senders(ctxs, k)
    ensures Sends(x, k) ==> Senders(ctxs[c := x], k) == Senders(ctxs, k) + {c}
    ensures Sends(ctxs[c], k) && !Sends(x, k) ==> Senders(ctxs[c := x], k) == Senders(ctxs, k) - {c}
  {
  }

  lemma OneSender(senders: set<int>, c: int)
    requires |senders| <= 1 && c in senders
    ensures senders == {c}
  {
    var rest := senders - {c};
    assert senders == rest + {c} && |rest| == |senders| - 1;
  }

  lemma {:induction false} HoldersUpdate(ctxs: seq<Context>, c: nat, x: Context)
    requires c < |ctxs|
    ensures Holders(ctxs[c := x]) ==
      Holders(ctxs) - (if ctxs[c].state == SendingData then 1 else 0) + (if x.state == SendingData then 1 else 0)
  {
    if c == 0 {
      assert ctxs[c := x][1..] == ctxs[1..];
    } else {
      HoldersUpdate(ctxs[1..], c - 1, x);
      assert ctxs[c := x][1..] == ctxs[1..][c - 1 := x];
    }
  }

  lemma {:induction false} NoHolders(ctxs: seq<Context>)
    requires forall c :: 0 <= c < |ctxs| ==> ctxs[c].state != SendingData
    ensures Holders(ctxs) == 0
  {
    if ctxs != [] {
      NoHolders(ctxs[1..]);
    }
  }

  /** A context that is not sending before or after a change does not matter to the locks. */
  lemma LocksKept(ctxs: seq<Context>, used: set<Kind>, leaked: set<Kind>, c: nat, x: Context)
    requires Locks(ctxs, used, leaked) && c < |ctxs| && ctxs[c].state != SendingData && x.state != SendingData
    ensures Locks(ctxs[c := x], used, leaked) && Holders(ctxs[c := x]) == Holders(ctxs)
  {
    hide Senders, Holders;
    HoldersUpdate(ctxs, c, x);
    SendersUpdate(ctxs, c, x, Ram);
    SendersUpdate(ctxs, c, x, Vmcore);
  }

  lemma LocksTaken(ctxs: seq<Context>, used: set<Kind>, leaked: set<Kind>, c: nat, k: Kind)
    requires Locks(ctxs, used, leaked) && c < |ctxs| && ctxs[c].state != SendingData && (Locked(k) ==> k !in used)
    ensures var x := Context(SendingData, k);
      && Locks(ctxs[c := x], if Locked(k) then used + {k} else used, leaked)
      && Holders(ctxs[c := x]) == Holders(ctxs) + 1
  {
    hide Senders, Holders;
    var x := Context(SendingData, k);
    HoldersUpdate(ctxs, c, x);
    SendersUpdate(ctxs, c, x, Ram);
    SendersUpdate(ctxs, c, x, Vmcore);
  }

  lemma LocksReleased(ctxs: seq<Context>, used: set<Kind>, leaked: set<Kind>, c: nat, x: Context)
    requires Locks(ctxs, used, leaked) && c < |ctxs| && ctxs[c].state == SendingData && x.state != SendingData
    ensures var k := ctxs[c].reader;
      && Locks(ctxs[c := x], if Locked(k) then used - {k} else used, leaked)
      && Holders(ctxs[c := x]) == Holders(ctxs) - 1
  {
    hide Senders, Holders;
    var k := ctxs[c].reader;
    HoldersUpdate(ctxs, c, x);
    SendersUpdate(ctxs, c, x, Ram);
    SendersUpdate(ctxs, c, x, Vmcore);
    if Locked(k) {
      OneSender(Senders(ctxs, k), c);
    }
  }

  /** A busy context stays busy in whatever state it is. */
  lemma TablesKept(socks: seq<Socket>, ctxs: seq<Context>, c: nat, x: Context)
    requires Tables(socks, ctxs) && c < |ctxs| && ctxs[c].state != Free && x.state != Free
    ensures Tables(socks, ctxs[c := x])
  {
  }

  lemma TablesOpened(socks: seq<Socket>, ctxs: seq<Context>, i: nat, c: nat, remote: nat, x: Context)
    requires Tables(socks, ctxs) && i < |socks| && socks[i].local == 0
    requires c < |ctxs| && ctxs[c].state == Free && x.state != Free
    ensures Tables(socks[i := Socket(i + 1, remote, Sync, c)], ctxs[c := x])
  {
    var socks' := socks[i := Socket(i + 1, remote, Sync, c)];
    assert OpenSync(socks'[i]);
    forall d | 0 <= d < |ctxs| && ctxs[d].state != Free
      ensures Owned(socks', d) && d != c
    {
      assert Owned(socks, d);
      var j :| 0 <= j < |socks| && OpenSync(socks[j]) && socks[j].context == d;
      assert OpenSync(socks'[j]) && socks'[j].context == d;
    }
  }

  lemma TablesOther(socks: seq<Socket>, ctxs: seq<Context>, i: nat, s: Socket)
    requires Tables(socks, ctxs) && i < |socks| && !OpenSync(socks[i]) && !OpenSync(s)
    requires s.local == 0 || s.local == i + 1
    ensures Tables(socks[i := s], ctxs)
  {
    var socks' := socks[i := s];
    forall d | 0 <= d < |ctxs| && ctxs[d].state != Free
      ensures Owned(socks', d)
    {
      assert Owned(socks, d);
      var j :| 0 <= j < |socks| && OpenSync(socks[j]) && socks[j].context == d;
      assert OpenSync(socks'[j]) && socks'[j].context == d;
    }
  }

  lemma TablesOtherClosed(socks: seq<Socket>, ctxs: seq<Context>, i: nat)
    requires Tables(socks, ctxs) && i < |socks| && !OpenSync(socks[i])
    ensures Tables(socks[i := socks[i].(local := 0)], ctxs)
  {
    TablesOther(socks, ctxs, i, socks[i].(local := 0));
  }

  /** Without open sync sockets all contexts are free. */
  lemma AllFree(socks: seq<Socket>, ctxs: seq<Context>)
    requires Tables(socks, ctxs) && forall j :: 0 <= j < |socks| ==> !OpenSync(socks[j])
    ensures forall c :: 0 <= c < |ctxs| ==> ctxs[c].state == Free
  {
    forall c | 0 <= c < |ctxs|
      ensures ctxs[c].state == Free
    {
      assert !Owned(socks, c);
    }
  }

  /** Every way in which opening a reader for context `c` may end. */
  lemma OpenOutcomes(ctxs: seq<Context>, used: set<Kind>, leaked: set<Kind>, c: nat, k: Kind)
    requires Locks(ctxs, used, leaked) && c < |ctxs| && ctxs[c].state != SendingData
    ensures !(Locked(k) && k in used) ==>
      && Locks(ctxs[c := Context(SendingData, k)], if Locked(k) then used + {k} else used, leaked)
      && Holders(ctxs[c := Context(SendingData, k)]) == Holders(ctxs) + 1
    ensures Locked(k) && k !in used ==> Locks(ctxs, used + {k}, leaked + {k})
  {
    if !(Locked(k) && k in used) {
      LocksTaken(ctxs, used, leaked, c, k);
    }
  }

  lemma TablesClosed(socks: seq<Socket>, ctxs: seq<Context>, i: nat)
    requires Tables(socks, ctxs) && i < |socks| && OpenSync(socks[i])
    ensures var c := socks[i].context;
      Tables(socks[i := socks[i].(local := 0)], ctxs[c := ctxs[c].(state := Free)])
  {
    var c := socks[i].context;
    var socks' := socks[i := socks[i].(local := 0)];
    forall d | 0 <= d < |ctxs| && ctxs[d].state != Free && d != c
      ensures Owned(socks', d)
    {
      assert Owned(socks, d);
      var j :| 0 <= j < |socks| && OpenSync(socks[j]) && socks[j].context == d;
      assert OpenSync(socks'[j]) && socks'[j].context == d;
    }
  }

  // ----- what a packet does

  /** The tables and the locks as values; `leaked` are the readers whose lock nobody gives back any more. */
  datatype World = World(socks: seq<Socket>, ctxs: seq<Context>, used: set<Kind>, leaked: set<Kind>)

  function SetContext(w: World, c: nat, x: Context): World
    requires c < |w.ctxs|
  {
    w.(ctxs := w.ctxs[c := x])
  }

  function Hold(used: set<Kind>, k: Kind): set<Kind> {
    if Locked(k) then used + {k} else used
  }

  function Release(used: set<Kind>, k: Kind): set<Kind> {
    if Locked(k) then used - {k} else used
  }

  predicate Busy(w: World, k: Kind) {
    Locked(k) && k in w.used
  }

  /** GetMemoryMap fails under the lock: the early return of memory_open. */
  predicate MapFails(w: World, k: Kind, outcome: OpenOutcome) {
    Locked(k) && k !in w.used && outcome == NoMemoryMap
  }

  /** Context `c` gets the file name of a RECV or STAT request. */
  function AfterName(w: World, c: nat, recv: bool, k: Kind, sendOk: bool, outcome: OpenOutcome,
                     first: SendOutcome): World
    requires c < |w.ctxs|
  {
    var refused := SetContext(w, c, w.ctxs[c].(state := if recv then Recv else Established));
    if recv && !sendOk then refused
    else if MapFails(w, k, outcome) then refused.(used := w.used + {k}, leaked := w.leaked + {k})
    else if outcome != Opened || Busy(w, k) then refused
    else if recv && first != Finished then SetContext(w, c, Context(SendingData, k)).(used := Hold(w.used, k))
    else SetContext(w, c, Context(Established, k))
  }

  /** Context `c` gets a message. */
  function AfterMessage(w: World, c: nat, m: Message, k: Kind, sendOk: bool, outcome: OpenOutcome,
                        first: SendOutcome): World
    requires c < |w.ctxs|
  {
    match w.ctxs[c].state
    case Stat => AfterName(w, c, false, k, sendOk, outcome, first)
    case Recv => AfterName(w, c, true, k, sendOk, outcome, first)
    case Established =>
      if m.StatRequest? && m.named then AfterName(w, c, false, k, sendOk, outcome, first)
      else if m.RecvRequest? && m.named then AfterName(w, c, true, k, sendOk, outcome, first)
      else if m.StatRequest? then SetContext(w, c, w.ctxs[c].(state := Stat))
      else if m.RecvRequest? then SetContext(w, c, w.ctxs[c].(state := Recv))
      else w
    case _ => w
  }

  /** Context `c` stops sending when it has sent DONE. */
  function AfterSend(w: World, c: nat, o: SendOutcome): World
    requires c < |w.ctxs|
  {
    if w.ctxs[c].state == SendingData && o == Finished
    then SetContext(w, c, w.ctxs[c].(state := Established)).(used := Release(w.used, w.ctxs[c].reader))
    else w
  }

  /** Slot `i` is closed. */
  function AfterClose(w: World, i: nat, otherOk: bool): (r: World)
    requires i < |w.socks|
    ensures |r.socks| == |w.socks| && |r.ctxs| == |w.ctxs|
  {
    var s := w.socks[i];
    var closed := w.(socks := w.socks[i := s.(local := 0)]);
    if s.service == Other then if otherOk then closed else w
    else if 0 <= s.context < |w.ctxs| then
      var x := w.ctxs[s.context];
      SetContext(closed, s.context, x.(state := Free))
        .(used := if x.state == SendingData then Release(w.used, x.reader) else w.used)
    else w
  }

  /** The first `n` slots are closed where they are open. */
  function AfterCloseAll(w: World, failing: set<nat>, n: nat): (r: World)
    requires n <= |w.socks|
    ensures |r.socks| == |w.socks| && |r.ctxs| == |w.ctxs|
  {
    if n == 0 then w
    else
      var v := AfterCloseAll(w, failing, n - 1);
      if v.socks[n - 1].local != 0 then AfterClose(v, n - 1, n - 1 !in failing) else v
  }

  /** The first free slot, or the number of slots. */
  function FirstFree(socks: seq<Socket>): (i: nat)
    ensures i <= |socks| && (i < |socks| ==> socks[i].local == 0)
    ensures forall j :: 0 <= j < i ==> socks[j].local != 0
  {
    if socks == [] || socks[0].local == 0 then 0
    else
      var i := FirstFree(socks[1..]);
      assert forall j :: 1 <= j < i + 1 ==> socks[j] == socks[1..][j - 1];
      i + 1
  }

  /** The last free context, or -1. */
  function LastFree(ctxs: seq<Context>): (c: int)
    ensures -1 <= c < |ctxs| && (c >= 0 ==> ctxs[c].state == Free)
    ensures forall d :: c < d < |ctxs| ==> ctxs[d].state != Free
  {
    if ctxs == [] then -1
    else if ctxs[|ctxs| - 1].state == Free then |ctxs| - 1
    else LastFree(ctxs[..|ctxs| - 1])
  }

  /** The host asks for a socket. */
  function AfterOpen(w: World, remote: nat, known: bool, service: Service, argEmpty: bool, otherOk: bool,
                     sendOk: bool): World
  {
    var i, c := FirstFree(w.socks), LastFree(w.ctxs);
    if remote == 0 || !known || i == |w.socks| then w
    else if service == Other then
      w.(socks := w.socks[i := Socket(if otherOk && sendOk then i + 1 else 0, remote, Other, NO_CONTEXT)])
    else if !argEmpty || c < 0 then w.(socks := w.socks[i := Socket(0, remote, Sync, NO_CONTEXT)])
    else if !sendOk then w.(socks := w.socks[i := Socket(0, remote, Sync, c)])
    else SetContext(w.(socks := w.socks[i := Socket(i + 1, remote, Sync, c)]), c, w.ctxs[c].(state := Established))
  }

  /** The packet is for an open sync socket. */
  predicate ForSync(w: World, local: nat, remote: nat) {
    && Addressed(w.socks, local, remote) && OpenSync(w.socks[local - 1])
    && 0 <= w.socks[local - 1].context < |w.ctxs|
  }

  /** What one packet of the host, or the end of the connection, does. */
  function After(w: World, e: Event): World {
    match e
    case Opening(remote, known, service, argEmpty, otherOk, sendOk) =>
      AfterOpen(w, remote, known, service, argEmpty, otherOk, sendOk)
    case Writing(local, remote, m, k, sendOk, outcome, first) =>
      if ForSync(w, local, remote)
      then AfterMessage(w, w.socks[local - 1].context, m, k, sendOk, outcome, first) else w
    case Acknowledging(local, remote, next) =>
      if ForSync(w, local, remote) then AfterSend(w, w.socks[local - 1].context, next) else w
    case Closing(local, remote, otherOk) =>
      if Addressed(w.socks, local, remote) then AfterClose(w, local - 1, otherOk) else w
    case Disconnecting(failing) => AfterCloseAll(w, failing, |w.socks|)
  }

  function AfterAll(w: World, events: seq<Event>): World {
    if events == [] then w else After(AfterAll(w, events[..|events| - 1]), events[|events| - 1])
  }

  // ----- which runs leak a lock

  /** A context in this state takes the message for the file name of a request that it then opens. */
  predicate TakesName(s: CtxState, m: Message, sendOk: bool) {
    || s == Stat || (s == Recv && sendOk)
    || (s == Established && ((m.StatRequest? && m.named) || (m.RecvRequest? && m.named && sendOk)))
  }

  /** The packet leaks a lock: it names a free memory reader to a context that opens it, and GetMemoryMap fails. */
  predicate Leaks(w: World, e: Event) {
    && e.Writing? && ForSync(w, e.local, e.remote)
    && TakesName(w.ctxs[w.socks[e.local - 1].context].state, e.message, e.sendOk)
    && Locked(e.reader) && e.reader !in w.used && e.outcome == NoMemoryMap
  }

  lemma CloseKeepsLeaks(w: World, failing: set<nat>, n: nat)
    requires n <= |w.socks|
    ensures AfterCloseAll(w, failing, n).leaked == w.leaked
  {
  }

  /** A packet leaks the lock of the reader it names, or none. */
  lemma LeakStep(w: World, e: Event)
    ensures After(w, e).leaked == w.leaked + if Leaks(w, e) then {e.reader} else {}
  {
    if e.Disconnecting? {
      CloseKeepsLeaks(w, e.failing, |w.socks|);
    }
  }

  /** Some packet of the run leaks the lock of `k`. */
  predicate LeakedIn(w: World, events: seq<Event>, k: Kind) {
    exists n :: 0 <= n < |events| && Leaks(AfterAll(w, events[..n]), events[n]) && events[n].reader == k
  }

  /** A lock is leaked after a run exactly when it was before or some packet of the run leaks it. */
  lemma {:induction false} LeakExact(w: World, events: seq<Event>, k: Kind)
    ensures k in AfterAll(w, events).leaked <==> k in w.leaked || LeakedIn(w, events, k)
  {
    hide After, Leaks, LeakedIn;
    if events == [] {
      NoneLeaked(w, k);
    } else {
      var n := |events| - 1;
      LeakExact(w, events[..n], k);
      LeakStep(AfterAll(w, events[..n]), events[n]);
      LeakedStep(w, events, n, k);
    }
  }

  lemma NoneLeaked(w: World, k: Kind)
    ensures !LeakedIn(w, [], k)
  {
  }

  lemma LeakedStep(w: World, events: seq<Event>, n: nat, k: Kind)
    requires |events| == n + 1
    ensures LeakedIn(w, events, k) <==>
              LeakedIn(w, events[..n], k) || (Leaks(AfterAll(w, events[..n]), events[n]) && events[n].reader == k)
  {
    hide After, AfterAll, ForSync, TakesName;
    var init := events[..n];
    assert forall m :: 0 <= m < n ==> init[..m] == events[..m] && init[m] == events[m];
    if LeakedIn(w, init, k) {
      var m :| 0 <= m < n && Leaks(AfterAll(w, init[..m]), init[m]) && init[m].reader == k;
      assert Leaks(AfterAll(w, events[..m]), events[m]) && events[m].reader == k;
    }
    if LeakedIn(w, events, k) {
      var m :| 0 <= m < |events| && Leaks(AfterAll(w, events[..m]), events[m]) && events[m].reader == k;
      if m < n {
        assert Leaks(AfterAll(w, init[..m]), init[m]) && init[m].reader == k;
      }
    }
  }

  /** Naming a file does not depend on how the context got to wait for it. */
  lemma NameAnyState(w: World, c: nat, s: CtxState, recv: bool, k: Kind, sendOk: bool, outcome: OpenOutcome,
                     first: SendOutcome)
    requires c < |w.ctxs|
    ensures var v := SetContext(w, c, w.ctxs[c].(state := s));
            AfterName(v, c, recv, k, sendOk, outcome, first) == AfterName(w, c, recv, k, sendOk, outcome, first)
  {
  }

  lemma MessageByState(w: World, c: nat, m: Message, k: Kind, sendOk: bool, outcome: OpenOutcome, first: SendOutcome)
    requires c < |w.ctxs|
    ensures var v, s := AfterMessage(w, c, m, k, sendOk, outcome, first), w.ctxs[c].state;
            && (s == Stat ==> v == AfterName(w, c, false, k, sendOk, outcome, first))
            && (s == Recv ==> v == AfterName(w, c, true, k, sendOk, outcome, first))
            && (s == SendingData ==> v == w)
  {
  }

  class Adb {
    var socks: seq<Socket>
    var ctxs: seq<Context>
    var used: set<Kind>
    ghost var leaked: set<Kind>
    ghost var nbOpened: nat
    ghost var nbClosed: nat

    ghost function Now(): World
      reads this
    {
      World(socks, ctxs, used, leaked)
    }

    /** The tables and the locks are in order, and every reader that was opened was closed again but for those being
        sent. */
    ghost predicate Valid()
      reads this
    {
      Tables(socks, ctxs) && Locks(ctxs, used, leaked) && nbOpened == nbClosed + Holders(ctxs)
    }

    constructor ()
      ensures Valid() && Now() == Initial()
    {
      socks := seq(MAX_ADB_SOCKET, _ => Socket(0, 0, Other, NO_CONTEXT));
      ctxs := seq(MAX_ADB_SOCKET, _ => Context(Free, Unlocked));
      used, leaked, nbOpened, nbClosed := {}, {}, 0, 0;
      new;
      NoHolders(ctxs);
    }

    // ----- readers

    /** reader_open on behalf of a context. */
    method ReaderOpen(k: Kind, outcome: OpenOutcome) returns (r: Status)
      modifies `used, `leaked, `nbOpened
      ensures r == Success <==> outcome == Opened && !old(Busy(Now(), k))
      ensures r == InvalidParameter <==> Locked(k) && outcome == TooManyArguments
      ensures r == AlreadyStarted <==> outcome != TooManyArguments && old(Busy(Now(), k))
      ensures used == if r == Success then Hold(old(used), k)
                      else if old(MapFails(Now(), k, outcome)) then old(used) + {k} else old(used)
      ensures leaked == if old(MapFails(Now(), k, outcome)) then old(leaked) + {k} else old(leaked)
      ensures nbOpened == old(nbOpened) + if r == Success then 1 else 0
    {
      if !Locked(k) {
        if outcome != Opened {
          return ReaderError;
        }
        nbOpened := nbOpened + 1;
        return Success;
      }
      if outcome == TooManyArguments {
        return InvalidParameter;
      }
      if k in used {
        return AlreadyStarted;
      }
      used := used + {k};
      if outcome == NoMemoryMap {
        leaked := leaked + {k};
        return ReaderError;
      }
      if outcome != Opened {
        used := used - {k};
        return ReaderError;
      }
      nbOpened := nbOpened + 1;
      r := Success;
    }

    /** reader_close. */
    method ReaderClose(k: Kind)
      modifies `used, `nbClosed
      ensures used == Release(old(used), k) && nbClosed == old(nbClosed) + 1
    {
      if Locked(k) {
        used := used - {k};
      }
      nbClosed := nbClosed + 1;
    }

    /** A context that stops sending gives its reader back. */
    method StopSending(c: nat, next: CtxState)
      requires Valid() && c < |ctxs| && ctxs[c].state == SendingData && next != SendingData && next != Free
      modifies `ctxs, `used, `nbClosed
      ensures Valid() && ctxs == old(ctxs)[c := old(ctxs)[c].(state := next)]
      ensures used == Release(old(used), old(ctxs)[c].reader)
    {
      LocksReleased(ctxs, used, leaked, c, ctxs[c].(state := next));
      TablesKept(socks, ctxs, c, ctxs[c].(state := next));
      ReaderClose(ctxs[c].reader);
      ctxs := ctxs[c := ctxs[c].(state := next)];
    }

    /** A busy context that is not sending changes state. */
    method SetState(c: nat, next: CtxState)
      requires Valid() && c < |ctxs| && ctxs[c].state != Free && ctxs[c].state != SendingData
      requires next != Free && next != SendingData
      modifies `ctxs
      ensures Valid() && Now() == SetContext(old(Now()), c, old(ctxs)[c].(state := next))
    {
      LocksKept(ctxs, used, leaked, c, ctxs[c].(state := next));
      TablesKept(socks, ctxs, c, ctxs[c].(state := next));
      ctxs := ctxs[c := ctxs[c].(state := next)];
    }

    // ----- sockets

    /** sync_service_open: the last free context. */
    method SyncOpen(argEmpty: bool) returns (r: Status, c: nat)
      modifies `ctxs
      ensures r == InvalidParameter <==> !argEmpty
      ensures r == OutOfResources <==> argEmpty && LastFree(old(ctxs)) < 0
      ensures r == Success <==> argEmpty && 0 <= LastFree(old(ctxs))
      ensures r == Success ==> c == LastFree(old(ctxs)) && ctxs == old(ctxs)[c := old(ctxs)[c].(state := Established)]
      ensures r != Success ==> ctxs == old(ctxs)
    {
      c := 0;
      if !argEmpty {
        return InvalidParameter, c;
      }
      var found := false;
      for i := 0 to |ctxs|
        invariant found ==> c == LastFree(ctxs[..i]) < i
        invariant !found ==> LastFree(ctxs[..i]) < 0
      {
        assert ctxs[..i + 1][..i] == ctxs[..i];
        if ctxs[i].state == Free {
          c, found := i, true;
        }
      }
      assert ctxs[..|ctxs|] == ctxs;
      if !found {
        return OutOfResources, c;
      }
      ctxs := ctxs[c := ctxs[c].(state := Established)];
      r := Success;
    }

    /** The loop of asock_open: the first free slot. */
    method FindSlot() returns (found: bool, i: nat)
      ensures i == FirstFree(socks) && (found <==> i < |socks|)
    {
      i := 0;
      while i < |socks|
        invariant i <= |socks| && forall j :: 0 <= j < i ==> socks[j].local != 0
      {
        if socks[i].local == 0 {
          return true, i;
        }
        i := i + 1;
      }
      found := false;
    }

    /**
     * asock_open: a failure is answered with CLSE, and the status is then that of this packet. `closeOk` says
     * whether it can be sent.
     */
    method AsockOpen(remote: nat, known: bool, service: Service, argEmpty: bool, otherOk: bool, sendOk: bool,
                     closeOk: bool)
      returns (r: Status, ghost why: Status)
      requires Valid()
      modifies `socks, `ctxs
      ensures Valid() && Now() == AfterOpen(old(Now()), remote, known, service, argEmpty, otherOk, sendOk)
      ensures r == if why == Success || closeOk then Success else SendError
      ensures why == Success <==>
                && remote != 0 && known && FirstFree(old(socks)) < |old(socks)| && sendOk
                && (service == Sync ==> argEmpty) && (service == Other ==> otherOk)
      ensures why == OutOfResources <==>
                remote != 0 && known && forall j :: 0 <= j < |old(socks)| ==> old(socks)[j].local != 0
    {
      hide AfterOpen, Locks, Holders, Tables;
      var s := OpenSocket(remote, known, service, argEmpty, otherOk, sendOk);
      why := s;
      r := if s == Success || closeOk then Success else SendError;
    }

    /** asock_open up to the point where it fails or not. `otherOk` is what opening a service other than sync does,
        `sendOk` whether OKAY can be sent. */
    method OpenSocket(remote: nat, known: bool, service: Service, argEmpty: bool, otherOk: bool, sendOk: bool)
      returns (r: Status)
      requires Valid()
      modifies `socks, `ctxs
      ensures Valid() && Now() == AfterOpen(old(Now()), remote, known, service, argEmpty, otherOk, sendOk)
      ensures r == InvalidParameter <==>
                remote == 0 || !known || (FirstFree(old(socks)) < |old(socks)| && service == Sync && !argEmpty)
      ensures r == OutOfResources <==>
                remote != 0 && known && forall j :: 0 <= j < |old(socks)| ==> old(socks)[j].local != 0
      ensures r == Success <==>
                && remote != 0 && known && FirstFree(old(socks)) < |old(socks)| && sendOk
                && (service == Sync ==> argEmpty) && (service == Other ==> otherOk)
    {
      hide Locks, Holders;
      if remote == 0 || !known {
        return InvalidParameter;
      }
      var found, i := FindSlot();
      if !found {
        return OutOfResources;
      }
      ghost var socks0, ctxs0 := socks, ctxs;
      socks := socks[i := Socket(i + 1, remote, service, NO_CONTEXT)];
      if service == Other {
        r := if !otherOk then ReaderError else if !sendOk then SendError else Success;
        if r != Success {
          socks := socks[i := socks[i].(local := 0)];
        }
        TablesOther(socks0, ctxs, i, socks[i]);
        assert socks == socks0[i := socks[i]];
        return;
      }
      r := OpenSyncSocket(i, remote, socks0, argEmpty, sendOk);
    }

    /** The sync part of asock_open, once slot `i` has been taken: there always is a free context. */
    method OpenSyncSocket(i: nat, remote: nat, ghost socks0: seq<Socket>, argEmpty: bool, sendOk: bool)
      returns (r: Status)
      requires Tables(socks0, ctxs) && Locks(ctxs, used, leaked) && nbOpened == nbClosed + Holders(ctxs)
      requires i < |socks0| && i == FirstFree(socks0) && socks == socks0[i := Socket(i + 1, remote, Sync, NO_CONTEXT)]
      modifies `socks, `ctxs
      ensures Valid()
      ensures remote != 0 ==>
                Now() == AfterOpen(old(Now()).(socks := socks0), remote, true, Sync, argEmpty, true, sendOk)
      ensures r == if !argEmpty then InvalidParameter else if !sendOk then SendError else Success
    {
      hide Locks, Holders, Tables;
      ghost var ctxs0 := ctxs;
      FreeContext(socks0, ctxs, i);
      var c;
      r, c := SyncOpen(argEmpty);
      if r == Success {
        socks := socks[i := socks[i].(context := c)];
        if !sendOk {
          // sync_service_close: the context was not sending yet
          ctxs := ctxs[c := ctxs[c].(state := Free)];
          assert ctxs == ctxs0;
          r := SendError;
        }
      }
      if r != Success {
        socks := socks[i := socks[i].(local := 0)];
        TablesOther(socks0, ctxs0, i, socks[i]);
        assert socks == socks0[i := socks[i]];
        return;
      }
      TablesOpened(socks0, ctxs0, i, c, remote, ctxs[c]);
      LocksKept(ctxs0, used, leaked, c, ctxs[c]);
      assert socks == socks0[i := Socket(i + 1, remote, Sync, c)];
      assert ctxs == ctxs0[c := ctxs[c]];
    }

    /** asock_close: the service is closed first; a sync socket gives its reader and its context back. */
    method AsockClose(i: nat, otherOk: bool) returns (r: Status)
      requires Valid() && i < |socks| && socks[i].local != 0
      modifies `socks, `ctxs, `used, `nbClosed
      ensures Valid() && Now() == AfterClose(old(Now()), i, otherOk)
      ensures r == Success <==> old(socks)[i].service == Sync || otherOk
    {
      hide Locks, Holders;
      if socks[i].service == Other {
        if !otherOk {
          return ReaderError;
        }
        TablesOtherClosed(socks, ctxs, i);
        socks := socks[i := socks[i].(local := 0)];
        return Success;
      }
      var c: nat := socks[i].context;
      if ctxs[c].state == SendingData {
        StopSending(c, Established);
      }
      TablesClosed(socks, ctxs, i);
      LocksKept(ctxs, used, leaked, c, ctxs[c].(state := Free));
      ctxs := ctxs[c := ctxs[c].(state := Free)];
      socks := socks[i := socks[i].(local := 0)];
      assert ctxs == old(ctxs)[c := old(ctxs)[c].(state := Free)];
      r := Success;
    }

    /** asock_close_all: every sync socket is closed, so all contexts are free and no reader is held. */
    method AsockCloseAll(failing: set<nat>)
      requires Valid()
      modifies `socks, `ctxs, `used, `nbClosed
      ensures Valid() && Now() == AfterCloseAll(old(Now()), failing, |old(socks)|)
      ensures forall j :: 0 <= j < |socks| ==> !OpenSync(socks[j])
      ensures forall c :: 0 <= c < |ctxs| ==> ctxs[c].state == Free
      ensures nbOpened == nbClosed
    {
      hide AfterClose, Locks, Holders, Tables;
      for i := 0 to |socks|
        invariant Valid() && |socks| == |old(socks)| && Now() == AfterCloseAll(old(Now()), failing, i)
        invariant forall j :: 0 <= j < i ==> !OpenSync(socks[j])
      {
        ghost var was := Now();
        if socks[i].local != 0 {
          var r := AsockClose(i, i !in failing);
          ClosesOne(was, i, i !in failing);
        }
      }
      AllFree(socks, ctxs);
      NoHolders(ctxs);
    }

    // ----- the sync service

    /** Opening a reader for a context, which then sends. */
    method OpenReader(c: nat, k: Kind, outcome: OpenOutcome) returns (r: Status)
      requires Valid() && c < |ctxs| && ctxs[c].state != Free && ctxs[c].state != SendingData
      modifies `ctxs, `used, `leaked, `nbOpened
      ensures Valid()
      ensures r == Success <==> outcome == Opened && !old(Busy(Now(), k))
      ensures ctxs == if r == Success then old(ctxs)[c := Context(SendingData, k)] else old(ctxs)
      ensures used == if r == Success then Hold(old(used), k)
                      else if old(MapFails(Now(), k, outcome)) then old(used) + {k} else old(used)
      ensures leaked == if old(MapFails(Now(), k, outcome)) then old(leaked) + {k} else old(leaked)
    {
      hide Locks, Holders, Tables;
      OpenOutcomes(ctxs, used, leaked, c, k);
      TablesKept(socks, ctxs, c, Context(SendingData, k));
      r := ReaderOpen(k, outcome);
      if r == Success {
        ctxs := ctxs[c := Context(SendingData, k)];
      }
    }

    /** send_more_data as far as the context is concerned. */
    method SyncSend(c: nat, o: SendOutcome) returns (r: Status)
      requires Valid() && c < |ctxs| && ctxs[c].state == SendingData
      modifies `ctxs, `used, `nbClosed
      ensures Valid() && Now() == AfterSend(old(Now()), c, o)
      ensures r == SendError <==> o == SendFailed
    {
      if o == Finished {
        StopSending(c, Established);
      }
      r := if o == SendFailed then SendError else Success;
    }

    /** sync_service_recv: open the reader, then send the first packet. */
    method SyncRecv(c: nat, k: Kind, sendOk: bool, outcome: OpenOutcome, first: SendOutcome) returns (r: Status)
      requires Valid() && c < |ctxs| && ctxs[c].state == Recv
      modifies `ctxs, `used, `leaked, `nbOpened, `nbClosed
      ensures Valid() && Now() == AfterName(old(Now()), c, true, k, sendOk, outcome, first)
    {
      hide Locks, Holders, Tables;
      ghost var was := ctxs;
      assert was == was[c := was[c].(state := Recv)];
      if !sendOk {
        return SendError;
      }
      r := OpenReader(c, k, outcome);
      if r != Success {
        return;
      }
      r := SyncSend(c, first);
      assert first == Finished ==> ctxs == was[c := Context(Established, k)] && used == old(used);
    }

    /** sync_service_stat: the reader is opened and closed again at once. */
    method SyncStat(c: nat, k: Kind, sendOk: bool, outcome: OpenOutcome, first: SendOutcome) returns (r: Status)
      requires Valid() && c < |ctxs| && ctxs[c].state == Stat
      modifies `ctxs, `used, `leaked, `nbOpened, `nbClosed
      ensures Valid() && Now() == AfterName(old(Now()), c, false, k, sendOk, outcome, first)
    {
      hide Locks, Holders, Tables;
      ghost var was := ctxs;
      SetState(c, Established);
      r := OpenReader(c, k, outcome);
      if r == Success {
        StopSending(c, Established);
        assert ctxs == was[c := Context(Established, k)] && used == old(used);
      }
    }

    /** A request of the host to an idle context. */
    method SyncRequest(c: nat, m: Message, k: Kind, sendOk: bool, outcome: OpenOutcome, first: SendOutcome)
      returns (r: Status)
      requires Valid() && c < |ctxs| && ctxs[c].state == Established
      modifies `ctxs, `used, `leaked, `nbOpened, `nbClosed
      ensures Valid() && Now() == AfterMessage(old(Now()), c, m, k, sendOk, outcome, first)
    {
      hide Locks, Holders, Tables, AfterName, Adb.Valid;
      r := Success;
      ghost var was := Now();
      match m {
        case StatRequest(named) =>
          SetState(c, Stat);
          if named {
            NameAnyState(was, c, Stat, false, k, sendOk, outcome, first);
            r := SyncStat(c, k, sendOk, outcome, first);
          }
        case RecvRequest(named) =>
          SetState(c, Recv);
          if named {
            NameAnyState(was, c, Recv, true, k, sendOk, outcome, first);
            r := SyncRecv(c, k, sendOk, outcome, first);
          }
        case Quit =>
        case _ =>
          r := InvalidParameter;
      }
    }

    /** sync_service_read. */
    method SyncRead(c: nat, m: Message, k: Kind, sendOk: bool, outcome: OpenOutcome, first: SendOutcome)
      returns (r: Status)
      requires Valid() && c < |ctxs| && ctxs[c].state != Free
      modifies `ctxs, `used, `leaked, `nbOpened, `nbClosed
      ensures Valid() && Now() == AfterMessage(old(Now()), c, m, k, sendOk, outcome, first)
    {
      hide Tables, Locks, Holders, AfterName, AfterMessage;
      MessageByState(Now(), c, m, k, sendOk, outcome, first);
      r := InvalidParameter;
      match ctxs[c].state {
        case Established =>
          r := SyncRequest(c, m, k, sendOk, outcome, first);
        case Stat =>
          r := SyncStat(c, k, sendOk, outcome, first);
        case Recv =>
          r := SyncRecv(c, k, sendOk, outcome, first);
        case SendingData =>
      }
    }

    /** asock_find. */
    method AsockFind(local: nat, remote: nat) returns (found: bool, i: nat)
      requires Valid()
      ensures found <==> exists j :: 0 <= j < |socks| && socks[j].local == local != 0 && socks[j].remote == remote
      ensures found <==> Addressed(socks, local, remote)
      ensures found ==> i == local - 1
    {
      i := 0;
      if local == 0 || local > |socks| {
        return false, i;
      }
      i := local - 1;
      found := socks[i].local == local && socks[i].remote == remote;
    }

    // ----- packets

    /** A WRTE packet of the host. */
    method OnWrite(e: Event)
      requires Valid() && e.Writing?
      modifies `ctxs, `used, `leaked, `nbOpened, `nbClosed
      ensures Valid() && Now() == After(old(Now()), e)
      ensures leaked == old(leaked) + if old(Leaks(Now(), e)) then {e.reader} else {}
    {
      hide Locks, Holders, Tables, AfterMessage, Leaks;
      LeakStep(Now(), e);
      var found, i := AsockFind(e.local, e.remote);
      if found && socks[i].service == Sync {
        ContextOf(socks, ctxs, i);
        var r := SyncRead(socks[i].context, e.message, e.reader, e.sendOk, e.outcome, e.first);
      }
    }

    /** An OKAY packet of the host. */
    method OnOkay(e: Event)
      requires Valid() && e.Acknowledging?
      modifies `ctxs, `used, `nbClosed
      ensures Valid() && Now() == After(old(Now()), e)
    {
      hide Locks, Holders, Tables;
      var found, i := AsockFind(e.local, e.remote);
      if found && socks[i].service == Sync {
        ContextOf(socks, ctxs, i);
        if ctxs[socks[i].context].state == SendingData {
          var r := SyncSend(socks[i].context, e.next);
        }
      }
    }

    /** A CLSE packet of the host. */
    method OnClose(e: Event)
      requires Valid() && e.Closing?
      modifies `socks, `ctxs, `used, `nbClosed
      ensures Valid() && Now() == After(old(Now()), e)
    {
      hide Locks, Holders, Tables, AfterClose;
      var found, i := AsockFind(e.local, e.remote);
      if found {
        var r := AsockClose(i, e.otherOk);
      }
    }

    /** One packet of the host, or the end of the connection. */
    method Handle(e: Event)
      requires Valid()
      modifies this
      ensures Valid() && Now() == After(old(Now()), e)
      ensures leaked == old(leaked) + if old(Leaks(Now(), e)) then {e.reader} else {}
      ensures e.Disconnecting? ==> nbOpened == nbClosed && forall c :: 0 <= c < |ctxs| ==> ctxs[c].state == Free
    {
      hide Locks, Holders, Tables, AfterMessage, AfterClose, AfterOpen, AfterSend, Leaks;
      LeakStep(Now(), e);
      match e {
        case Opening(remote, known, service, argEmpty, otherOk, sendOk) =>
          var r, _ := AsockOpen(remote, known, service, argEmpty, otherOk, sendOk, true);
        case Writing(_, _, _, _, _, _, _) => OnWrite(e);
        case Acknowledging(_, _, _) => OnOkay(e);
        case Closing(_, _, _) => OnClose(e);
        case Disconnecting(failing) => AsockCloseAll(failing);
      }
    }

    /** Whatever the host sends, in whatever order: the tables, the locks and the balance of opens and closes
        stay in order, and a lock is leaked exactly when some packet leaked it. */
    method Run(events: seq<Event>)
      requires Valid()
      modifies this
      ensures Valid() && Now() == AfterAll(old(Now()), events)
      ensures forall k :: k in leaked <==> k in old(leaked) || LeakedIn(old(Now()), events, k)
    {
      hide After, Locks, Holders, Tables;
      for n := 0 to |events|
        invariant Valid() && Now() == AfterAll(old(Now()), events[..n])
      {
        assert events[..n + 1][..n] == events[..n];
        Handle(events[n]);
      }
      assert events[..|events|] == events;
      forall k
        ensures k in leaked <==> k in old(leaked) || LeakedIn(old(Now()), events, k)
      {
        LeakExact(old(Now()), events, k);
      }
    }
  }

  /** Before the first packet. */
  function Initial(): World {
    World(seq(MAX_ADB_SOCKET, _ => Socket(0, 0, Other, NO_CONTEXT)), seq(MAX_ADB_SOCKET, _ => Context(Free, Unlocked)),
          {}, {})
  }

  lemma ClosesOne(w: World, i: nat, otherOk: bool)
    requires i < |w.socks| && Tables(w.socks, w.ctxs)
    ensures var v := AfterClose(w, i, otherOk);
            && !OpenSync(v.socks[i]) && forall j :: 0 <= j < i && !OpenSync(w.socks[j]) ==> !OpenSync(v.socks[j])
  {
  }

  /** A run from power-on: a memory reader is in use exactly when one context holds it or some packet leaked its
      lock. */
  method FromStart(events: seq<Event>) returns (a: Adb)
    ensures a.Valid() && a.Now() == AfterAll(Initial(), events)
    ensures forall k :: Locked(k) ==>
              (k in a.used <==> (exists c :: Senders(a.ctxs, k) == {c}) || LeakedIn(Initial(), events, k))
    ensures forall k :: Locked(k) && LeakedIn(Initial(), events, k) ==> Senders(a.ctxs, k) == {}
  {
    a := new Adb();
    a.Run(events);
    forall k | Locked(k)
      ensures k in a.used <==> (exists c :: Senders(a.ctxs, k) == {c}) || LeakedIn(Initial(), events, k)
      ensures LeakedIn(Initial(), events, k) ==> Senders(a.ctxs, k) == {}
    {
      LockHeld(a.ctxs, a.used, a.leaked, k);
    }
  }

  lemma LockHeld(ctxs: seq<Context>, used: set<Kind>, leaked: set<Kind>, k: Kind)
    requires Locks(ctxs, used, leaked) && Locked(k)
    ensures k in used <==> (exists c :: Senders(ctxs, k) == {c}) || k in leaked
    ensures k in leaked ==> Senders(ctxs, k) == {}
  {
    if k in used && k !in leaked {
      var c :| c in Senders(ctxs, k);
      OneSender(Senders(ctxs, k), c);
    }
    if c :| Senders(ctxs, k) == {c} {
      assert c in Senders(ctxs, k);
    }
  }

  /** A leaked lock stays so whatever comes, without a sender, and the reader can never be opened again. */
  method LeakedForGood(a: Adb, later: seq<Event>, k: Kind, outcome: OpenOutcome) returns (r: Status)
    requires a.Valid() && Locked(k) && k in a.leaked
    modifies a
    ensures a.Valid() && k in a.used && k in a.leaked && Senders(a.ctxs, k) == {}
    ensures r == if outcome == TooManyArguments then InvalidParameter else AlreadyStarted
  {
    a.Run(later);
    LockHeld(a.ctxs, a.used, a.leaked, k);
    r := a.ReaderOpen(k, outcome);
  }

  /** A host that asks for "ram" while GetMemoryMap fails: the reader is in use, nobody sends, and that is for good. */
  method LeakExample(later: seq<Event>, outcome: OpenOutcome) returns (a: Adb, r: Status)
    ensures a.Valid() && Ram in a.used && Senders(a.ctxs, Ram) == {}
    ensures outcome != TooManyArguments ==> r == AlreadyStarted
  {
    var events := [Opening(7, true, Sync, true, true, true),
                   Writing(1, 7, RecvRequest(true), Ram, true, NoMemoryMap, SentMore)];
    a := new Adb();
    assert events[..1] == [events[0]] && [events[0]][..0] == [] && events[..2] == events;
    assert AfterAll(Initial(), [events[0]]) == After(Initial(), events[0]);
    assert Leaks(AfterAll(Initial(), events[..1]), events[1]);
    a.Run(events);
    r := LeakedForGood(a, later, Ram, outcome);
  }
}
