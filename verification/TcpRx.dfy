/** The receive side of the TCP layer (libefitcp/tcp.c): a buffer filled through sixteen receive tokens. */
module TcpRx {
  import opened Bytes

  const MAX_TOKEN := 16
  const RX_FRAG_SIZE := 2048

  datatype Status = Success | NotReady | CloseFailed

  /** What the firmware makes of a Receive: the connection is closed when it refuses one, if that works. */
  datatype Post = Accepted | Refused(closed: bool)

  /** How a token completes: with bytes, or with the end of the connection or an error. */
  datatype Completion = Data(n: nat) | Broken

  /** The tokens posted to the firmware, oldest first: each asks for a fragment and is posted once. */
  predicate Posted(tokens: seq<nat>, queue: seq<nat>) {
    && |tokens| == MAX_TOKEN
    && (forall i :: 0 <= i < |queue| ==> queue[i] < MAX_TOKEN && 0 < tokens[queue[i]] <= RX_FRAG_SIZE)
    && (forall i, j :: 0 <= i < j < |queue| ==> queue[i] != queue[j])
  }

  /** Bytes asked for by the posted tokens. */
  function Asked(tokens: seq<nat>, queue: seq<nat>): (n: nat)
    requires Posted(tokens, queue)
    ensures n == 0 <==> queue == []
  {
    if queue == [] then 0 else tokens[queue[0]] + Asked(tokens, queue[1..])
  }

  /** The oldest token comes off. */
  lemma AskedFirst(tokens: seq<nat>, queue: seq<nat>)
    requires Posted(tokens, queue) && queue != []
    ensures Posted(tokens, queue[1..]) && queue[0] !in queue[1..]
    ensures queue[0] < |tokens| == MAX_TOKEN && tokens[queue[0]] <= RX_FRAG_SIZE
    ensures Asked(tokens, queue) == tokens[queue[0]] + Asked(tokens, queue[1..])
  {
  }

  /** A free token can be posted with a new size. */
  lemma PostedMore(tokens: seq<nat>, queue: seq<nat>, t: nat, n: nat)
    requires Posted(tokens, queue) && t < MAX_TOKEN && t !in queue && 0 < n <= RX_FRAG_SIZE
    ensures Posted(tokens[t := n], queue + [t])
  {
  }

  /** Posting it asks for as many bytes more. */
  lemma {:induction false} AskedMore(tokens: seq<nat>, queue: seq<nat>, t: nat, n: nat)
    requires Posted(tokens, queue) && t < MAX_TOKEN && t !in queue && 0 < n <= RX_FRAG_SIZE
    requires Posted(tokens[t := n], queue + [t])
    ensures Asked(tokens[t := n], queue + [t]) == Asked(tokens, queue) + n
  {
    AskedFirst(tokens[t := n], queue + [t]);
    if queue == [] {
      assert [t][1..] == [];
    } else {
      assert (queue + [t])[1..] == queue[1..] + [t];
      AskedFirst(tokens, queue);
      hide Posted;
      assert t !in queue[1..];
      AskedMore(tokens, queue[1..], t, n);
    }
  }

  /**
   * Bytes asked for are owed; `lost` of them no posted token will bring. When some owed bytes are not asked for and
   * none are lost, every token is posted.
   */
  predicate Window(tokens: seq<nat>, queue: seq<nat>, requested: nat, received: nat, size: nat, lost: nat) {
    && Posted(tokens, queue) && requested == Asked(tokens, queue) + lost
    && received + requested <= size
    && (lost == 0 && received + requested < size ==> |queue| == MAX_TOKEN)
  }

  /**
   * The connection and the static `rx` record. The firmware completes the tokens in the order of `queue`; `posts` and
   * `completions` say what it makes of the successive calls and tokens.
   */
  class Tcp {
    const input: seq<byte>
    const posts: nat -> Post
    const completions: nat -> Completion
    var nbPosts: nat
    var nbCompletions: nat
    var taken: nat
    var buf: array<byte>
    var base: nat
    var size: nat
    var requested: nat
    var received: nat
    var receiving: bool
    var tokens: seq<nat>
    var queue: seq<nat>
    var callbacks: nat
    ghost var lost: nat

    /** The accounting that holds from one event to the next. */
    ghost predicate Valid()
      reads this
    {
      && base + size <= buf.Length
      && Posted(tokens, queue) && requested == Asked(tokens, queue) + lost && received + requested <= size
      && (!receiving ==> queue == [] || lost > 0)
      && (receiving ==>
            lost == 0 && Window(tokens, queue, requested, received, size, 0) && (size > 0 ==> received < size))
    }

    /** The connection holds. */
    ghost predicate Clean() {
      (forall i :: posts(i) == Accepted) && (forall k :: completions(k).Data?)
    }

    constructor (input: seq<byte>, buf: array<byte>, posts: nat -> Post, completions: nat -> Completion)
      ensures Valid() && !receiving && queue == [] && this.input == input && taken == 0 && callbacks == 0
      ensures this.posts == posts && this.completions == completions
    {
      this.input, this.posts, this.completions, this.buf, base, size := input, posts, completions, buf, 0, 0;
      nbPosts, nbCompletions, taken, requested, received, receiving, callbacks, lost := 0, 0, 0, 0, 0, false, 0, 0;
      tokens, queue := seq(MAX_TOKEN, _ => 0), [];
    }

    /** request_data. */
    method RequestData(t: nat, maxSize: nat) returns (r: Status)
      requires Posted(tokens, queue) && requested == Asked(tokens, queue) + lost
      requires t < MAX_TOKEN && t !in queue && maxSize > 0
      modifies `tokens, `requested, `queue, `lost, `receiving, `nbPosts
      ensures Posted(tokens, queue) && requested == Asked(tokens, queue) + lost
      ensures |tokens| == MAX_TOKEN && tokens[t] == Min(maxSize, RX_FRAG_SIZE)
              && requested == old(requested) + tokens[t]
      ensures posts(old(nbPosts)) == Accepted ==>
                r == Success && queue == old(queue) + [t] && lost == old(lost) && receiving == old(receiving)
      ensures posts(old(nbPosts)) != Accepted ==>
                && queue == old(queue) && lost == old(lost) + tokens[t] && !receiving
                && r == if posts(old(nbPosts)).closed then Success else CloseFailed
    {
      var n: nat := Min(maxSize, RX_FRAG_SIZE);
      hide Posted, Asked;
      PostedMore(tokens, queue, t, n);
      AskedMore(tokens, queue, t, n);
      Unposted(tokens, queue, t, n);
      tokens := tokens[t := n];
      requested := requested + n;
      var p := posts(nbPosts);
      nbPosts := nbPosts + 1;
      if p == Accepted {
        queue := queue + [t];
        return Success;
      }
      lost := lost + n;
      receiving := false;
      r := if p.closed then Success else CloseFailed;
    }

    /** tcp_read: every token is posted as long as bytes are left to ask for. */
    method Read(dst: array<byte>, at: nat, n: nat) returns (r: Status)
      requires Valid() && at + n <= dst.Length && (receiving || queue == [])
      modifies this
      ensures Valid() && (r == NotReady <==> old(receiving))
      ensures taken == old(taken) && callbacks == old(callbacks)
      ensures r != NotReady ==> received == 0 && buf == dst && base == at && size == n && (receiving <==> lost == 0)
      ensures r != NotReady && receiving ==> r == Success && (queue == [] <==> n == 0)
      ensures r != NotReady && (Clean() || n == 0) ==> receiving
    {
      hide Posted, Asked, Window, Tcp.Clean;
      if receiving {
        return NotReady;
      }
      buf, base, size := dst, at, n;
      received, requested, lost := 0, 0, 0;
      receiving := true;
      r := PostAll();
      if r == Success {
        Opened(tokens, queue, requested, n, lost);
      }
    }

    /** The loop of tcp_read. */
    method PostAll() returns (r: Status)
      requires Posted(tokens, queue) && queue == [] && requested == lost == 0 && receiving
      modifies `tokens, `requested, `queue, `lost, `receiving, `nbPosts
      ensures Posted(tokens, queue) && requested == Asked(tokens, queue) + lost && requested <= size
      ensures r == Success && lost == 0 && requested < size ==> |queue| == MAX_TOKEN
      ensures r == Success || (r == CloseFailed && lost > 0)
      ensures (receiving <==> lost == 0) && (Clean() ==> lost == 0)
    {
      hide Posted, Asked;
      NonePosted(tokens);
      var left: nat, i: nat := size, 0;
      while i < MAX_TOKEN && left > 0
        invariant i <= MAX_TOKEN && left <= size && requested + left == size
        invariant Posted(tokens, queue) && requested == Asked(tokens, queue) + lost
        invariant forall k :: 0 <= k < |queue| ==> queue[k] < i
        invariant |queue| <= i && (lost == 0 ==> |queue| == i)
        invariant (receiving <==> lost == 0) && (Clean() ==> lost == 0)
      {
        r := RequestData(i, left);
        if r == CloseFailed {
          return;
        }
        left := left - tokens[i];
        i := i + 1;
      }
      r := Success;
    }

    /** The bytes of one completion go to their place in the buffer. */
    method Copy(n: nat)
      requires base + received + n <= buf.Length && taken + n <= |input|
      modifies buf
      ensures buf[..] == Splice(old(buf[..]), base + received, input[taken..taken + n])
    {
      var from, t := base + received, taken;
      forall i | 0 <= i < n {
        buf[from + i] := input[t + i];
      }
    }

    /** The oldest token is taken back and posted again for what is owed and not asked for. */
    method Recycle(n: nat)
      requires Window(tokens, queue, requested, received, size, lost) && queue != [] && 0 < n <= tokens[queue[0]]
      modifies `tokens, `queue, `requested, `received, `lost, `receiving, `nbPosts
      ensures Window(tokens, queue, requested, received, size, lost) && received == old(received) + n
      ensures lost >= old(lost) && (Clean() ==> lost == old(lost))
      ensures lost == old(lost) ==> receiving == old(receiving)
      ensures lost > old(lost) ==> !receiving
    {
      hide Posted, Asked;
      AskedFirst(tokens, queue);
      var t := queue[0];
      queue := queue[1..];
      received := received + n;
      requested := requested - tokens[t];
      if requested < size - received {
        var s := RequestData(t, size - received - requested);
      }
    }

    /** data_received, for a token that brings `n` bytes. */
    method DataReceived(n: nat)
      requires Valid() && queue != [] && 0 < n <= tokens[queue[0]] && taken + n <= |input|
      modifies this, buf
      ensures Valid() && buf == old(buf) && base == old(base) && size == old(size)
              && nbCompletions == old(nbCompletions)
      ensures received == old(received) + n && taken == old(taken) + n
      ensures buf[..] == Splice(old(buf[..]), base + old(received), input[old(taken)..taken])
      ensures lost >= old(lost) && (Clean() ==> lost == old(lost))
      ensures receiving <==> old(receiving) && lost == 0 && received < size
      ensures callbacks == old(callbacks) + (if received == size then 1 else 0) && (received == size ==> queue == [])
    {
      hide Window, Splice, Posted, Asked, Tcp.Clean;
      InWindow();
      Fits(tokens, queue, requested, received, size, lost, n);
      Copy(n);
      taken := taken + n;
      Recycle(n);
      Done(tokens, queue, requested, received, size, lost);
      if received == size {
        receiving := false;
        callbacks := callbacks + 1;
      }
    }

    /** data_received, for a token that brings the end of the connection or an error. */
    method Dropped()
      requires Valid() && queue != []
      modifies `receiving, `queue, `lost
      ensures Valid() && !receiving && queue == old(queue)[1..] && lost > old(lost)
    {
      AskedFirst(tokens, queue);
      hide Posted, Asked;
      lost := lost + tokens[queue[0]];
      queue := queue[1..];
      receiving := false;
    }

    /** The oldest token completes. */
    method Complete()
      requires Valid() && queue != [] && taken + (size - received) <= |input|
      modifies this, buf
      ensures Valid() && buf == old(buf) && base == old(base) && size == old(size)
      ensures received >= old(received) && taken - received == old(taken - received)
      ensures buf[..] == Splice(old(buf[..]), base + old(received), input[old(taken)..taken])
      ensures lost >= old(lost) && (Clean() ==> lost == old(lost))
      ensures receiving <==> old(receiving) && lost == 0 && received < size
      ensures callbacks == old(callbacks) + (if received == size then 1 else 0) && (received == size ==> queue == [])
      ensures received > old(received) || |queue| < old(|queue|)
    {
      hide Splice;
      var m := Owed();
      var c := completions(nbCompletions);
      nbCompletions := nbCompletions + 1;
      match c {
        case Data(n) => DataReceived(if 0 < n <= m then n else m);
        case Broken =>
          SpliceNothing(buf[..], base + received, input[taken..taken]);
          Dropped();
      }
    }

    /** A whole read, as far as it comes. */
    method ReadAll(dst: array<byte>, at: nat, n: nat) returns (r: Status)
      requires Valid() && (receiving || queue == [])
      requires at + n <= dst.Length && 0 < n && taken + n <= |input|
      modifies this, dst
      ensures Valid() && (r == NotReady <==> old(receiving))
      ensures r == NotReady ==> dst[..] == old(dst[..]) && taken == old(taken) && callbacks == old(callbacks)
      ensures r != NotReady ==> !receiving && queue == [] && old(taken) <= taken <= old(taken) + n
      ensures r != NotReady ==> dst[..] == Splice(old(dst[..]), at, input[old(taken)..taken])
      ensures r != NotReady ==> callbacks == old(callbacks) + if taken == old(taken) + n then 1 else 0
      ensures r != NotReady ==> (taken == old(taken) + n <==> lost == 0)
      ensures r != NotReady && Clean() ==> lost == 0
    {
      hide Window, Splice, Tcp.Clean;
      r := Read(dst, at, n);
      if r == NotReady {
        return;
      }
      ghost var was := dst[..];
      ghost var start := taken;
      SpliceNothing(was, at, input[start..start]);
      while queue != []
        invariant Valid() && buf == dst && base == at && size == n && taken == start + received
        invariant callbacks == old(callbacks) + (if received == n then 1 else 0) && (received == n ==> queue == [])
        invariant dst[..] == Splice(was, at, input[start..taken])
        invariant (receiving <==> lost == 0 && received < n) && (Clean() ==> lost == 0)
        decreases n - received, |queue|
      {
        ghost var b, p := taken, at + received;
        Complete();
        SpliceMore(was, at, p, input, start, b, taken);
      }
      if receiving {
        Ended(tokens, queue, requested, received, size);
      }
    }

    /** While tokens are posted the window holds, broken or not. */
    lemma InWindow()
      requires Valid() && queue != []
      ensures Window(tokens, queue, requested, received, size, lost) && queue[0] < |tokens|
    {
    }

    /** The size the oldest token asks for. */
    method Owed() returns (m: nat)
      requires Valid() && queue != []
      ensures |tokens| == MAX_TOKEN && queue[0] < MAX_TOKEN && m == tokens[queue[0]]
      ensures 0 < m <= size - received
    {
      AskedFirst(tokens, queue);
      m := tokens[queue[0]];
    }
  }

  lemma Fits(tokens: seq<nat>, queue: seq<nat>, requested: nat, received: nat, size: nat, lost: nat, n: nat)
    requires Window(tokens, queue, requested, received, size, lost) && queue != [] && n <= tokens[queue[0]]
    ensures received + n <= size
  {
    AskedFirst(tokens, queue);
  }

  /** A full buffer leaves no token posted. */
  lemma Done(tokens: seq<nat>, queue: seq<nat>, requested: nat, received: nat, size: nat, lost: nat)
    requires Window(tokens, queue, requested, received, size, lost)
    ensures Posted(tokens, queue) && requested == Asked(tokens, queue) + lost && received + requested <= size
    ensures received == size ==> queue == [] && lost == 0
  {
  }

  /** A read that goes on has a token posted. */
  lemma Ended(tokens: seq<nat>, queue: seq<nat>, requested: nat, received: nat, size: nat)
    requires Window(tokens, queue, requested, received, size, 0) && queue == []
    ensures received == size
  {
  }

  lemma Opened(tokens: seq<nat>, queue: seq<nat>, requested: nat, size: nat, lost: nat)
    requires Posted(tokens, queue) && requested == Asked(tokens, queue) + lost && requested <= size
    requires lost == 0 && requested < size ==> |queue| == MAX_TOKEN
    ensures Window(tokens, queue, requested, 0, size, lost)
    ensures lost == 0 ==> (queue == [] <==> size == 0)
  {
  }

  lemma NonePosted(tokens: seq<nat>)
    requires Posted(tokens, [])
    ensures Asked(tokens, []) == 0
  {
  }

  /** The size of a token that is not posted does not count. */
  lemma {:induction false} Unposted(tokens: seq<nat>, queue: seq<nat>, t: nat, n: nat)
    requires Posted(tokens, queue) && t < MAX_TOKEN && t !in queue
    ensures Posted(tokens[t := n], queue) && Asked(tokens[t := n], queue) == Asked(tokens, queue)
  {
    if queue != [] {
      AskedFirst(tokens, queue);
      Unposted(tokens, queue[1..], t, n);
    }
  }

  lemma SpliceMore(d: seq<byte>, at: nat, p: nat, input: seq<byte>, a: nat, b: nat, c: nat)
    requires a <= b <= c <= |input| && at + (c - a) <= |d| && p == at + (b - a)
    ensures Splice(Splice(d, at, input[a..b]), p, input[b..c]) == Splice(d, at, input[a..c])
  {
    assert input[a..b] + input[b..c] == input[a..c];
  }
}
