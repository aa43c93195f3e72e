/** The argument list of a command, cut in place out of its buffer (strtok_r and string_to_argv of
    libkernelflinger/lib.c). */
module CommandLine {
  import opened Bytes

  const FIRST_DELIM := ":= "
  const DELIM := " "
  const MAX_ARGS := 16

  /** The C string at the front of a buffer. */
  function CString(b: seq<char>): (s: string)
    ensures s <= b && '\0' !in s && (|s| < |b| ==> b[|s|] == '\0')
  {
    if b == [] || b[0] == '\0' then [] else [b[0]] + CString(b[1..])
  }

  /** What comes before the first delimiter. */
  function Token(s: string, delim: string): (w: string)
    ensures w <= s && (forall i :: 0 <= i < |w| ==> w[i] !in delim) && (|w| < |s| ==> s[|w|] in delim)
  {
    if s == [] || s[0] in delim then [] else [s[0]] + Token(s[1..], delim)
  }

  /** What comes behind the delimiters at the front. */
  function Skipped(s: string, delim: string): (r: string)
    ensures |r| <= |s| && r == s[|s| - |r|..]
    ensures (forall i :: 0 <= i < |s| - |r| ==> s[i] in delim) && (r != [] ==> r[0] !in delim)
  {
    if s == [] || s[0] !in delim then s else Skipped(s[1..], delim)
  }

  /** What is left behind the first word and the delimiters that follow it. */
  function Rest(s: string, delim: string): (r: string)
    ensures s != [] ==> |r| < |s|
  {
    Skipped(s[|Token(s, delim)|..], delim)
  }

  function Words(s: string): seq<string>
    decreases |s|
  {
    if s == [] then [] else [Token(s, DELIM)] + Words(Rest(s, DELIM))
  }

  function Name(line: string): string {
    Token(line, FIRST_DELIM)
  }

  function Argv(line: string): seq<string> {
    [Name(line)] + Words(Rest(line, FIRST_DELIM))
  }

  /** string_to_argv accepts the line. */
  predicate Splits(line: string) {
    line != [] && |Argv(line)| <= MAX_ARGS
  }

  lemma {:induction false} CStringIs(b: seq<char>, n: nat)
    requires n < |b| && '\0' !in b[..n] && b[n] == '\0'
    ensures CString(b) == b[..n]
  {
    if n > 0 {
      assert b[0] in b[..n];
      assert b[1..][..n - 1] == b[..n][1..];
      CStringIs(b[1..], n - 1);
    }
  }

  lemma {:induction false} WordIs(s: string, delim: string, n: nat)
    requires n <= |s| && (forall i :: 0 <= i < n ==> s[i] !in delim) && (n < |s| ==> s[n] in delim)
    ensures Token(s, delim) == s[..n]
  {
    if n > 0 {
      WordIs(s[1..], delim, n - 1);
    }
  }

  lemma {:induction false} SkippedIs(s: string, delim: string, n: nat)
    requires n <= |s| && (forall i :: 0 <= i < n ==> s[i] in delim) && (n < |s| ==> s[n] !in delim)
    ensures Skipped(s, delim) == s[n..]
  {
    if n > 0 {
      SkippedIs(s[1..], delim, n - 1);
      assert s[1..][n - 1..] == s[n..];
    }
  }

  /** A cut line is a line of one word. */
  lemma CutAgain(line: string)
    ensures var name := Name(line);
            Name(name) == name && Argv(name) == [name] && (Splits(name) <==> name != [])
  {
    var name := Name(line);
    WordIs(name, FIRST_DELIM, |name|);
    SkippedIs([], FIRST_DELIM, 0);
    assert name[|name|..] == [];
  }

  /** Character `z` is the first NUL from `at` on. */
  predicate Ends(b: seq<char>, at: nat, z: nat) {
    at <= z < |b| && b[z] == '\0' && forall i :: at <= i < z ==> b[i] != '\0'
  }

  lemma LineAt(b: seq<char>, at: nat, z: nat)
    requires Ends(b, at, z)
    ensures CString(b[at..]) == b[at..z]
  {
    assert b[at..][..z - at] == b[at..z];
    CStringIs(b[at..], z - at);
  }

  lemma Terminated(b: seq<char>, at: nat)
    requires at < |b| && '\0' in b[at..]
    ensures Ends(b, at, at + |CString(b[at..])|)
  {
    var s := CString(b[at..]);
    assert |s| < |b[at..]|;
    forall i | at <= i < at + |s|
      ensures b[i] != '\0'
    {
      assert s[i - at] == b[i];
    }
  }

  lemma WordAt(b: seq<char>, at: nat, p: nat, z: nat, delim: string)
    requires at <= p <= z <= |b| && (forall i :: at <= i < p ==> b[i] !in delim) && (p < z ==> b[p] in delim)
    ensures Token(b[at..z], delim) == b[at..p]
  {
    WordIs(b[at..z], delim, p - at);
  }

  lemma SkippedAt(b: seq<char>, p: nat, save: nat, z: nat, delim: string)
    requires p <= save <= z <= |b| && (forall i :: p <= i < save ==> b[i] in delim) && (save < z ==> b[save] !in delim)
    ensures Skipped(b[p..z], delim) == b[save..z]
  {
    SkippedIs(b[p..z], delim, save - p);
  }

  /** A line of delimiters alone is one empty word, which is accepted. */
  lemma NoName(line: string)
    requires line != [] && forall i :: 0 <= i < |line| ==> line[i] in FIRST_DELIM
    ensures Argv(line) == [[]] && Splits(line)
  {
    WordIs(line, FIRST_DELIM, 0);
    SkippedIs(line, FIRST_DELIM, |line|);
    assert line[0..] == line && line[|line|..] == [];
  }

  /** The buffer `b` once the word from `at` to `p` is cut off: the delimiters up to `save` are overwritten. */
  lemma WordCut(was: seq<char>, b: seq<char>, at: nat, p: nat, save: nat, z: nat, delim: string)
    requires Ends(was, at, z) && at <= p <= save <= z && |b| == |was|
    requires (forall i :: at <= i < p ==> was[i] !in delim) && (p < z ==> was[p] in delim)
    requires (forall i :: p <= i < save ==> was[i] in delim && b[i] == '\0') && (save < z ==> was[save] !in delim)
    requires forall i :: 0 <= i < |b| && !(p <= i < save) ==> b[i] == was[i]
    ensures CString(b[at..]) == was[at..p] == Token(CString(was[at..]), delim)
    ensures CString(b[save..]) == Rest(CString(was[at..]), delim) && b[p] == '\0'
  {
    hide CString, Token, Skipped;
    LineAt(was, at, z);
    WordAt(was, at, p, z, delim);
    SkippedAt(was, p, save, z, delim);
    DropTake(was, at, p, z);
    LineAt(b, at, p);
    LineAt(b, save, z);
    SameSlice(was, b, at, p);
    SameSlice(was, b, save, z);
  }

  lemma DropTake(b: seq<char>, at: nat, p: nat, z: nat)
    requires at <= p <= z <= |b|
    ensures b[at..z][p - at..] == b[p..z]
  {
  }

  lemma SameSlice(b: seq<char>, c: seq<char>, lo: nat, hi: nat)
    requires lo <= hi <= |b| == |c| && forall i :: lo <= i < hi ==> b[i] == c[i]
    ensures b[lo..hi] == c[lo..hi]
  {
  }

  /** strtok_r, from `at` on. */
  method Strtok(buf: array<char>, at: nat, delim: string) returns (token: Option<nat>, save: nat)
    requires at < buf.Length && '\0' in buf[at..] && '\0' !in delim
    modifies buf
    ensures at <= save < buf.Length && '\0' in buf[save..] && buf[..at] == old(buf[..at])
    ensures token == None <==> old(CString(buf[at..])) == []
    ensures token == None ==> save == at && buf[..] == old(buf[..])
    ensures token.Some? ==> token.value == at && old(buf[at]) != '\0'
    ensures token.Some? ==> CString(buf[at..]) == old(Token(CString(buf[at..]), delim))
    ensures token.Some? ==> CString(buf[save..]) == old(Rest(CString(buf[at..]), delim))
    ensures token.Some? ==> at + |CString(buf[at..])| <= save && buf[at + |CString(buf[at..])|] == '\0'
  {
    hide CString, Token, Skipped, Rest;
    ghost var was := buf[..];
    ghost var z := at + |CString(buf[at..])|;
    assert was[at..] == buf[at..];
    Terminated(was, at);
    save := at;
    if buf[at] == '\0' {
      return None, save;
    }
    var p := SkipWord(buf, at, z, delim);
    save := CutGap(buf, p, z, delim);
    WordCut(was, buf[..], at, p, save, z, delim);
    assert buf[at..] == buf[..][at..] && buf[save..] == buf[..][save..] && buf[save..][z - save] == '\0';
    token := Some(at);
  }

  method SkipWord(buf: array<char>, at: nat, ghost z: nat, delim: string) returns (p: nat)
    requires Ends(buf[..], at, z)
    ensures at <= p <= z && (forall i :: at <= i < p ==> buf[i] !in delim) && (p < z ==> buf[p] in delim)
  {
    p := at;
    while buf[p] != '\0' && buf[p] !in delim
      invariant at <= p <= z && forall i :: at <= i < p ==> buf[i] !in delim
      decreases z - p
    {
      p := p + 1;
    }
  }

  method CutGap(buf: array<char>, p: nat, ghost z: nat, delim: string) returns (save: nat)
    requires Ends(buf[..], p, z)
    modifies buf
    ensures p <= save <= z && (save < z ==> old(buf[save]) !in delim)
    ensures forall i :: p <= i < save ==> old(buf[i]) in delim && buf[i] == '\0'
    ensures forall i :: 0 <= i < buf.Length && !(p <= i < save) ==> buf[i] == old(buf[i])
  {
    save := p;
    while buf[save] != '\0' && buf[save] in delim
      invariant p <= save <= z
      invariant forall i :: p <= i < save ==> old(buf[i]) in delim && buf[i] == '\0'
      invariant forall i :: 0 <= i < buf.Length && !(p <= i < save) ==> buf[i] == old(buf[i])
      decreases z - save
    {
      buf[save] := '\0';
      save := save + 1;
    }
  }

  /** A word stands at `p` and ends before `save`. */
  predicate Held(b: seq<char>, p: nat, w: string, save: nat) {
    && p + |w| < |b| && p + |w| <= save && '\0' !in w
    && b[p..p + |w|] == w && b[p + |w|] == '\0'
  }

  lemma HeldReads(b: seq<char>, p: nat, w: string, save: nat)
    requires Held(b, p, w, save)
    ensures CString(b[p..]) == w
  {
    assert b[p..][..|w|] == w;
    CStringIs(b[p..], |w|);
  }

  lemma SameFront(b: seq<char>, c: seq<char>, at: nat)
    requires at <= |b| == |c| && b[..at] == c[..at]
    ensures forall i :: 0 <= i < at ==> b[i] == c[i]
  {
    forall i | 0 <= i < at
      ensures b[i] == c[i]
    {
      assert b[i] == b[..at][i] && c[i] == c[..at][i];
    }
  }

  /** Cutting the next word leaves the words before it alone. */
  lemma HeldKept(b: seq<char>, c: seq<char>, p: nat, w: string, at: nat, save: nat)
    requires Held(b, p, w, at) && at <= save && |b| == |c| && at < |b|
    requires b == c || (b[at] != '\0' && b[..at] == c[..at])
    ensures Held(c, p, w, save)
  {
    if b != c {
      var n := p + |w|;
      assert n < at;
      SameFront(b, c, at);
      assert c[p..n] == b[p..n];
    }
  }

  predicate AllHeld(b: seq<char>, argv: seq<nat>, words: seq<string>, save: nat) {
    |argv| == |words| && forall i :: 0 <= i < |argv| ==> Held(b, argv[i], words[i], save)
  }

  lemma AllKept(b: seq<char>, c: seq<char>, argv: seq<nat>, words: seq<string>, at: nat, save: nat)
    requires AllHeld(b, argv, words, at) && at <= save && |b| == |c| && at < |b|
    requires b == c || (b[at] != '\0' && b[..at] == c[..at])
    ensures AllHeld(c, argv, words, save)
  {
    forall i | 0 <= i < |argv|
      ensures Held(c, argv[i], words[i], save)
    {
      HeldKept(b, c, argv[i], words[i], at, save);
    }
  }

  /** One more token behind those held; it ends where the next one is looked for. */
  method NextToken(buf: array<char>, at: nat, delim: string, ghost argv: seq<nat>, ghost words: seq<string>)
    returns (token: Option<nat>, save: nat)
    requires at < buf.Length && '\0' in buf[at..] && '\0' !in delim && AllHeld(buf[..], argv, words, at)
    modifies buf
    ensures at <= save < buf.Length && '\0' in buf[save..]
    ensures token == None <==> old(CString(buf[at..])) == []
    ensures AllHeld(buf[..], argv, words, save) && (token == None ==> save == at && buf[..] == old(buf[..]))
    ensures token.Some? ==>
              && AllHeld(buf[..], argv + [token.value], words + [old(Token(CString(buf[at..]), delim))], save)
              && CString(buf[save..]) == old(Rest(CString(buf[at..]), delim)) && token.value == at
  {
    hide Held, AllHeld, CString, Token, Rest;
    ghost var was := buf[..];
    assert was[at..] == buf[at..] && was[..at] == buf[..at];
    token, save := Strtok(buf, at, delim);
    ghost var now := buf[..];
    assert now[at..] == buf[at..] && now[..at] == buf[..at];
    AllKept(was, now, argv, words, at, save);
    if token.Some? {
      HeldHere(now, at, save);
      AllHeldMore(now, argv, words, at, CString(now[at..]), save);
    }
  }

  lemma AllHeldMore(b: seq<char>, argv: seq<nat>, words: seq<string>, p: nat, w: string, save: nat)
    requires AllHeld(b, argv, words, save) && Held(b, p, w, save)
    ensures AllHeld(b, argv + [p], words + [w], save)
  {
  }

  lemma HeldHere(b: seq<char>, at: nat, save: nat)
    requires at < |b| && at + |CString(b[at..])| < |b| && at + |CString(b[at..])| <= save
    ensures Held(b, at, CString(b[at..]), save)
  {
    var w := CString(b[at..]);
    assert b[at..at + |w|] == b[at..][..|w|];
    assert b[at + |w|] == b[at..][|w|];
  }

  /** The words that follow, up to the size of the argument list; `ok` when none are left. */
  method TakeWords(buf: array<char>, at: nat, ghost words: seq<string>)
    returns (ok: bool, argv: seq<nat>, ghost save: nat)
    requires at < buf.Length && '\0' in buf[at..] && words != [] && AllHeld(buf[..], [0], words[..1], at)
    requires Words(CString(buf[at..])) == words[1..]
    modifies buf
    ensures 1 <= |argv| <= |words| && argv[0] == 0 && AllHeld(buf[..], argv, words[..|argv|], save)
    ensures ok ==> |argv| == |words|
    ensures ok <==> |words| <= MAX_ARGS
  {
    hide Held, AllHeld, CString, Token, Rest;
    argv := [0];
    var p: nat, more := at, true;
    while |argv| < MAX_ARGS && more
      invariant 1 <= |argv| <= MAX_ARGS && argv[0] == 0 && p < buf.Length && '\0' in buf[p..]
      invariant |argv| <= |words| && AllHeld(buf[..], argv, words[..|argv|], p)
      invariant Words(CString(buf[p..])) == words[|argv|..]
      invariant !more ==> |argv| == |words|
      decreases MAX_ARGS - |argv|, more
    {
      WordsStep(words, |argv|, CString(buf[p..]));
      var token;
      token, p := NextToken(buf, p, DELIM, argv, words[..|argv|]);
      if token == None {
        more := false;
      } else {
        argv := argv + [token.value];
      }
    }
    ok := true;
    if more {
      WordsStep(words, |argv|, CString(buf[p..]));
      var extra;
      extra, p := NextToken(buf, p, DELIM, argv, words[..|argv|]);
      ok := extra == None;
    }
    save := p;
  }

  lemma WordsStep(words: seq<string>, n: nat, left: string)
    requires n <= |words| && Words(left) == words[n..]
    ensures left == [] <==> n == |words|
    ensures left != [] ==>
              && words[n] == Token(left, DELIM) && Words(Rest(left, DELIM)) == words[n + 1..]
              && words[..n] + [Token(left, DELIM)] == words[..n + 1]
  {
    hide Token, Rest;
    if left != [] {
      assert words[n..][1..] == words[n + 1..];
      assert Words(left)[1..] == Words(Rest(left, DELIM));
    }
  }

  /** string_to_argv: the line is cut to its name, and the pointers lead to the words of the argument list. */
  method StringToArgv(buf: array<char>) returns (ok: bool, argv: seq<nat>)
    requires '\0' in buf[..]
    modifies buf
    ensures '\0' in buf[..] && CString(buf[..]) == Name(old(CString(buf[..])))
    ensures ok <==> Splits(old(CString(buf[..])))
    ensures ok ==> |argv| == |Argv(old(CString(buf[..])))|
    ensures ok ==>
              forall i :: 0 <= i < |argv| ==>
                argv[i] < buf.Length && CString(buf[argv[i]..]) == Argv(old(CString(buf[..])))[i]
  {
    hide Held, AllHeld, CString, Token, Rest, Words;
    ghost var line := CString(buf[..]);
    ghost var words := Argv(line);
    argv := [];
    assert buf[0..] == buf[..];
    NoneHeld(buf[..]);
    var first, save := NextToken(buf, 0, FIRST_DELIM, [], []);
    if first == None {
      EmptyLine();
      return false, argv;
    }
    assert [] + [first.value] == [0] && [] + [Name(line)] == words[..1] && words[1..] == Words(Rest(line, FIRST_DELIM));
    ghost var end;
    ok, argv, end := TakeWords(buf, save, words);
    ArgvRead(buf[..], argv, words[..|argv|], end);
    assert words[..|words|] == words && words[..|argv|][0] == Name(line);
    assert buf[0..] == buf[..];
  }

  lemma NoneHeld(b: seq<char>)
    ensures AllHeld(b, [], [], 0)
  {
  }

  lemma EmptyLine()
    ensures Name([]) == [] && !Splits([])
  {
  }

  lemma ArgvRead(b: seq<char>, argv: seq<nat>, words: seq<string>, save: nat)
    requires AllHeld(b, argv, words, save)
    ensures |argv| == |words| && (argv != [] ==> '\0' in b)
    ensures forall i :: 0 <= i < |argv| ==> argv[i] < |b| && CString(b[argv[i]..]) == words[i]
  {
    if argv != [] {
      assert b[argv[0] + |words[0]|] == '\0';
    }
    forall i | 0 <= i < |argv|
      ensures argv[i] < |b| && CString(b[argv[i]..]) == words[i]
    {
      HeldReads(b, argv[i], words[i], save);
    }
  }

  // ----- what a host writes is what a handler gets

  predicate Plain(w: string) {
    w != [] && ' ' !in w
  }

  predicate AllPlain(ws: seq<string>) {
    forall i :: 0 <= i < |ws| ==> Plain(ws[i])
  }

  function Joined(ws: seq<string>): string {
    if ws == [] then [] else if |ws| == 1 then ws[0] else ws[0] + (" " + Joined(ws[1..]))
  }

  /** A word, the delimiters behind it and what follows. */
  lemma Split(w: string, gap: string, rest: string, delim: string)
    requires (forall i :: 0 <= i < |w| ==> w[i] !in delim) && (forall i :: 0 <= i < |gap| ==> gap[i] in delim)
    requires gap == [] ==> rest == []
    requires rest != [] ==> rest[0] !in delim
    ensures Token(w + gap + rest, delim) == w && Rest(w + gap + rest, delim) == rest
  {
    hide Token, Skipped;
    var left := gap + rest;
    assert w + gap + rest == w + left && (w + left)[|w|..] == left;
    WordOf(w, left, delim);
    SkippedOf(gap, rest, delim);
  }

  lemma {:induction false} WordOf(w: string, left: string, delim: string)
    requires (forall i :: 0 <= i < |w| ==> w[i] !in delim) && (left != [] ==> left[0] in delim)
    ensures Token(w + left, delim) == w
  {
    if w != [] {
      assert (w + left)[1..] == w[1..] + left;
      WordOf(w[1..], left, delim);
    }
  }

  lemma {:induction false} SkippedOf(gap: string, rest: string, delim: string)
    requires (forall i :: 0 <= i < |gap| ==> gap[i] in delim) && (rest != [] ==> rest[0] !in delim)
    ensures Skipped(gap + rest, delim) == rest
  {
    if gap == [] {
      assert gap + rest == rest;
    } else {
      assert (gap + rest)[1..] == gap[1..] + rest;
      SkippedOf(gap[1..], rest, delim);
    }
  }

  lemma {:induction false} WordsOfJoined(ws: seq<string>)
    requires AllPlain(ws)
    ensures Words(Joined(ws)) == ws && (ws != [] ==> Plain(ws[0]) && Joined(ws) != [] && Joined(ws)[0] == ws[0][0])
  {
    hide Token, Rest;
    if ws != [] {
      var w, rest := ws[0], Joined(ws[1..]);
      assert forall i :: 0 <= i < |w| ==> w[i] in w && w[i] !in DELIM;
      WordsOfJoined(ws[1..]);
      Split(w, if |ws| == 1 then "" else " ", rest, DELIM);
      assert Joined(ws) == w + (if |ws| == 1 then "" else " ") + rest;
      assert ws == [w] + ws[1..];
    }
  }

  /** A name, a colon and plain words come back as the argument list. */
  lemma ArgvRoundTrip(name: string, ws: seq<string>)
    requires forall i :: 0 <= i < |name| ==> name[i] !in FIRST_DELIM
    requires AllPlain(ws) && (ws != [] && ws[0] != [] ==> ws[0][0] !in FIRST_DELIM)
    ensures Argv(name + ":" + Joined(ws)) == [name] + ws
  {
    hide Token, Rest, Words, AllPlain, Joined;
    WordsOfJoined(ws);
    if ws == [] {
      NothingJoined();
    }
    Split(name, ":", Joined(ws), FIRST_DELIM);
  }

  lemma NothingJoined()
    ensures Joined([]) == []
  {
  }
}
