/** The crash event menu across boots (kernelflinger.c, libkernelflinger/vars.c). */
module Watchdog {
  import opened Bytes

  /** A boot: whether it follows a watchdog reset or a panic, and what the clock says, in seconds. */
  datatype Boot = Boot(crash: bool, now: int)

  const WATCHDOG_DELAY := 600

  /** A boot too far from the first of a streak. */
  predicate Late(first: Boot, b: Boot) {
    b.now < first.now || b.now - first.now > WATCHDOG_DELAY
  }

  /** Where the streak that the last boot of `h` belongs to begins, given where the one before it stood. */
  function Joined(h: seq<Boot>, k: nat): (s: nat)
    requires h != [] && k < |h|
    ensures s == k || s == |h| - 1
  {
    if k < |h| - 1 && Late(h[k], h[|h| - 1]) then |h| - 1 else k
  }

  /** Where the streak of crashes still counted after the boots `h` begins. */
  function Start(h: seq<Boot>, max: nat): (k: nat)
    ensures k <= |h|
    decreases |h|, 1
  {
    if h == [] then 0
    else
      var n := |h| - 1;
      if !h[n].crash || Menu(h, max) then |h| else Joined(h, Start(h[..n], max))
  }

  /** The last boot of `h` completes a streak of `max` + 1 crashes. */
  predicate Menu(h: seq<Boot>, max: nat)
    requires h != []
    decreases |h|, 0
  {
    var n := |h| - 1;
    h[n].crash && n - Joined(h, Start(h[..n], max)) == max
  }

  /** Boots `f` to `j` are crashes within the delay after the first of them. */
  predicate Window(h: seq<Boot>, f: nat, j: nat)
    requires f <= j <= |h|
  {
    forall i :: f <= i < j ==> h[i].crash && !Late(h[f], h[i])
  }

  /** The count starts anew at boot `f`: it is the first, or follows another kind of boot or a menu, or comes too
      late. */
  predicate Opens(h: seq<Boot>, f: nat, max: nat)
    requires f < |h|
  {
    f == 0 || !h[f - 1].crash || Menu(h[..f], max) || Late(h[Start(h[..f], max)], h[f])
  }

  /** The counted boots are crashes within the delay, and no more than `max` of them. */
  lemma {:induction false} StreakShape(h: seq<Boot>, max: nat)
    ensures |h| - Start(h, max) <= max && Window(h, Start(h, max), |h|)
  {
    if h != [] {
      StreakShape(h[..|h| - 1], max);
    }
  }

  lemma Prefixes(h: seq<Boot>, f: nat, j: nat)
    requires f <= j <= |h|
    ensures h[..j][..f] == h[..f]
  {
  }

  /** A streak begins where the count starts anew. */
  lemma {:induction false} StreakOpens(h: seq<Boot>, j: nat, max: nat)
    requires j <= |h|
    ensures Start(h[..j], max) < j ==> Opens(h, Start(h[..j], max), max)
  {
    if j > 0 && Start(h[..j], max) < j {
      Prefixes(h, j - 1, j);
      StreakOpens(h, j - 1, max);
      if Start(h[..j], max) == j - 1 {
        OpensWhole(h, j - 1, max);
      }
    }
  }

  /** A boot joins the streak before it, or opens one. */
  lemma OpensWhole(h: seq<Boot>, n: nat, max: nat)
    requires n < |h| && Joined(h[..n + 1], Start(h[..n], max)) == n
    ensures Opens(h, n, max)
  {
    if n > 0 && h[n - 1].crash && !Menu(h[..n], max) {
      Prefixes(h, n - 1, n);
      assert Start(h[..n], max) == Joined(h[..n], Start(h[..n - 1], max)) < n;
    }
  }

  /** From where it opens, a streak goes on as long as its boots are crashes in time and no menu ends it. */
  lemma {:induction false} StreakGoesOn(h: seq<Boot>, f: nat, n: nat, max: nat)
    requires f <= n < |h| && n - f <= max && Opens(h, f, max) && Window(h, f, n + 1)
    ensures Joined(h[..n + 1], Start(h[..n], max)) == f
  {
    if n == f {
      if f > 0 {
        Prefixes(h, f - 1, f);
      }
    } else {
      StreakGoesOn(h, f, n - 1, max);
      Prefixes(h, n - 1, n);
      assert h[..n][n - 1] == h[n - 1];
    }
  }

  /**
   * The menu appears at the last boot of `h` exactly when the last `max` + 1 boots are crashes within the delay
   * after the first of them, and the count starts anew at that first one.
   */
  lemma MenuExact(h: seq<Boot>, max: nat)
    requires h != []
    ensures Menu(h, max) <==> max < |h| && Window(h, |h| - 1 - max, |h|) && Opens(h, |h| - 1 - max, max)
  {
    var n := |h| - 1;
    assert h[..n + 1] == h;
    if Menu(h, max) {
      MenuMeans(h, max);
    } else if max <= n && Window(h, n - max, |h|) && Opens(h, n - max, max) {
      StreakGoesOn(h, n - max, n, max);
    }
  }

  /** A menu ends a streak of that length. */
  lemma MenuMeans(h: seq<Boot>, max: nat)
    requires h != [] && Menu(h, max)
    ensures max < |h| && Window(h, |h| - 1 - max, |h|) && Opens(h, |h| - 1 - max, max)
  {
    var n := |h| - 1;
    assert h[..n + 1] == h;
    var s := Joined(h, Start(h[..n], max));
    if s == n {
      OpensWhole(h, n, max);
    } else {
      hide Start, Menu, Opens;
      StreakShape(h[..n], max);
      StreakOpens(h, n, max);
    }
  }

  /** Crashes in a row, with a clock that goes forward and stays within the delay: the menu comes in 2 * max + 1
      boots. */
  lemma MenuComes(h: seq<Boot>, a: nat, max: nat)
    requires |h| == a + 2 * max + 1
    requires forall i :: a <= i < |h| ==> h[i].crash
    requires forall i, j :: a <= i <= j < |h| ==> h[i].now <= h[j].now <= h[i].now + WATCHDOG_DELAY
    ensures exists j :: a < j <= |h| && Menu(h[..j], max)
  {
    if forall j :: a < j <= |h| ==> !Menu(h[..j], max) {
      NoMenu(h, |h| - 1, max);
      StreakShape(h, max);
      assert h[..|h|] == h;
      var f := Start(h, max);
      StreakOpens(h, |h|, max);
      NoMenu(h, f - 1, max);
      var k := Start(h[..f], max);
      StreakShape(h[..f], max);
      assert false;
    }
  }

  /** A crash without a menu is counted. */
  lemma NoMenu(h: seq<Boot>, n: nat, max: nat)
    requires n < |h| && h[n].crash && !Menu(h[..n + 1], max)
    ensures Start(h[..n + 1], max) <= n
  {
  }

  datatype Target = NormalBoot | CrashMenu | PowerOff

  /**
   * What a boot meets: everything works, the variables cannot be read, the clock cannot be read, the reason of the
   * reboot is a shutdown (looked at in user builds only), or the variables cannot be written.
   */
  datatype Luck = AllWell | NoStatus | NoTime | Shutdown | NoWrite

  /** The boot is counted: the clock and the reason matter after a crash only. */
  predicate Counted(b: Boot, luck: Luck) {
    luck == AllWell || (!b.crash && (luck == NoTime || luck == Shutdown))
  }

  /** The boots that are counted. */
  function Past(h: seq<Boot>, lucks: nat -> Luck): seq<Boot> {
    if h == [] then []
    else
      var n := |h| - 1;
      Past(h[..n], lucks) + if Counted(h[n], lucks(n)) then [h[n]] else []
  }

  /**
   * What boot `i` shows: the menu exactly when it completes a streak of the boots counted, unless it is not counted
   * itself or the counter wraps.
   */
  predicate Right(h: seq<Boot>, lucks: nat -> Luck, max: byte, i: nat, t: Target)
    requires i < |h|
  {
    if max == 255 then t != CrashMenu
    else
      && (t == CrashMenu ==> Menu(Past(h[..i], lucks) + [h[i]], max))
      && (Counted(h[i], lucks(i)) && Menu(Past(h[..i], lucks) + [h[i]], max) ==> t == CrashMenu)
  }

  /** The two variables kept across boots; a counter of zero stands for no variable. */
  class Nvram {
    var counter: byte
    var timeRef: int

    /** The variables after the boots `h`. */
    ghost predicate Counts(h: seq<Boot>, max: nat)
      reads this
    {
      counter == |h| - Start(h, max) && (counter > 0 ==> timeRef == h[Start(h, max)].now)
    }

    constructor ()
      ensures forall max: nat :: Counts([], max)
    {
      counter, timeRef := 0, 0;
    }

    /** reset_watchdog_status. */
    method ResetStatus(writable: bool)
      modifies this
      ensures if writable then counter == 0 else counter == old(counter) && timeRef == old(timeRef)
    {
      if writable {
        counter, timeRef := 0, 0;
      }
    }

    /** check_watchdog, with the crash event menu enabled or not; the counter is a byte. */
    method CheckWatchdog(enabled: bool, b: Boot, luck: Luck, max: byte, ghost h: seq<Boot>) returns (r: Target)
      modifies this
      ensures !enabled || !Counted(b, luck) ==> counter == old(counter) && timeRef == old(timeRef)
      ensures !enabled ==> r == NormalBoot
      ensures r == PowerOff <==> enabled && b.crash && luck == Shutdown
      ensures enabled && max < 255 && old(Counts(h, max)) && Counted(b, luck) ==>
                Counts(h + [b], max) && (r == CrashMenu <==> Menu(h + [b], max))
      ensures enabled && max < 255 && old(Counts(h, max)) && r == CrashMenu ==>
                Menu(h + [b], max) && (luck == AllWell || luck == NoWrite)
      ensures max == 255 ==> r != CrashMenu
    {
      if !enabled || luck == NoStatus {
        return NormalBoot;
      }
      ghost var more := h + [b];
      assert more[..|more| - 1] == h;
      StreakShape(h, max);
      if !b.crash {
        if counter != 0 {
          ResetStatus(luck != NoWrite);
        }
        return NormalBoot;
      }
      if luck == Shutdown {
        return PowerOff;
      }
      if luck == NoTime {
        return NormalBoot;
      }
      var count: int := counter;
      if count > 0 {
        if b.now < timeRef || b.now - timeRef > WATCHDOG_DELAY {
          count := 0;
        }
      }
      if count == 0 {
        if luck == NoWrite {
          return NormalBoot;
        }
        timeRef := b.now;
      }
      count := (count + 1) % 256;
      if count <= max {
        if luck != NoWrite {
          counter := count;
        }
        return NormalBoot;
      }
      ResetStatus(luck != NoWrite);
      r := CrashMenu;
    }

    /** Any sequence of boots with the menu enabled, whatever they meet. */
    method Boots(h: seq<Boot>, lucks: nat -> Luck, max: byte) returns (rs: seq<Target>)
      requires Counts([], max)
      modifies this
      ensures |rs| == |h|
      ensures forall i :: 0 <= i < |h| ==> Right(h, lucks, max, i, rs[i])
    {
      rs := [];
      for i := 0 to |h|
        invariant |rs| == i && (max < 255 ==> Counts(Past(h[..i], lucks), max))
        invariant forall k :: 0 <= k < i ==> Right(h, lucks, max, k, rs[k])
      {
        hide Menu, Start, Past, Counted;
        PastStep(h, lucks, i);
        var r := CheckWatchdog(true, h[i], lucks(i), max, Past(h[..i], lucks));
        rs := rs + [r];
      }
    }
  }

  lemma PastStep(h: seq<Boot>, lucks: nat -> Luck, i: nat)
    requires i < |h|
    ensures Past(h[..i + 1], lucks)
         == if Counted(h[i], lucks(i)) then Past(h[..i], lucks) + [h[i]] else Past(h[..i], lucks)
  {
    assert h[..i + 1][..i] == h[..i];
  }

  /** When nothing goes wrong every boot is counted. */
  lemma {:induction false} PastAll(h: seq<Boot>, lucks: nat -> Luck)
    requires forall i :: 0 <= i < |h| ==> lucks(i) == AllWell
    ensures Past(h, lucks) == h
  {
    if h != [] {
      PastAll(h[..|h| - 1], lucks);
    }
  }

  /** With a maximum of 255, 256 crashes at one moment should bring the menu and do not: the counter wraps to zero. */
  method WrapExample() returns (rs: seq<Target>)
    ensures var h := seq(256, _ => Boot(true, 0)); Menu(h, 255)
    ensures |rs| == 256 && CrashMenu !in rs
  {
    var h := seq(256, _ => Boot(true, 0));
    MenuExact(h, 255);
    var nvram := new Nvram();
    rs := nvram.Boots(h, _ => AllWell, 255);
    assert forall i :: 0 <= i < 256 ==> rs[i] != CrashMenu;
  }
}
