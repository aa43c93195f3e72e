/** Registration of load options in the UEFI boot manager (libfastboot/bootmgr.c). */
module BootOrder {
  import opened Bytes

  /** `Overrun` ends the model: more is written than was allocated. */
  datatype Status = Success | NotFound | InvalidParameter | BadBufferSize | DeviceError | Overrun

  /** A Boot#### variable: its number and the description it holds. */
  datatype LoadOption = LoadOption(number: u16, description: string)

  /** The number of the first option with a description, in the order of the firmware. */
  function First(options: seq<LoadOption>, description: string): Option<u16> {
    if options == [] then None
    else if options[0].description == description then Some(options[0].number)
    else First(options[1..], description)
  }

  predicate Used(options: seq<LoadOption>, number: int) {
    exists k :: 0 <= k < |options| && options[k].number == number
  }

  predicate Unique(options: seq<LoadOption>) {
    forall i, j :: 0 <= i < j < |options| ==> options[i].number != options[j].number
  }

  predicate Distinct<T(==)>(s: seq<T>) {
    forall i, j :: 0 <= i < j < |s| ==> s[i] != s[j]
  }

  /** The old entries that are not registered, in order. */
  function Keep(prior: seq<u16>, entries: seq<u16>): (r: seq<u16>)
    ensures |r| + Hits(prior, entries) == |prior|
  {
    if prior == [] then []
    else
      var n := |prior| - 1;
      Keep(prior[..n], entries) + if prior[n] in entries then [] else [prior[n]]
  }

  /** How many old entries are registered. */
  function Hits(prior: seq<u16>, entries: seq<u16>): nat {
    if prior == [] then 0
    else
      var n := |prior| - 1;
      Hits(prior[..n], entries) + if prior[n] in entries then 1 else 0
  }

  /** The boot order meant: the registered entries, then the others as they were. */
  function Merge(entries: seq<u16>, prior: seq<u16>): seq<u16> {
    entries + Keep(prior, entries)
  }

  function Times(s: seq<u16>, x: u16): nat {
    if s == [] then 0 else Times(s[..|s| - 1], x) + if s[|s| - 1] == x then 1 else 0
  }

  /** How many entries stand in the old order. */
  function Present(entries: seq<u16>, prior: seq<u16>): (n: nat)
    ensures n <= |entries|
  {
    if entries == [] then 0
    else Present(entries[..|entries| - 1], prior) + if entries[|entries| - 1] in prior then 1 else 0
  }

  /** No registered entry stands twice in the old order. */
  predicate AtMostOnce(entries: seq<u16>, prior: seq<u16>) {
    forall i :: 0 <= i < |entries| ==> Times(prior, entries[i]) <= 1
  }

  lemma {:induction false} TimesMember(s: seq<u16>, x: u16)
    ensures Times(s, x) > 0 <==> x in s
  {
    if s != [] {
      var n := |s| - 1;
      TimesMember(s[..n], x);
      assert s == s[..n] + [s[n]];
    }
  }

  lemma {:induction false} HitsMore(prior: seq<u16>, entries: seq<u16>, e: u16)
    requires e !in entries
    ensures Hits(prior, entries + [e]) == Hits(prior, entries) + Times(prior, e)
  {
    if prior != [] {
      HitsMore(prior[..|prior| - 1], entries, e);
    }
  }

  lemma {:induction false} HitsNone(prior: seq<u16>)
    ensures Hits(prior, []) == 0
  {
    if prior != [] {
      HitsNone(prior[..|prior| - 1]);
    }
  }

  /** The old order holds each present entry at least once, and just once exactly when the counts agree. */
  lemma {:induction false} Counts(entries: seq<u16>, prior: seq<u16>)
    requires Distinct(entries)
    ensures Present(entries, prior) <= Hits(prior, entries)
    ensures Present(entries, prior) == Hits(prior, entries) <==> AtMostOnce(entries, prior)
  {
    if entries == [] {
      HitsNone(prior);
    } else {
      var n := |entries| - 1;
      var init, e := entries[..n], entries[n];
      assert entries == init + [e];
      Counts(init, prior);
      HitsMore(prior, init, e);
      TimesMember(prior, e);
      assert AtMostOnce(entries, prior) <==> AtMostOnce(init, prior) && Times(prior, e) <= 1;
    }
  }

  /** What is computed for the merge does not even hold the entries. */
  predicate NoRoom(entries: seq<u16>, prior: seq<u16>) {
    !(entries <= prior) && Present(entries, prior) > |prior|
  }

  /** It holds the entries, but not the merge. */
  predicate Outgrown(entries: seq<u16>, prior: seq<u16>) {
    !(entries <= prior) && Hits(prior, entries) < Present(entries, prior) <= |prior|
  }

  lemma HitsBound(entries: seq<u16>, prior: seq<u16>)
    ensures Hits(prior, entries) <= |prior|
  {
    assert |Keep(prior, entries)| + Hits(prior, entries) == |prior|;
  }

  /** The boot manager variables: the load options in the order of the firmware, and BootOrder. */
  class BootManager {
    var options: seq<LoadOption>
    var order: seq<u16>

    /** find_free_entry. */
    method FindFree() returns (r: Option<u16>)
      ensures r == None <==> forall i :: 0 <= i <= 0xFFFF ==> Used(options, i)
      ensures r.Some? ==> !Used(options, r.value) && forall i :: 0 <= i < r.value ==> Used(options, i)
    {
      var i := 0;
      while i <= 0xFFFF
        invariant 0 <= i <= 0x1_0000 && forall k :: 0 <= k < i ==> Used(options, k)
      {
        if !Used(options, i) {
          return Some(i);
        }
        i := i + 1;
      }
      r := None;
    }

    /** find_load_option_entry. */
    method FindEntry(description: string) returns (r: Option<u16>)
      ensures r == First(options, description)
    {
      for i := 0 to |options|
        invariant First(options, description) == First(options[i..], description)
      {
        assert options[i..][1..] == options[i + 1..];
        if options[i].description == description {
          return Some(options[i].number);
        }
      }
      r := None;
    }

    /** is_in_set. */
    method IsInSet(value: u16, values: seq<u16>) returns (r: bool)
      ensures r <==> value in values
    {
      for i := 0 to |values|
        invariant value !in values[..i]
      {
        if value == values[i] {
          return true;
        }
        assert values[..i + 1] == values[..i] + [values[i]];
      }
      assert values[..|values|] == values;
      r := false;
    }

    method CountMissing(entries: seq<u16>) returns (missing: nat)
      ensures missing == |entries| - Present(entries, order)
    {
      missing := |entries|;
      for i := 0 to |entries|
        invariant missing == |entries| - Present(entries[..i], order) && Present(entries[..i], order) <= i
      {
        assert entries[..i + 1][..i] == entries[..i];
        var found := IsInSet(entries[i], order);
        if found {
          missing := missing - 1;
        }
      }
      assert entries[..|entries|] == entries;
    }

    /** The merge: the entries, then the old ones that are not among them; `pool` is what was allocated. */
    method Fill(entries: seq<u16>, pool: array<u16>)
      requires pool.Length == |order| + |entries| - Present(entries, order)
      requires Present(entries, order) <= Hits(order, entries)
      modifies pool
      ensures Merge(entries, order) <= pool[..]
    {
      hide Present, Hits;
      assert |Keep(order, entries)| + Hits(order, entries) == |order|;
      forall i | 0 <= i < |entries| {
        pool[i] := entries[i];
      }
      AppendKept(entries, pool);
    }

    method AppendKept(entries: seq<u16>, pool: array<u16>)
      requires |entries| + |Keep(order, entries)| <= pool.Length && pool[..|entries|] == entries
      modifies pool
      ensures Merge(entries, order) <= pool[..]
    {
      var j := |entries|;
      ghost var kept: seq<u16> := [];
      for i := 0 to |order|
        invariant kept == Keep(order[..i], entries) && j == |entries| + |kept| <= pool.Length
        invariant pool[..j] == entries + kept
      {
        hide Keep;
        KeepStep(order, entries, i);
        KeepPrefix(order, entries, i);
        var found := IsInSet(order[i], entries);
        if found {
          continue;
        }
        Push(pool, j, order[i]);
        Associate(entries, kept, [order[i]]);
        kept := kept + [order[i]];
        j := j + 1;
      }
      assert order[..|order|] == order;
    }

    method Push(pool: array<u16>, j: nat, x: u16)
      requires j < pool.Length
      modifies pool
      ensures pool[..j + 1] == old(pool[..j]) + [x]
    {
      pool[j] := x;
    }

    /** install_in_boot_order: `stale` is what the allocated memory holds. */
    method Install(entries: seq<u16>, stale: nat -> u16) returns (r: Status)
      modifies `order
      ensures r == Success || r == BadBufferSize || r == Overrun
      ensures r == BadBufferSize <==> NoRoom(entries, old(order))
      ensures r == Overrun <==> Outgrown(entries, old(order))
      ensures r == Success ==> entries <= order
      ensures r == Success ==>
                (order == Merge(entries, old(order)) <==> Present(entries, old(order)) == Hits(old(order), entries))
      ensures r != Success || entries <= old(order) ==> order == old(order)
      ensures r == Success && !(entries <= old(order)) ==>
                && Merge(entries, old(order)) <= order
                && |order| == old(|order|) + |entries| - Present(entries, old(order))
    {
      hide Present, Hits, Keep;
      assert |Keep(order, entries)| + Hits(order, entries) == |order|;
      if entries <= order {
        Already(entries, order);
        return Success;
      }
      var missing := CountMissing(entries);
      var pool := new u16[|order| + missing](i requires i >= 0 => stale(i));
      if |entries| > pool.Length {
        return BadBufferSize;
      }
      if Hits(order, entries) < Present(entries, order) {
        return Overrun;
      }
      Fill(entries, pool);
      order := pool[..];
      r := Success;
    }

    /** create_load_option: an option is rewritten in place or added. */
    method Create(number: u16, description: string)
      requires Unique(options)
      modifies `options
      ensures options == Created(old(options), number, description)
    {
      hide Created;
      for i := 0 to |options|
        invariant options == old(options) && forall k :: 0 <= k < i ==> options[k].number != number
      {
        if options[i].number == number {
          CreatedAt(options, number, description, i);
          options := options[i := LoadOption(number, description)];
          return;
        }
      }
      CreatedNew(options, number, description);
      options := options + [LoadOption(number, description)];
    }

    /** The loop of bootmgr_register_entries: every description gets the number of its option, or a free one;
        `fails` says in which turns the firmware does not read or write its variables. */
    method WriteOptions(descriptions: seq<string>, fails: nat -> bool) returns (r: Status, entries: seq<u16>)
      requires Unique(options)
      modifies `options
      ensures Unique(options) && old(options) <= options
      ensures r == Success ==> Registered(options, descriptions, entries)
      ensures r == Success || r == NotFound || r == DeviceError
      ensures r == NotFound ==> forall i :: 0 <= i <= 0xFFFF ==> Used(options, i)
      ensures r == DeviceError ==> exists i :: 0 <= i < |descriptions| && fails(i)
      ensures r == Success ==> forall i :: 0 <= i < |descriptions| ==> !fails(i)
      ensures Grown(old(options), options, descriptions)
      ensures old(AllKnown(options, descriptions)) ==> r != NotFound && options == old(options)
    {
      entries := [];
      for i := 0 to |descriptions|
        invariant Unique(options) && old(options) <= options && Registered(options, descriptions[..i], entries)
        invariant Grown(old(options), options, descriptions)
        invariant old(AllKnown(options, descriptions)) ==> options == old(options)
        invariant forall k :: 0 <= k < i ==> !fails(k)
      {
        hide Grown, Registered, AllKnown, Unique, First, Created, Used;
        if fails(i) {
          return DeviceError, entries;
        }
        var e := FindEntry(descriptions[i]);
        if e == None {
          e := FindFree();
          if e == None {
            return NotFound, entries;
          }
        }
        if old(AllKnown(options, descriptions)) {
          KnownAt(old(options), descriptions, i);
        }
        RegisteredStep(options, descriptions, entries, i, e.value);
        GrownStep(old(options), options, LoadOption(e.value, descriptions[i]), descriptions);
        Create(e.value, descriptions[i]);
        entries := entries + [e.value];
      }
      assert descriptions[..|descriptions|] == descriptions;
      r := Success;
    }

    /** bootmgr_register_entries. */
    method Register(descriptions: seq<string>, fails: nat -> bool, stale: nat -> u16)
      returns (r: Status, entries: seq<u16>)
      requires Unique(options)
      modifies this
      ensures Unique(options) && old(options) <= options
      ensures r == InvalidParameter <==> descriptions == []
      ensures r == NotFound ==> forall i :: 0 <= i <= 0xFFFF ==> Used(options, i)
      ensures r == DeviceError ==> exists i :: 0 <= i < |descriptions| && fails(i)
      ensures r != Success ==> order == old(order)
      ensures r == Success ==> entries <= order
      ensures r == Success ==>
                (order == Merge(entries, old(order)) <==> Present(entries, old(order)) == Hits(old(order), entries))
      ensures Distinct(descriptions) ==> r != Overrun && r != BadBufferSize
      ensures r == Success && Distinct(descriptions) ==>
                Distinct(entries) && (order == Merge(entries, old(order)) <==> AtMostOnce(entries, old(order)))
      ensures old(AllKnown(options, descriptions)) ==> options == old(options) && r != NotFound
      ensures r == Success && entries <= old(order) ==> order == old(order)
      ensures r == Success || r == BadBufferSize || r == Overrun ==>
                && Registered(options, descriptions, entries)
                && (r == BadBufferSize <==> NoRoom(entries, old(order)))
                && (r == Overrun <==> Outgrown(entries, old(order)))
    {
      hide Present, Hits, Keep, AtMostOnce;
      if descriptions == [] {
        return InvalidParameter, [];
      }
      r, entries := WriteOptions(descriptions, fails);
      if r != Success {
        return;
      }
      EntriesDistinct(options, descriptions, entries);
      if Distinct(entries) {
        Counts(entries, order);
        HitsBound(entries, order);
      }
      r := Install(entries, stale);
    }

    /** Registering again what was just registered changes nothing. */
    method RegisterAgain(descriptions: seq<string>, entries: seq<u16>, stale: nat -> u16)
      returns (r: Status, again: seq<u16>)
      requires Unique(options) && descriptions != []
      requires Registered(options, descriptions, entries) && entries <= order
      modifies this
      ensures r == Success && again == entries && options == old(options) && order == old(order)
    {
      r, again := Register(descriptions, _ => false, stale);
      assert again == entries;
    }
  }

  predicate AllKnown(options: seq<LoadOption>, descriptions: seq<string>) {
    forall i :: 0 <= i < |descriptions| ==> First(options, descriptions[i]).Some?
  }

  /** Every option was there before or has one of the descriptions. */
  predicate Grown(was: seq<LoadOption>, options: seq<LoadOption>, descriptions: seq<string>) {
    forall k :: 0 <= k < |options| ==> options[k] in was || options[k].description in descriptions
  }

  lemma GrownStep(was: seq<LoadOption>, options: seq<LoadOption>, o: LoadOption, descriptions: seq<string>)
    requires Grown(was, options, descriptions) && o.description in descriptions
    ensures Grown(was, options + [o], descriptions)
  {
  }

  lemma KnownAt(options: seq<LoadOption>, descriptions: seq<string>, i: nat)
    requires i < |descriptions| && AllKnown(options, descriptions)
    ensures First(options, descriptions[i]).Some?
  {
  }

  /** The options once one is written. */
  function Created(options: seq<LoadOption>, number: u16, description: string): seq<LoadOption> {
    if options == [] then [LoadOption(number, description)]
    else if options[0].number == number then [LoadOption(number, description)] + options[1..]
    else [options[0]] + Created(options[1..], number, description)
  }

  /** Every description has its option, found under its entry. */
  predicate Registered(options: seq<LoadOption>, descriptions: seq<string>, entries: seq<u16>) {
    && |entries| == |descriptions|
    && forall i :: 0 <= i < |entries| ==> First(options, descriptions[i]) == Some(entries[i])
  }

  lemma {:induction false} FirstFound(options: seq<LoadOption>, description: string)
    ensures First(options, description) == None <==>
              forall k :: 0 <= k < |options| ==> options[k].description != description
    ensures First(options, description).Some? ==> LoadOption(First(options, description).value, description) in options
  {
    if options != [] {
      FirstFound(options[1..], description);
      assert options == [options[0]] + options[1..];
    }
  }

  /** Two descriptions share an entry only when they are the same. */
  lemma EntriesDistinct(options: seq<LoadOption>, descriptions: seq<string>, entries: seq<u16>)
    requires Unique(options) && Registered(options, descriptions, entries)
    ensures Distinct(entries) <==> Distinct(descriptions)
  {
    forall i, j | 0 <= i < j < |entries|
      ensures entries[i] == entries[j] <==> descriptions[i] == descriptions[j]
    {
      FirstFound(options, descriptions[i]);
      FirstFound(options, descriptions[j]);
    }
  }

  lemma {:induction false} CreatedSame(options: seq<LoadOption>, e: u16, description: string)
    requires Unique(options) && First(options, description) == Some(e)
    ensures Created(options, e, description) == options
  {
    if options[0].description != description {
      FirstFound(options[1..], description);
      CreatedSame(options[1..], e, description);
    }
  }

  lemma {:induction false} CreatedAt(options: seq<LoadOption>, e: u16, description: string, i: nat)
    requires i < |options| && options[i].number == e && forall k :: 0 <= k < i ==> options[k].number != e
    ensures Created(options, e, description) == options[i := LoadOption(e, description)]
  {
    if i > 0 {
      CreatedAt(options[1..], e, description, i - 1);
    }
  }

  lemma {:induction false} CreatedNew(options: seq<LoadOption>, e: u16, description: string)
    requires !Used(options, e)
    ensures Created(options, e, description) == options + [LoadOption(e, description)]
  {
    if options != [] {
      assert options[0].number != e;
      forall k | 0 <= k < |options[1..]|
        ensures options[1..][k].number != e
      {
        assert options[k + 1].number != e;
      }
      CreatedNew(options[1..], e, description);
    }
  }

  lemma {:induction false} FirstOfMore(options: seq<LoadOption>, o: LoadOption, description: string)
    ensures First(options + [o], description)
         == if First(options, description).Some? then First(options, description)
            else if o.description == description then Some(o.number) else None
  {
    if options == [] {
      assert [o][1..] == [];
    } else {
      assert (options + [o])[1..] == options[1..] + [o];
      FirstOfMore(options[1..], o, description);
    }
  }

  /** Writing the option of one more description keeps the earlier ones in place. */
  lemma RegisteredStep(options: seq<LoadOption>, descriptions: seq<string>, entries: seq<u16>, i: nat, e: u16)
    requires Unique(options) && i < |descriptions| && Registered(options, descriptions[..i], entries)
    requires || First(options, descriptions[i]) == Some(e)
             || (First(options, descriptions[i]) == None && !Used(options, e))
    ensures var more := Created(options, e, descriptions[i]);
            && Unique(more) && Registered(more, descriptions[..i + 1], entries + [e])
            && (more == options || more == options + [LoadOption(e, descriptions[i])])
            && (First(options, descriptions[i]).Some? ==> more == options)
  {
    var more := Created(options, e, descriptions[i]);
    if First(options, descriptions[i]).Some? {
      CreatedSame(options, e, descriptions[i]);
    } else {
      CreatedNew(options, e, descriptions[i]);
      forall k | 0 <= k <= i {
        FirstOfMore(options, LoadOption(e, descriptions[i]), descriptions[k]);
      }
      assert forall k :: 0 <= k < |options| ==> options[k].number != e;
    }
  }

  lemma KeepStep(prior: seq<u16>, entries: seq<u16>, i: nat)
    requires i < |prior|
    ensures Keep(prior[..i + 1], entries) == Keep(prior[..i], entries) + if prior[i] in entries then [] else [prior[i]]
  {
    assert prior[..i + 1][..i] == prior[..i];
  }

  lemma {:induction false} KeepPrefix(prior: seq<u16>, entries: seq<u16>, i: nat)
    requires i < |prior|
    ensures |Keep(prior[..i + 1], entries)| <= |Keep(prior, entries)|
    decreases |prior|
  {
    var n := |prior| - 1;
    if i < n {
      KeepPrefix(prior[..n], entries, i);
      assert prior[..n][..i + 1] == prior[..i + 1];
    } else {
      assert prior[..i + 1] == prior;
    }
  }

  /** Entries that lead the order already: nothing changes, which is the merge unless one of them comes again. */
  lemma Already(entries: seq<u16>, prior: seq<u16>)
    requires entries <= prior
    ensures prior == Merge(entries, prior) <==> Present(entries, prior) == Hits(prior, entries)
    ensures Present(entries, prior) <= |prior|
  {
    var rest := prior[|entries|..];
    assert prior == entries + rest;
    AllPresent(entries, prior);
    KeepConcat(entries, rest, entries);
    KeepNone(entries, entries);
    KeepAll(rest, entries);
    assert [] + Keep(rest, entries) == Keep(rest, entries);
  }

  lemma {:induction false} AllPresent(entries: seq<u16>, prior: seq<u16>)
    requires forall e :: e in entries ==> e in prior
    ensures Present(entries, prior) == |entries|
  {
    if entries != [] {
      AllPresent(entries[..|entries| - 1], prior);
    }
  }

  lemma {:induction false} KeepConcat(a: seq<u16>, b: seq<u16>, entries: seq<u16>)
    ensures Keep(a + b, entries) == Keep(a, entries) + Keep(b, entries)
  {
    if b == [] {
      assert a + b == a;
    } else {
      var n := |b| - 1;
      KeepConcat(a, b[..n], entries);
      assert (a + b)[..|a + b| - 1] == a + b[..n];
    }
  }

  lemma {:induction false} KeepNone(a: seq<u16>, entries: seq<u16>)
    requires forall x :: x in a ==> x in entries
    ensures Keep(a, entries) == []
  {
    if a != [] {
      KeepNone(a[..|a| - 1], entries);
    }
  }

  /** What is kept is all of it as soon as it is as long. */
  lemma {:induction false} KeepAll(a: seq<u16>, entries: seq<u16>)
    ensures |Keep(a, entries)| == |a| ==> Keep(a, entries) == a
  {
    if a != [] {
      KeepAll(a[..|a| - 1], entries);
    }
  }

  /** An entry that stands twice in the old order: one place of the new one is left as it was allocated. */
  lemma TwiceExample()
    ensures !AtMostOnce([1], [2, 1, 1]) && Merge([1], [2, 1, 1]) == [1, 2]
    ensures |[2, 1, 1]| + |[1]| - Present([1], [2, 1, 1]) == 3
  {
    hide Times, Keep, Present;
    TimesThere();
    KeepThere();
    var entries: seq<u16> := [1];
    assert entries[0] == 1;
  }

  lemma TimesThere()
    ensures Times([2, 1, 1], 1) == 2
  {
    hide Keep, Present;
    assert [2, 1, 1][..2] == [2, 1] && [2, 1][..1] == [2] && [2][..0] == [];
    assert Times([2], 1) == 0;
    assert Times([2, 1], 1) == 1;
  }

  lemma KeepThere()
    ensures Keep([2, 1, 1], [1]) == [2] && Present([1], [2, 1, 1]) == 1
  {
    hide Times, Hits;
    assert [2, 1, 1][..2] == [2, 1] && [2, 1][..1] == [2] && [2][..0] == [] && [1][..0] == [];
    assert Keep([2], [1]) == [2];
    assert Keep([2, 1], [1]) == [2];
  }

  lemma SharedCounts()
    ensures Hits([1, 2], [1, 1]) == 1 && Present([1, 1], [1, 2]) == 2
  {
    var prior: seq<u16>, entries: seq<u16> := [1, 2], [1, 1];
    assert prior[..1] == [1] && prior[..1][..0] == [] && entries[..1] == [1] && entries[..1][..0] == [];
    assert Hits([1], entries) == 1 + Hits([], entries);
    assert Present([1], prior) == 1 + Present([], prior);
  }

  /** One description twice: both share an entry, and the order computed for has no room for the second one. */
  method SharedExample(stale: nat -> u16) returns (r: Status)
    ensures r == Overrun
  {
    hide Present, Hits;
    var m := new BootManager;
    m.options, m.order := [LoadOption(1, "Android")], [1, 2];
    var entries;
    assert First(m.options, "Android") == Some(1);
    r, entries := m.Register(["Android", "Android"], _ => false, stale);
    SharedCounts();
    assert r != InvalidParameter && r != DeviceError && r != NotFound;
    assert entries == [1, 1];
  }
}
