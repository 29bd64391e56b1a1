// The media reader's read-ahead slots: finding the slot that holds a position, and replacing the
// least recently used one by 32-bit stamps that start over when the clock wraps.

module ReadAhead {
  import opened Bytes

  const INT64_MAX: nat := 0x7fff_ffff_ffff_ffff
  const UINT32_MAX: nat := 0xffff_ffff

  datatype Slot = Slot(size: nat, start: int, lastUsed: u32)

  // ---------------------------------------------------------------- finding a slot

  // What is left above a start, after the conversion to the size type; word is the number of
  // values that type has (2^32 on the device).
  function Headroom(start: int, word: nat): nat
    requires 0 < word && 0 <= start <= INT64_MAX
  {
    (INT64_MAX - start) % word
  }

  predicate Considered(s: Slot, word: nat)
    requires 0 < word && s.start <= INT64_MAX
  {
    s.size != 0 && 0 <= s.start && s.size <= Headroom(s.start, word)
  }

  predicate HoldsPosition(s: Slot, position: int, allowEnd: bool)
  {
    s.start <= position && (position < s.start + s.size || (allowEnd && position == s.start + s.size))
  }

  // With a 32-bit size type the overflow guard also passes over every slot that touches or
  // crosses a 4 GiB boundary of the file; exactly those that stay clear of it are considered.
  lemma ConsideredOnDeviceIff(s: Slot)
    requires 0 < s.size < 0x1_0000_0000 && 0 <= s.start && s.start + s.size <= INT64_MAX
    ensures Considered(s, 0x1_0000_0000) <==> s.start / 0x1_0000_0000 == (s.start + s.size) / 0x1_0000_0000
  {
    var q, low := s.start / 0x1_0000_0000, s.start % 0x1_0000_0000;
    assert INT64_MAX - s.start == (0x7fff_ffff - q) * 0x1_0000_0000 + (0xffff_ffff - low);
    assert Headroom(s.start, 0x1_0000_0000) == 0xffff_ffff - low;
    assert s.start + s.size == q * 0x1_0000_0000 + (low + s.size);
  }

  // With a 64-bit size type the guard means what it says.
  lemma ConsideredOnHostIff(s: Slot)
    requires 0 <= s.start <= INT64_MAX
    ensures Considered(s, 0x1_0000_0000_0000_0000) <==> s.size != 0 && s.start + s.size <= INT64_MAX
  {
  }

  // ---------------------------------------------------------------- stamps and history

  function Stamps(slots: seq<Slot>): (r: seq<u32>)
    ensures |r| == |slots|
  {
    seq(|slots|, i requires 0 <= i < |slots| => slots[i].lastUsed)
  }

  // Where in a history of touches a slot was last touched, counted from one; zero when it was not.
  function LastTouch(history: seq<nat>, slot: nat): (n: nat)
    ensures n <= |history|
    ensures n > 0 ==> history[n - 1] == slot
    ensures forall i :: n <= i < |history| ==> history[i] != slot
  {
    if history == [] then 0
    else if history[|history| - 1] == slot then |history|
    else LastTouch(history[..|history| - 1], slot)
  }

  // The stamps are the places of the last touches since the clock last wrapped.
  ghost predicate Tracks(stamps: seq<u32>, clock: u32, recent: seq<nat>)
  {
    && clock as nat == |recent|
    && (forall i :: 0 <= i < |recent| ==> recent[i] < |stamps|)
    && (forall k :: 0 <= k < |stamps| ==> stamps[k] as nat == LastTouch(recent, k))
  }

  class Policy {
    const slots: array<Slot>
    var clock: u32
    // Every touch so far, and how many of them were made before the clock last wrapped.
    ghost var history: seq<nat>
    ghost var epoch: nat

    ghost predicate Valid()
      reads this, slots
    {
      && epoch <= |history|
      && (history != [] ==> epoch < |history|)
      && Tracks(Stamps(slots[..]), clock, history[epoch..])
    }

    constructor (count: nat)
      ensures Valid() && slots.Length == count && history == [] && fresh(slots)
    {
      slots := new Slot[count](_ => Slot(0, 0, 0));
      clock := 0;
      history, epoch := [], 0;
    }

    method FindSlot(position: int, allowEnd: bool, word: nat) returns (found: int)
      requires 0 < word && forall i :: 0 <= i < slots.Length ==> slots[i].start <= INT64_MAX
      ensures -1 <= found < slots.Length
      ensures found >= 0 ==> Considered(slots[found], word) && HoldsPosition(slots[found], position, allowEnd)
      ensures forall i :: 0 <= i < (if found >= 0 then found else slots.Length) ==>
                !(Considered(slots[i], word) && HoldsPosition(slots[i], position, allowEnd)) || position < 0
    {
      if position < 0 { return -1; }
      for i := 0 to slots.Length
        invariant forall k :: 0 <= k < i ==>
                    !(Considered(slots[k], word) && HoldsPosition(slots[k], position, allowEnd))
      {
        var s := slots[i];
        if s.size == 0 || s.start < 0 || s.size > (INT64_MAX - s.start) % word { continue; }
        var end := s.start + s.size;
        if position >= s.start && (position < end || (allowEnd && position == end)) { return i; }
      }
      found := -1;
    }

    // The first empty slot; with none empty, the first of those least recently touched.
    method ChooseSlot() returns (best: nat, evicted: bool)
      requires Valid()
      ensures slots.Length == 0 ==> best == 0 && !evicted
      ensures slots.Length > 0 ==> best < slots.Length
      ensures slots.Length > 0 && !evicted ==>
                slots[best].size == 0 && forall i :: 0 <= i < best ==> slots[i].size != 0
      ensures evicted ==> IsLeastRecent(Stamps(slots[..]), best) && forall i :: 0 <= i < slots.Length ==> slots[i].size != 0
      ensures slots.Length > 0 ==> (evicted <==> forall i :: 0 <= i < slots.Length ==> slots[i].size != 0)
    {
      best, evicted := 0, false;
      if slots.Length == 0 { return; }
      var bestUsed: u32 := 0xffff_ffff;
      for i := 0 to slots.Length
        invariant best < slots.Length && (best < i || best == 0)
        invariant forall k :: 0 <= k < i ==> slots[k].size != 0 && slots[k].lastUsed >= bestUsed
        invariant forall k :: 0 <= k < best ==> slots[k].lastUsed > bestUsed
        invariant slots[best].lastUsed == bestUsed || (best == 0 && bestUsed == 0xffff_ffff)
      {
        if slots[i].size == 0 {
          best := i;
          return;
        }
        if slots[i].lastUsed < bestUsed {
          best := i;
          bestUsed := slots[i].lastUsed;
        }
      }
      evicted := true;
      assert forall k :: 0 <= k < slots.Length ==> Stamps(slots[..])[k] == slots[k].lastUsed;
    }

    method Touch(slot: nat)
      requires Valid()
      modifies this, slots
      ensures Valid()
      ensures slot >= slots.Length ==> history == old(history)
      ensures slot < slots.Length ==> history == old(history) + [slot]
      ensures epoch == if slot < slots.Length && old(clock) == 0xffff_ffff then |old(history)| else old(epoch)
      ensures forall i :: 0 <= i < slots.Length ==>
                slots[i].size == old(slots[i].size) && slots[i].start == old(slots[i].start)
    {
      if slot >= slots.Length { return; }
      ghost var recent, stamps := history[epoch..], Stamps(slots[..]);
      history := history + [slot];
      if clock == 0xffff_ffff {
        forall i | 0 <= i < slots.Length { slots[i] := slots[i].(lastUsed := 0); }
        clock := 0;
        epoch := |history| - 1;
        recent, stamps := [], Stamps(slots[..]);
        assert Tracks(stamps, clock, recent);
      }
      clock := clock + 1;
      slots[slot] := slots[slot].(lastUsed := clock);
      assert history[epoch..] == recent + [slot];
      TouchTracks(stamps, (clock - 1) as u32, recent, slot);
      assert Stamps(slots[..]) == stamps[slot := clock];
    }
  }

  lemma TouchTracks(stamps: seq<u32>, clock: u32, recent: seq<nat>, slot: nat)
    requires Tracks(stamps, clock, recent) && slot < |stamps| && clock < 0xffff_ffff
    ensures Tracks(stamps[slot := clock + 1], clock + 1, recent + [slot])
  {
    forall k | 0 <= k < |stamps|
      ensures stamps[slot := clock + 1][k] as nat == LastTouch(recent + [slot], k)
    {
      assert (recent + [slot])[..|recent|] == recent;
    }
  }

  // ---------------------------------------------------------------- what is replaced

  ghost predicate IsLeastRecent(stamps: seq<u32>, best: nat)
  {
    && best < |stamps|
    && (forall k :: 0 <= k < |stamps| ==> stamps[best] <= stamps[k])
    && (forall k :: 0 <= k < best ==> stamps[best] < stamps[k])
  }

  // The first slot was touched before the second one was, or neither ever was and it comes first.
  predicate Before(history: seq<nat>, a: nat, b: nat)
  {
    LastTouch(history, a) < LastTouch(history, b) || (LastTouch(history, a) == LastTouch(history, b) == 0 && a < b)
  }

  // No other slot's last touch lies further back in the whole history.
  ghost predicate FurthestBack(history: seq<nat>, count: nat, best: nat)
  {
    forall k :: 0 <= k < count && k != best ==> Before(history, best, k)
  }

  // A slot touched since the wrap counts from there; another one kept its place before it.
  lemma {:induction false} TouchAcrossWrap(history: seq<nat>, epoch: nat, slot: nat)
    requires epoch <= |history|
    ensures LastTouch(history, slot) ==
            if LastTouch(history[epoch..], slot) > 0 then epoch + LastTouch(history[epoch..], slot)
            else LastTouch(history[..epoch], slot)
    decreases |history|
  {
    if epoch == |history| {
      assert history[..epoch] == history;
    } else if history[|history| - 1] != slot {
      var shorter := history[..|history| - 1];
      TouchAcrossWrap(shorter, epoch, slot);
      assert shorter[..epoch] == history[..epoch];
      assert history[epoch..][..|history| - epoch - 1] == shorter[epoch..];
    }
  }

  // Wherever the clock stands: a chosen slot that was touched since the last wrap is the least
  // recently touched one of the whole history. One that was not is, exactly when none of the others
  // untouched since the wrap was touched less recently before it; among those the code takes the
  // first by index.
  lemma ChosenIsLeastRecentIff(stamps: seq<u32>, clock: u32, history: seq<nat>, epoch: nat, best: nat)
    requires epoch <= |history| && Tracks(stamps, clock, history[epoch..]) && IsLeastRecent(stamps, best)
    ensures stamps[best] > 0 ==>
              forall k :: 0 <= k < |stamps| && k != best ==> LastTouch(history, best) < LastTouch(history, k)
    ensures FurthestBack(history, |stamps|, best) <==>
            stamps[best] > 0 || forall k :: 0 <= k < |stamps| && k != best && stamps[k] == 0 ==>
                                  Before(history[..epoch], best, k)
  {
    hide LastTouch;
    TouchAcrossWrap(history, epoch, best);
    forall k | 0 <= k < |stamps| && k != best
      ensures stamps[best] > 0 ==> LastTouch(history, best) < LastTouch(history, k)
      ensures Before(history, best, k) <==> stamps[best] > 0 || stamps[k] > 0 || Before(history[..epoch], best, k)
    {
      OneOfTwo(stamps, clock, history, epoch, best, k);
    }
  }

  lemma OneOfTwo(stamps: seq<u32>, clock: u32, history: seq<nat>, epoch: nat, best: nat, k: nat)
    requires epoch <= |history| && Tracks(stamps, clock, history[epoch..]) && IsLeastRecent(stamps, best)
    requires k < |stamps| && k != best
    ensures stamps[best] > 0 ==> LastTouch(history, best) < LastTouch(history, k)
    ensures Before(history, best, k) <==> stamps[best] > 0 || stamps[k] > 0 || Before(history[..epoch], best, k)
  {
    var recent := history[epoch..];
    TouchAcrossWrap(history, epoch, best);
    TouchAcrossWrap(history, epoch, k);
    var n := LastTouch(recent, k);
    assert n > 0 ==> recent[n - 1] == k;
    assert LastTouch(history[..epoch], best) <= epoch;
  }

  // Until the clock wraps, the slot chosen is the one whose last touch lies furthest back in the
  // whole history (and, among slots never touched, the first).
  lemma ChosenIsLeastRecent(stamps: seq<u32>, clock: u32, history: seq<nat>, best: nat)
    requires Tracks(stamps, clock, history) && IsLeastRecent(stamps, best)
    ensures FurthestBack(history, |stamps|, best)
  {
    hide LastTouch;
    assert history[0..] == history;
    ChosenIsLeastRecentIff(stamps, clock, history, 0, best);
    forall k | 0 <= k < |stamps| && k != best && stamps[k] == 0 && stamps[best] == 0
      ensures Before(history[..0], best, k)
    {
      NoTouch(history, best);
      NoTouch(history, k);
    }
  }

  lemma NoTouch(history: seq<nat>, slot: nat)
    ensures LastTouch(history[..0], slot) == 0
  {
  }

  function Zeros(n: nat): (r: seq<nat>)
    ensures |r| == n && forall i :: 0 <= i < n ==> r[i] == 0
  {
    seq(n, _ => 0)
  }

  // What a wrap forgets. Slots 2 and 1 are touched first, in this order, and slot 0 from then on.
  // The touch that finds the clock at its end leaves the stamps 1, 0 and 0, so slot 1 is replaced,
  // although slot 2 was touched before it.
  lemma WrapForgetsOrder()
    ensures var history: seq<nat> := [2, 1] + Zeros(0xffff_fffd) + [0];
            var stamps: seq<u32> := [1, 0, 0];
            var epoch := 0xffff_ffff;
            && Tracks([0xffff_ffff, 2, 1], 0xffff_ffff, history[..epoch])
            && Tracks(stamps, 1, history[epoch..])
            && IsLeastRecent(stamps, 1)
            && LastTouch(history, 2) == 1 && LastTouch(history, 1) == 2
            && !FurthestBack(history, 3, 1)
  {
    hide LastTouch;
    var before := [2, 1] + Zeros(0xffff_fffd);
    var history := before + [0];
    assert history[..0xffff_ffff] == before && history[0xffff_ffff..] == [0];
    OrderBeforeWrap(before);
    StampsAfterWrap();
    LastTouchIs(history, 1, 2);
    LastTouchIs(history, 2, 1);
    assert !Before(history, 1, 2);
  }

  lemma OrderBeforeWrap(before: seq<nat>)
    requires before == [2, 1] + Zeros(0xffff_fffd)
    ensures Tracks([0xffff_ffff, 2, 1], 0xffff_ffff, before)
  {
    hide LastTouch;
    LastTouchIs(before, 0, 0xffff_ffff);
    LastTouchIs(before, 1, 2);
    LastTouchIs(before, 2, 1);
  }

  lemma StampsAfterWrap()
    ensures Tracks([1, 0, 0], 1, [0]) && IsLeastRecent([1, 0, 0], 1)
  {
    hide LastTouch;
    LastTouchIs([0], 0, 1);
    LastTouchIs([0], 1, 0);
    LastTouchIs([0], 2, 0);
  }

  lemma LastTouchIs(history: seq<nat>, slot: nat, n: nat)
    requires n <= |history| && (n > 0 ==> history[n - 1] == slot)
    requires forall i :: n <= i < |history| ==> history[i] != slot
    ensures LastTouch(history, slot) == n
  {
  }

  // With two or more slots the one touched last is never chosen, wherever the clock stands.
  lemma ChosenIsNotLatest(stamps: seq<u32>, clock: u32, recent: seq<nat>, best: nat)
    requires Tracks(stamps, clock, recent) && IsLeastRecent(stamps, best)
    requires |stamps| >= 2 && recent != []
    ensures best != recent[|recent| - 1]
  {
    var latest := recent[|recent| - 1];
    var other := if latest == 0 then 1 else 0;
    assert LastTouch(recent, latest) == |recent|;
    assert LastTouch(recent, other) < |recent|;
    assert stamps[other] < stamps[latest];
  }

  // Choosing for a read: a full set of slots gives up one that was not the last one used; it is the
  // least recently used one under the exact condition above.
  method Replace(policy: Policy) returns (best: nat, evicted: bool)
    requires policy.Valid()
    ensures evicted ==> best < policy.slots.Length
    ensures evicted && policy.slots.Length >= 2 && policy.history != [] ==>
              best != policy.history[|policy.history| - 1]
    ensures evicted && policy.slots[best].lastUsed > 0 ==>
              forall k :: 0 <= k < policy.slots.Length && k != best ==>
                LastTouch(policy.history, best) < LastTouch(policy.history, k)
    ensures evicted ==>
              (FurthestBack(policy.history, policy.slots.Length, best) <==>
               policy.slots[best].lastUsed > 0 ||
               forall k :: 0 <= k < policy.slots.Length && k != best && policy.slots[k].lastUsed == 0 ==>
                 Before(policy.history[..policy.epoch], best, k))
    ensures evicted && policy.epoch == 0 ==> FurthestBack(policy.history, policy.slots.Length, best)
  {
    hide LastTouch;
    best, evicted := policy.ChooseSlot();
    if evicted {
      ghost var recent := policy.history[policy.epoch..];
      ghost var stamps := Stamps(policy.slots[..]);
      if policy.slots.Length >= 2 && policy.history != [] {
        ChosenIsNotLatest(stamps, policy.clock, recent, best);
        assert recent[|recent| - 1] == policy.history[|policy.history| - 1];
      }
      ChosenIsLeastRecentIff(stamps, policy.clock, policy.history, policy.epoch, best);
      assert forall k :: 0 <= k < policy.slots.Length ==> stamps[k] == policy.slots[k].lastUsed;
      if policy.epoch == 0 {
        assert recent == policy.history;
        ChosenIsLeastRecent(stamps, policy.clock, policy.history, best);
      }
    }
  }
}
