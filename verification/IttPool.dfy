/** The 128-slot task tag allocator (iscsi/session.rs, IttPool). */
module IttPool {
  import opened Bits
  import opened Bytes
  import opened Sealing
  import opened Wrappers
  import TagSystem

  function WaiterOf(senders: map<nat, nat>, t: nat): Option<nat> {
    if t in senders then Some(senders[t]) else None
  }

  /** The slots hold the senders of all tags. */
  ghost predicate SendersIn(slots: seq<Option<nat>>, senders: map<nat, nat>) {
    forall n: nat {:trigger Look(n)} :: Look(n) ==>
      |slots| == 128 && forall t :: 0 <= t < 128 ==> slots[t] == WaiterOf(senders, t)
  }

  lemma SenderStored(slots: seq<Option<nat>>, senders: map<nat, nat>, t: nat, waiter: nat)
    requires t < |slots| && SendersIn(slots, senders)
    ensures SendersIn(slots[t := Some(waiter)], senders[t := waiter])
  {
    assert Look(0);
  }

  lemma SenderTaken(slots: seq<Option<nat>>, senders: map<nat, nat>, t: nat)
    requires t < |slots| && SendersIn(slots, senders)
    ensures SendersIn(slots[t := None], senders - {t}) && slots[t] == WaiterOf(senders, t)
  {
    assert Look(0);
  }

  /** What an exchange does to the system, `now` being the word after it. */
  lemma SwapLoStep(s: TagSystem.State, i: nat, current: word, spurious: bool, ok: bool, now: word)
    requires s.At(i) == TagSystem.LoadedLo(current) && TagSystem.FreeBit(current) < 64
    requires ok <==> !spurious && s.lo == current
    requires now == if ok then SetBit(current, TagSystem.FreeBit(current)) else s.lo
    ensures var s2 := TagSystem.Next(s, TagSystem.SwapLo(i, spurious));
      && s2.lo == now && s2.hi == s.hi && s2.completions == s.completions
      && s2.At(i) == if ok then TagSystem.Claimed(TagSystem.FreeBit(current)) else TagSystem.Idle
  {
    TagSystem.SwapLoIs(s, i, spurious);
  }

  lemma SwapHiStep(s: TagSystem.State, i: nat, current: word, spurious: bool, ok: bool, now: word)
    requires s.At(i) == TagSystem.LoadedHi(current) && TagSystem.FreeBit(current) < 64
    requires ok <==> !spurious && s.hi == current
    requires now == if ok then SetBit(current, TagSystem.FreeBit(current)) else s.hi
    ensures var s2 := TagSystem.Next(s, TagSystem.SwapHi(i, spurious));
      && s2.lo == s.lo && s2.hi == now && s2.completions == s.completions
      && s2.At(i) == if ok then TagSystem.Claimed(64 + TagSystem.FreeBit(current)) else TagSystem.TryHi
  {
    TagSystem.SwapHiIs(s, i, spurious);
  }

  class IttPool {
    var slotsLo: word
    var slotsHi: word
    /** Who waits for the response to each tag. */
    var completions: seq<Option<nat>>
    var writeData: map<nat, seq<byte>>

    ghost function Tags(): set<nat>
      reads this
    {
      Taken(slotsLo, slotsHi)
    }

    predicate Valid()
      reads this
    {
      |completions| == 128
    }

    constructor ()
      ensures Valid() && Tags() == {} && completions == seq(128, _ => None) && writeData == map[]
    {
      slotsLo, slotsHi := 0, 0;
      completions := seq(128, _ => None);
      writeData := map[];
      new;
      NoBits(0);
    }

    // -- The accesses --------------------------------------------------------

    // Each access to the shared memory is a method. Those that one submitter or the receiver calls one after another
    // interleave with those of others as the actions of TagSystem do; whatever moment of the system the pool
    // shows, the access takes the system's step.

    /** The words and the waiters are the system's. */
    ghost predicate Shows(s: TagSystem.State)
      reads this
    {
      slotsLo == s.lo && slotsHi == s.hi && SendersIn(completions, s.completions)
    }

    method LoadLo() returns (current: word, freeBit: nat)
      ensures current == slotsLo && freeBit == TagSystem.FreeBit(current)
      ensures forall s: TagSystem.State, i: nat :: Shows(s) && s.At(i).Idle? ==>
        var s2 := TagSystem.Next(s, TagSystem.LoadLo(i));
        Shows(s2) && s2.At(i) == if freeBit < 64 then TagSystem.LoadedLo(current) else TagSystem.TryHi
    {
      current := slotsLo;
      freeBit := TrailingZeros(Complement(current));
    }

    /** Sets a bit if the word is still the one loaded; the exchange may also fail for no reason. */
    method SwapLo(current: word, freeBit: nat, spurious: bool) returns (ok: bool)
      requires freeBit == TagSystem.FreeBit(current) && freeBit < 64
      modifies this`slotsLo
      ensures ok <==> !spurious && old(slotsLo) == current
      ensures slotsLo == if ok then SetBit(current, freeBit) else old(slotsLo)
      ensures forall s: TagSystem.State, i: nat :: old(Shows(s)) && s.At(i) == TagSystem.LoadedLo(current) ==>
        var s2 := TagSystem.Next(s, TagSystem.SwapLo(i, spurious));
        Shows(s2) && s2.At(i) == if ok then TagSystem.Claimed(freeBit) else TagSystem.Idle
    {
      ok := !spurious && slotsLo == current;
      if ok {
        slotsLo := SetBit(current, freeBit);
      }
      forall s: TagSystem.State, i: nat | old(Shows(s)) && s.At(i) == TagSystem.LoadedLo(current)
        ensures var s2 := TagSystem.Next(s, TagSystem.SwapLo(i, spurious));
          Shows(s2) && s2.At(i) == if ok then TagSystem.Claimed(freeBit) else TagSystem.Idle
      {
        SwapLoStep(s, i, current, spurious, ok, slotsLo);
      }
    }

    method LoadHi() returns (current: word, freeBit: nat)
      ensures current == slotsHi && freeBit == TagSystem.FreeBit(current)
      ensures forall s: TagSystem.State, i: nat :: Shows(s) && s.At(i).TryHi? ==>
        var s2 := TagSystem.Next(s, TagSystem.LoadHi(i));
        Shows(s2) && s2.At(i) == if freeBit < 64 then TagSystem.LoadedHi(current) else TagSystem.Idle
    {
      current := slotsHi;
      freeBit := TrailingZeros(Complement(current));
    }

    method SwapHi(current: word, freeBit: nat, spurious: bool) returns (ok: bool)
      requires freeBit == TagSystem.FreeBit(current) && freeBit < 64
      modifies this`slotsHi
      ensures ok <==> !spurious && old(slotsHi) == current
      ensures slotsHi == if ok then SetBit(current, freeBit) else old(slotsHi)
      ensures forall s: TagSystem.State, i: nat :: old(Shows(s)) && s.At(i) == TagSystem.LoadedHi(current) ==>
        var s2 := TagSystem.Next(s, TagSystem.SwapHi(i, spurious));
        Shows(s2) && s2.At(i) == if ok then TagSystem.Claimed(64 + freeBit) else TagSystem.TryHi
    {
      ok := !spurious && slotsHi == current;
      if ok {
        slotsHi := SetBit(current, freeBit);
      }
      forall s: TagSystem.State, i: nat | old(Shows(s)) && s.At(i) == TagSystem.LoadedHi(current)
        ensures var s2 := TagSystem.Next(s, TagSystem.SwapHi(i, spurious));
          Shows(s2) && s2.At(i) == if ok then TagSystem.Claimed(64 + freeBit) else TagSystem.TryHi
      {
        SwapHiStep(s, i, current, spurious, ok, slotsHi);
      }
    }

    /** Registers who waits for a tag that was claimed. */
    method StoreWaiter(itt: nat, waiter: nat)
      requires Valid() && itt < 128
      modifies this`completions
      ensures Valid() && completions == old(completions)[itt := Some(waiter)]
      ensures forall s: TagSystem.State :: old(Shows(s)) && s.At(waiter) == TagSystem.Claimed(itt) ==>
        var s2 := TagSystem.Next(s, TagSystem.Store(waiter));
        Shows(s2) && s2.At(waiter) == TagSystem.Stored(itt)
    {
      completions := completions[itt := Some(waiter)];
      forall s: TagSystem.State | old(Shows(s)) && s.At(waiter) == TagSystem.Claimed(itt)
        ensures var s2 := TagSystem.Next(s, TagSystem.Store(waiter));
          Shows(s2) && s2.At(waiter) == TagSystem.Stored(itt)
      {
        SenderStored(old(completions), s.completions, itt, waiter);
      }
    }

    /** Whoever waits for the tag, taken out. */
    method TakeWaiter(itt: nat) returns (waiter: Option<nat>)
      requires Valid() && itt < 128
      modifies this`completions
      ensures Valid() && waiter == old(completions)[itt] && completions == old(completions)[itt := None]
      ensures forall s: TagSystem.State ::
        old(Shows(s)) && s.recv.Ready? && s.inbox != [] && s.inbox[0].tag == itt ==>
          var s2 := TagSystem.Next(s, TagSystem.Take);
          Shows(s2) && s2.recv == TagSystem.Freeing(itt) && waiter == WaiterOf(s.completions, itt)
    {
      waiter := completions[itt];
      completions := completions[itt := None];
      forall s: TagSystem.State | old(Shows(s)) && s.recv.Ready? && s.inbox != [] && s.inbox[0].tag == itt
        ensures var s2 := TagSystem.Next(s, TagSystem.Take);
          Shows(s2) && s2.recv == TagSystem.Freeing(itt) && waiter == WaiterOf(s.completions, itt)
      {
        SenderTaken(old(completions), s.completions, itt);
      }
    }

    method Free(itt: nat)
      requires itt < 128
      modifies this`slotsLo, this`slotsHi
      ensures Tags() == old(Tags()) - {itt}
      ensures forall s: TagSystem.State :: old(Shows(s)) && s.recv == TagSystem.Freeing(itt) ==>
        Shows(TagSystem.Next(s, TagSystem.Free))
    {
      if itt < 64 {
        BitsOfClear(slotsLo, itt);
        slotsLo := ClearBit(slotsLo, itt);
      } else {
        BitsOfClear(slotsHi, itt - 64);
        slotsHi := ClearBit(slotsHi, itt - 64);
      }
      forall s: TagSystem.State | old(Shows(s)) && s.recv == TagSystem.Freeing(itt)
        ensures Shows(TagSystem.Next(s, TagSystem.Free))
      {
        TagSystem.FreeIs(s, itt);
      }
    }

    // -- The operations, with nobody else at the words -----------------------

    /** Takes the lowest free bit of the first word, however often the exchange fails for no reason. */
    method AllocLo() returns (bit: Option<nat>)
      modifies this`slotsLo
      ensures var b := TagSystem.FreeBit(old(slotsLo));
        && bit == (if b < 64 then Some(b) else None)
        && slotsLo == if b < 64 then SetBit(old(slotsLo), b) else old(slotsLo)
    {
      var failures: nat := *;
      while true
        invariant slotsLo == old(slotsLo)
        decreases failures
      {
        var current, freeBit := LoadLo();
        if freeBit >= 64 {
          return None;
        }
        var ok := SwapLo(current, freeBit, failures > 0);
        if ok {
          return Some(freeBit);
        }
        failures := failures - 1;
      }
    }

    method AllocHi() returns (bit: Option<nat>)
      modifies this`slotsHi
      ensures var b := TagSystem.FreeBit(old(slotsHi));
        && bit == (if b < 64 then Some(b) else None)
        && slotsHi == if b < 64 then SetBit(old(slotsHi), b) else old(slotsHi)
    {
      var failures: nat := *;
      while true
        invariant slotsHi == old(slotsHi)
        decreases failures
      {
        var current, freeBit := LoadHi();
        if freeBit >= 64 {
          return None;
        }
        var ok := SwapHi(current, freeBit, failures > 0);
        if ok {
          return Some(freeBit);
        }
        failures := failures - 1;
      }
    }

    /** The lowest free tag is taken; none is only when all 128 are. */
    method Alloc(waiter: nat) returns (itt: Option<nat>)
      requires Valid()
      modifies this`slotsLo, this`slotsHi, this`completions
      ensures Valid()
      ensures IsLowest(old(Tags()), if itt.Some? then itt.value else 128)
      ensures itt.None? ==> Tags() == old(Tags()) && completions == old(completions)
      ensures itt.Some? ==>
        && itt.value < 128
        && Tags() == old(Tags()) + {itt.value}
        && completions == old(completions)[itt.value := Some(waiter)]
    {
      LowestTag(slotsLo, slotsHi);
      var bit := AllocLo();
      if bit.Some? {
        LowestInLo(old(slotsLo), slotsHi, bit.value);
        StoreWaiter(bit.value, waiter);
        return bit;
      }
      bit := AllocHi();
      if bit.Some? {
        LowestInHi(slotsLo, old(slotsHi), bit.value);
        StoreWaiter(64 + bit.value, waiter);
        return Some(64 + bit.value);
      }
      itt := None;
    }

    /** Hands the response to whoever waits for the tag, if anybody does, and frees the tag. */
    method Complete(itt: nat) returns (waiter: Option<nat>)
      requires Valid() && itt < 128
      modifies this`slotsLo, this`slotsHi, this`completions
      ensures Valid() && waiter == old(completions)[itt]
      ensures completions == old(completions)[itt := None]
      ensures Tags() == old(Tags()) - {itt}
    {
      waiter := TakeWaiter(itt);
      Free(itt);
    }

    /** The taken tags, each once, in strictly ascending order. */
    method OutstandingItts() returns (result: seq<nat>)
      ensures forall i, j :: 0 <= i < j < |result| ==> result[i] < result[j]
      ensures forall t :: t in result <==> t in Tags()
    {
      var lo := SetBits(slotsLo);
      var hi := SetBits(slotsHi);
      result := lo;
      var i := 0;
      while i < |hi|
        invariant 0 <= i <= |hi|
        invariant |result| == |lo| + i && result[..|lo|] == lo
        invariant forall k :: |lo| <= k < |result| ==> result[k] == 64 + hi[k - |lo|]
      {
        result := result + [64 + hi[i]];
        i := i + 1;
      }
      forall t
        ensures t in result <==> t in Tags()
      {
        TagListed(result, lo, hi, t);
      }
      forall k | 0 <= k < |lo|
        ensures result[k] == lo[k] && result[k] in BitsOf(slotsLo)
      {
        assert result[k] == result[..|lo|][k];
      }
    }

    lemma TagListed(result: seq<nat>, lo: seq<nat>, hi: seq<nat>, t: int)
      requires |result| == |lo| + |hi| && result[..|lo|] == lo
      requires forall k :: |lo| <= k < |result| ==> result[k] == 64 + hi[k - |lo|]
      requires forall i :: i in lo <==> i in BitsOf(slotsLo)
      requires forall i :: i in hi <==> i in BitsOf(slotsHi)
      ensures t in result <==> t in Tags()
    {
      if t in result {
        var k :| 0 <= k < |result| && result[k] == t;
        if k < |lo| {
          assert t == result[..|lo|][k] && t in lo;
        } else {
          assert hi[k - |lo|] in hi;
        }
      }
      if t in lo {
        var k :| 0 <= k < |lo| && lo[k] == t;
        assert result[..|lo|][k] == result[k];
      }
      if t - 64 in hi {
        var k :| 0 <= k < |hi| && hi[k] == t - 64;
        assert result[|lo| + k] == 64 + hi[(|lo| + k) - |lo|];
      }
    }
  }
}
