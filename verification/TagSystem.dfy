/** Any number of submitters racing for task tags, and a receiver handing responses back (iscsi/session.rs). */
module TagSystem {
  import opened Bits
  import opened Bytes
  import opened Sealing
  import opened Wrappers

  /** Where one call of submit_command stands. A word is loaded first and swapped only if it is still
      the loaded one; the sender is stored after the tag is claimed, and the command sent after that. */
  datatype Phase =
    | Idle
    | LoadedLo(snap: word)
    | TryHi
    | LoadedHi(snap: word)
    | Claimed(tag: nat)
    | Stored(tag: nat)
    | Sent(tag: nat)
    | GaveUp(tag: nat) // the caller timed out and dropped its receiver
    | Done(received: bool)

  /** A command on the wire, or the answer to it; the owner is known to the target only as the tag. */
  datatype Command = Command(tag: nat, owner: nat)

  datatype Receiver = Ready | Freeing(tag: nat)

  datatype State = State(
    lo: word,
    hi: word,
    completions: map<nat, nat>,
    phase: map<nat, Phase>,
    pending: set<Command>,
    inbox: seq<Command>,
    recv: Receiver,
    delivered: seq<(nat, nat)>) // who was handed an answer, and whose command it answers

  {
    function At(i: nat): Phase {
      if i in phase then phase[i] else Idle
    }
  }

  datatype Action =
    | LoadLo(i: nat)
    | SwapLo(i: nat, spurious: bool)
    | LoadHi(i: nat)
    | SwapHi(i: nat, spurious: bool)
    | Store(i: nat)
    | Send(i: nat)
    | TimeOut(i: nat)
    | Answer(c: Command)
    | Take
    | Free

  ghost predicate Enabled(s: State, a: Action) {
    match a
    case LoadLo(i) => s.At(i).Idle?
    case SwapLo(i, _) => s.At(i).LoadedLo?
    case LoadHi(i) => s.At(i).TryHi?
    case SwapHi(i, _) => s.At(i).LoadedHi?
    case Store(i) => s.At(i).Claimed?
    case Send(i) => s.At(i).Stored?
    case TimeOut(i) => s.At(i).Sent?
    case Answer(c) => c in s.pending
    case Take => s.recv.Ready? && s.inbox != [] && s.inbox[0].tag < 128
    case Free => s.recv.Freeing? && s.recv.tag < 128
  }

  function FreeBit(x: word): nat {
    TrailingZeros(Complement(x))
  }

  ghost function Next(s: State, a: Action): State
    requires Enabled(s, a)
  {
    match a
    case LoadLo(i) =>
      s.(phase := s.phase[i := if FreeBit(s.lo) < 64 then LoadedLo(s.lo) else TryHi])
    case SwapLo(i, spurious) =>
      var snap := s.At(i).snap;
      if snap == s.lo && !spurious && FreeBit(snap) < 64 then
        s.(lo := SetBit(snap, FreeBit(snap)), phase := s.phase[i := Claimed(FreeBit(snap))])
      else s.(phase := s.phase[i := Idle])
    case LoadHi(i) =>
      s.(phase := s.phase[i := if FreeBit(s.hi) < 64 then LoadedHi(s.hi) else Idle])
    case SwapHi(i, spurious) =>
      var snap := s.At(i).snap;
      if snap == s.hi && !spurious && FreeBit(snap) < 64 then
        s.(hi := SetBit(snap, FreeBit(snap)), phase := s.phase[i := Claimed(64 + FreeBit(snap))])
      else s.(phase := s.phase[i := TryHi])
    case Store(i) =>
      var t := s.At(i).tag;
      s.(completions := s.completions[t := i], phase := s.phase[i := Stored(t)])
    case Send(i) =>
      var t := s.At(i).tag;
      s.(pending := s.pending + {Command(t, i)}, phase := s.phase[i := Sent(t)])
    case TimeOut(i) =>
      s.(phase := s.phase[i := GaveUp(s.At(i).tag)])
    case Answer(c) =>
      s.(pending := s.pending - {c}, inbox := s.inbox + [c])
    case Take =>
      var c := s.inbox[0];
      var s1 := s.(inbox := s.inbox[1..], completions := s.completions - {c.tag}, recv := Freeing(c.tag));
      if c.tag !in s.completions then s1
      else
        var w := s.completions[c.tag];
        if s.At(w).GaveUp? then s1.(phase := s.phase[w := Done(false)])
        else s1.(phase := s.phase[w := Done(true)], delivered := s.delivered + [(w, c.owner)])
    case Free =>
      var t := s.recv.tag;
      if t < 64 then s.(lo := ClearBit(s.lo, t), recv := Ready)
      else s.(hi := ClearBit(s.hi, t - 64), recv := Ready)
  }

  // -- Invariant -------------------------------------------------------------

  /** The tag a submitter has claimed and whose answer has not been taken yet. */
  function HeldTag(p: Phase): Option<nat> {
    match p
    case Claimed(t) => Some(t)
    case Stored(t) => Some(t)
    case Sent(t) => Some(t)
    case GaveUp(t) => Some(t)
    case _ => None
  }

  ghost predicate Registered(p: Phase) {
    p.Stored? || p.Sent? || p.GaveUp?
  }

  ghost predicate OnWire(p: Phase) {
    p.Sent? || p.GaveUp?
  }

  ghost predicate HeldBySome(s: State, t: nat) {
    exists i :: i in s.phase && HeldTag(s.phase[i]) == Some(t)
  }

  /** No two live commands share a tag, nor does one share the tag being freed. */
  ghost predicate TagsDistinct(s: State) {
    forall n: nat {:trigger Look(n)} :: Look(n) ==>
      && (forall i, j :: i in s.phase && j in s.phase && i != j && HeldTag(s.phase[i]).Some? ==>
            HeldTag(s.phase[i]) != HeldTag(s.phase[j]))
      && (s.recv.Freeing? ==> forall i :: i in s.phase ==> HeldTag(s.phase[i]) != Some(s.recv.tag))
  }

  /** The set bits are exactly the tags held or being freed. */
  ghost predicate BitsAreTags(s: State) {
    forall n: nat {:trigger Look(n)} :: Look(n) ==>
      && (forall i :: i in s.phase && HeldTag(s.phase[i]).Some? ==> HeldTag(s.phase[i]).value in Taken(s.lo, s.hi))
      && (s.recv.Freeing? ==> s.recv.tag in Taken(s.lo, s.hi))
      && (forall t :: t in Taken(s.lo, s.hi) ==> s.recv == Freeing(t) || HeldBySome(s, t))
  }

  ghost predicate SendersMatch(s: State) {
    forall n: nat {:trigger Look(n)} :: Look(n) ==>
      && (forall t :: t in s.completions ==>
            s.completions[t] in s.phase && Registered(s.phase[s.completions[t]]) && s.phase[s.completions[t]].tag == t)
      && (forall i :: i in s.phase && Registered(s.phase[i]) ==>
            s.phase[i].tag in s.completions && s.completions[s.phase[i].tag] == i)
  }

  ghost predicate Live(s: State, c: Command) {
    c.owner in s.phase && OnWire(s.phase[c.owner]) && s.phase[c.owner].tag == c.tag
  }

  /** Commands on the wire and answers to them are those of submitters still owed one, each once. */
  ghost predicate WireMatches(s: State) {
    forall n: nat {:trigger Look(n)} :: Look(n) ==>
      && (forall c :: c in s.pending ==> Live(s, c))
      && (forall k :: 0 <= k < |s.inbox| ==> Live(s, s.inbox[k]) && s.inbox[k] !in s.pending)
      && (forall k, l :: 0 <= k < l < |s.inbox| ==> s.inbox[k] != s.inbox[l])
      && (forall i :: i in s.phase && OnWire(s.phase[i]) ==>
            var c := Command(s.phase[i].tag, i);
            c in s.pending || c in s.inbox)
  }

  /** Answers went to those who asked, once each. */
  ghost predicate DeliveriesRight(s: State) {
    forall n: nat {:trigger Look(n)} :: Look(n) ==>
      && (forall k :: 0 <= k < |s.delivered| ==>
            s.delivered[k].0 == s.delivered[k].1 && s.At(s.delivered[k].0) == Done(true))
      && (forall k, l :: 0 <= k < l < |s.delivered| ==> s.delivered[k].0 != s.delivered[l].0)
      && (forall i :: i in s.phase && s.phase[i] == Done(true) ==> (i, i) in s.delivered)
  }

  ghost predicate Inv(s: State) {
    TagsDistinct(s) && BitsAreTags(s) && SendersMatch(s) && WireMatches(s) && DeliveriesRight(s)
  }

  ghost function Start(): State {
    State(0, 0, map[], map[], {}, [], Ready, [])
  }

  lemma StartInv()
    ensures Inv(Start())
  {
    NoBits(0);
  }

  lemma ClaimedBits(s: State, s2: State, i: nat, t: nat)
    requires TagsDistinct(s) && BitsAreTags(s) && t !in Taken(s.lo, s.hi)
    requires Taken(s2.lo, s2.hi) == Taken(s.lo, s.hi) + {t}
    requires s2.phase == s.phase[i := Claimed(t)] && s2.recv == s.recv && HeldTag(s.At(i)).None?
    ensures TagsDistinct(s2) && BitsAreTags(s2)
  {
    assert Look(0);
    forall u: nat | u in Taken(s2.lo, s2.hi) && s.recv != Freeing(u)
      ensures HeldBySome(s2, u)
    {
      if u == t {
        assert HeldTag(s2.phase[i]) == Some(t);
      } else {
        var j :| j in s.phase && HeldTag(s.phase[j]) == Some(u);
        assert s2.phase[j] == s.phase[j];
      }
    }
  }

  /** A submitter moving between phases that are not on the wire. */
  lemma OffWireKept(s: State, s2: State, i: nat, p: Phase)
    requires WireMatches(s) && s2.pending == s.pending && s2.inbox == s.inbox
    requires s2.phase == s.phase[i := p] && !OnWire(s.At(i)) && !OnWire(p)
    ensures WireMatches(s2)
  {
    assert Look(0);
    forall c | Live(s, c)
      ensures Live(s2, c)
    {
    }
  }

  /** A submitter moving between phases that have no sender stored. */
  lemma UnregisteredKept(s: State, s2: State, i: nat, p: Phase)
    requires SendersMatch(s) && s2.completions == s.completions
    requires s2.phase == s.phase[i := p] && !Registered(s.At(i)) && !Registered(p)
    ensures SendersMatch(s2)
  {
    assert Look(0);
  }

  lemma ClaimKeeps(s: State, i: nat, t: nat, lo: word, hi: word)
    requires Inv(s) && t !in Taken(s.lo, s.hi)
    requires Taken(lo, hi) == Taken(s.lo, s.hi) + {t}
    requires s.At(i).LoadedLo? || s.At(i).LoadedHi?
    ensures Inv(s.(lo := lo, hi := hi, phase := s.phase[i := Claimed(t)]))
  {
    var s2 := s.(lo := lo, hi := hi, phase := s.phase[i := Claimed(t)]);
    ClaimedBits(s, s2, i, t);
    UnregisteredKept(s, s2, i, Claimed(t));
    OffWireKept(s, s2, i, Claimed(t));
    DeliveriesKept(s, s2, i, Claimed(t));
  }

  /** A submitter that moves between phases holding the same tag, or none, changes nothing about the bits. */
  lemma SameTagKept(s: State, s2: State, i: nat, p: Phase)
    requires TagsDistinct(s) && BitsAreTags(s) && HeldTag(p) == HeldTag(s.At(i))
    requires s2.phase == s.phase[i := p] && s2.lo == s.lo && s2.hi == s.hi && s2.recv == s.recv
    ensures TagsDistinct(s2) && BitsAreTags(s2)
  {
    assert Look(0);
    forall t: nat | HeldBySome(s, t)
      ensures HeldBySome(s2, t)
    {
      var j :| j in s.phase && HeldTag(s.phase[j]) == Some(t);
      assert HeldTag(s2.phase[j]) == Some(t);
    }
  }

  lemma LocalKeeps(s: State, i: nat, p: Phase)
    requires Inv(s) && HeldTag(s.At(i)).None? && HeldTag(p).None? && !s.At(i).Done? && !p.Done?
    ensures Inv(s.(phase := s.phase[i := p]))
  {
    var s2 := s.(phase := s.phase[i := p]);
    SameTagKept(s, s2, i, p);
    UnregisteredKept(s, s2, i, p);
    OffWireKept(s, s2, i, p);
    DeliveriesKept(s, s2, i, p);
  }

  lemma DeliveriesKept(s: State, s2: State, i: nat, p: Phase)
    requires DeliveriesRight(s) && s2.delivered == s.delivered && s2.phase == s.phase[i := p]
    requires !s.At(i).Done? && !p.Done?
    ensures DeliveriesRight(s2)
  {
    assert Look(0);
  }

  lemma StoreKeeps(s: State, i: nat)
    requires Inv(s) && s.At(i).Claimed?
    ensures Inv(Next(s, Store(i)))
  {
    var s2, p := Next(s, Store(i)), Stored(s.At(i).tag);
    SameTagKept(s, s2, i, p);
    DeliveriesKept(s, s2, i, p);
    StoredSender(s, s2, i, s.At(i).tag);
    OffWireKept(s, s2, i, p);
  }

  lemma StoredSender(s: State, s2: State, i: nat, t: nat)
    requires TagsDistinct(s) && SendersMatch(s) && s.At(i) == Claimed(t)
    requires s2.phase == s.phase[i := Stored(t)] && s2.completions == s.completions[t := i]
    ensures SendersMatch(s2)
  {
    assert Look(0);
    assert HeldTag(s.phase[i]) == Some(t);
    forall j | j in s.phase && j != i && Registered(s.phase[j])
      ensures s.phase[j].tag != t
    {
      assert HeldTag(s.phase[j]) == Some(s.phase[j].tag);
    }
  }

  lemma SendKeeps(s: State, i: nat)
    requires Inv(s) && s.At(i).Stored?
    ensures Inv(Next(s, Send(i)))
  {
    var s2, p := Next(s, Send(i)), Sent(s.At(i).tag);
    SameTagKept(s, s2, i, p);
    DeliveriesKept(s, s2, i, p);
    SendersKept(s, s2, i, p);
    SentOnWire(s, s2, i, s.At(i).tag);
  }

  lemma SendersKept(s: State, s2: State, i: nat, p: Phase)
    requires SendersMatch(s) && Registered(s.At(i)) && Registered(p) && p.tag == s.At(i).tag
    requires s2.phase == s.phase[i := p] && s2.completions == s.completions
    ensures SendersMatch(s2)
  {
    assert Look(0);
  }

  lemma SentOnWire(s: State, s2: State, i: nat, t: nat)
    requires WireMatches(s) && s.At(i) == Stored(t)
    requires s2.phase == s.phase[i := Sent(t)] && s2.inbox == s.inbox && s2.pending == s.pending + {Command(t, i)}
    ensures WireMatches(s2)
  {
    assert Look(0);
    forall k | 0 <= k < |s.inbox|
      ensures s.inbox[k] != Command(t, i)
    {
      assert Live(s, s.inbox[k]);
    }
  }

  lemma StillOnWire(s: State, s2: State, i: nat, p: Phase)
    requires WireMatches(s) && OnWire(s.At(i)) && OnWire(p) && p.tag == s.At(i).tag
    requires s2.phase == s.phase[i := p] && s2.inbox == s.inbox && s2.pending == s.pending
    ensures WireMatches(s2)
  {
    assert Look(0);
    forall c | Live(s, c)
      ensures Live(s2, c)
    {
    }
  }

  lemma TimeOutKeeps(s: State, i: nat)
    requires Inv(s) && s.At(i).Sent?
    ensures Inv(Next(s, TimeOut(i)))
  {
    var s2, p := Next(s, TimeOut(i)), GaveUp(s.At(i).tag);
    SameTagKept(s, s2, i, p);
    DeliveriesKept(s, s2, i, p);
    SendersKept(s, s2, i, p);
    StillOnWire(s, s2, i, p);
  }

  lemma SamePhasesKept(s: State, s2: State)
    requires s2.phase == s.phase && s2.completions == s.completions && s2.delivered == s.delivered
    requires SendersMatch(s) && DeliveriesRight(s)
    ensures SendersMatch(s2) && DeliveriesRight(s2)
    ensures forall t: nat :: HeldBySome(s, t) ==> HeldBySome(s2, t)
    ensures forall c :: Live(s, c) ==> Live(s2, c)
  {
  }

  lemma SameWireKept(s: State, s2: State)
    requires WireMatches(s) && s2.phase == s.phase && s2.pending == s.pending && s2.inbox == s.inbox
    ensures WireMatches(s2)
  {
    assert Look(0);
    assert forall c :: Live(s, c) ==> Live(s2, c);
  }

  lemma AnswerOnWire(s: State, s2: State, c: Command)
    requires WireMatches(s) && c in s.pending && s2.phase == s.phase
    requires s2.pending == s.pending - {c} && s2.inbox == s.inbox + [c]
    ensures WireMatches(s2)
  {
    assert Look(0);
    assert s2.inbox[|s.inbox|] == c;
    forall d | d in s.inbox
      ensures d in s2.inbox
    {
      var k :| 0 <= k < |s.inbox| && s.inbox[k] == d;
      assert s2.inbox[k] == d;
    }
    assert forall d :: Live(s, d) ==> Live(s2, d);
  }

  lemma AnswerKeeps(s: State, c: Command)
    requires Inv(s) && c in s.pending
    ensures Inv(Next(s, Answer(c)))
  {
    var s2 := Next(s, Answer(c));
    SamePhasesKept(s, s2);
    AnswerOnWire(s, s2, c);
  }

  /** The answer at the head of the inbox belongs to whoever's sender is stored under its tag. */
  lemma HeadOwner(s: State)
    requires Inv(s) && Enabled(s, Take)
    ensures var c := s.inbox[0];
      Live(s, c) && c.tag in s.completions && s.completions[c.tag] == c.owner && (s.At(c.owner).Sent? || s.At(c.owner).GaveUp?)
  {
    assert Look(0);
    assert Live(s, s.inbox[0]);
  }

  lemma TakeTags(s: State, s2: State, w: nat, t: nat, p: Phase)
    requires TagsDistinct(s) && BitsAreTags(s) && s.recv.Ready? && s2.recv == Freeing(t)
    requires HeldTag(s.At(w)) == Some(t) && HeldTag(p).None?
    requires s2.phase == s.phase[w := p] && s2.lo == s.lo && s2.hi == s.hi
    ensures TagsDistinct(s2) && BitsAreTags(s2)
  {
    assert Look(0);
    forall u: nat | HeldBySome(s, u) && u != t
      ensures HeldBySome(s2, u)
    {
      var j :| j in s.phase && HeldTag(s.phase[j]) == Some(u);
      assert s2.phase[j] == s.phase[j];
    }
  }

  lemma TakeSenders(s: State, s2: State, w: nat, t: nat, p: Phase)
    requires SendersMatch(s) && Registered(s.At(w)) && s.At(w).tag == t && !Registered(p)
    requires s2.phase == s.phase[w := p] && s2.completions == s.completions - {t}
    ensures SendersMatch(s2)
  {
    assert Look(0);
  }

  lemma TakeWire(s: State, s2: State, c: Command, p: Phase)
    requires WireMatches(s) && s.inbox != [] && c == s.inbox[0] && OnWire(s.At(c.owner)) && !OnWire(p)
    requires s2.phase == s.phase[c.owner := p] && s2.pending == s.pending && s2.inbox == s.inbox[1..]
    ensures WireMatches(s2)
  {
    assert Look(0);
    forall d | Live(s, d) && d != c
      ensures Live(s2, d)
    {
      assert d.owner == c.owner ==> d == c by {
        assert Live(s, c);
      }
    }
    assert forall k :: 0 <= k < |s2.inbox| ==> s2.inbox[k] == s.inbox[k + 1];
    forall i | i in s2.phase && OnWire(s2.phase[i])
      ensures Command(s2.phase[i].tag, i) in s2.pending || Command(s2.phase[i].tag, i) in s2.inbox
    {
      var d := Command(s.phase[i].tag, i);
      if d in s.inbox {
        var k :| 0 <= k < |s.inbox| && s.inbox[k] == d;
        assert s2.inbox[k - 1] == d;
      }
    }
  }

  lemma TakeDelivery(s: State, s2: State, w: nat, p: Phase)
    requires DeliveriesRight(s) && !s.At(w).Done? && (p == Done(true) || p == Done(false))
    requires s2.phase == s.phase[w := p]
    requires s2.delivered == if p.received then s.delivered + [(w, w)] else s.delivered
    ensures DeliveriesRight(s2)
  {
    if p.received {
      DeliveredMore(s, s2, w);
    } else {
      assert Look(0);
    }
  }

  lemma DeliveredMore(s: State, s2: State, w: nat)
    requires DeliveriesRight(s) && !s.At(w).Done?
    requires s2.phase == s.phase[w := Done(true)] && s2.delivered == s.delivered + [(w, w)]
    ensures DeliveriesRight(s2)
  {
    assert Look(0);
    assert s2.delivered[|s.delivered|] == (w, w);
    forall i | i in s2.phase && s2.phase[i] == Done(true)
      ensures (i, i) in s2.delivered
    {
      if i != w {
        var k :| 0 <= k < |s.delivered| && s.delivered[k] == (i, i);
        assert s2.delivered[k] == (i, i);
      }
    }
  }

  function AfterTaking(s: State, c: Command, p: Phase): State
    requires s.inbox != []
  {
    s.(inbox := s.inbox[1..], completions := s.completions - {c.tag}, recv := Freeing(c.tag),
       phase := s.phase[c.owner := p],
       delivered := if p == Done(true) then s.delivered + [(c.owner, c.owner)] else s.delivered)
  }

  lemma TakenKeeps(s: State, c: Command, p: Phase)
    requires Inv(s) && s.recv.Ready? && s.inbox != [] && c == s.inbox[0]
    requires OnWire(s.At(c.owner)) && s.At(c.owner).tag == c.tag && (p == Done(true) || p == Done(false))
    ensures Inv(AfterTaking(s, c, p))
  {
    var s2 := AfterTaking(s, c, p);
    assert TagsDistinct(s2) && BitsAreTags(s2) by {
      TakeTags(s, s2, c.owner, c.tag, p);
    }
    assert SendersMatch(s2) by {
      TakeSenders(s, s2, c.owner, c.tag, p);
    }
    assert WireMatches(s2) by {
      TakeWire(s, s2, c, p);
    }
    assert DeliveriesRight(s2) by {
      TakeDelivery(s, s2, c.owner, p);
    }
  }

  lemma TakeKeeps(s: State)
    requires Inv(s) && Enabled(s, Take)
    ensures Inv(Next(s, Take))
  {
    HeadOwner(s);
    var c := s.inbox[0];
    var p := Done(s.At(c.owner).Sent?);
    assert Next(s, Take) == AfterTaking(s, c, p);
    TakenKeeps(s, c, p);
  }

  lemma FreedBits(s: State, s2: State, t: nat)
    requires TagsDistinct(s) && BitsAreTags(s) && s.recv == Freeing(t) && s2.recv == Ready
    requires s2.phase == s.phase && Taken(s2.lo, s2.hi) == Taken(s.lo, s.hi) - {t}
    ensures TagsDistinct(s2) && BitsAreTags(s2)
  {
    assert Look(0);
    assert forall u: nat :: HeldBySome(s, u) ==> HeldBySome(s2, u);
  }

  lemma FreedKeeps(s: State, t: nat, lo: word, hi: word)
    requires Inv(s) && s.recv == Freeing(t) && Taken(lo, hi) == Taken(s.lo, s.hi) - {t}
    ensures Inv(s.(lo := lo, hi := hi, recv := Ready))
  {
    var s2 := s.(lo := lo, hi := hi, recv := Ready);
    FreedBits(s, s2, t);
    SamePhasesKept(s, s2);
    SameWireKept(s, s2);
  }

  lemma FreedTaken(lo: word, hi: word, t: nat)
    requires t < 128
    ensures Taken(if t < 64 then ClearBit(lo, t) else lo, if t < 64 then hi else ClearBit(hi, t - 64)) == Taken(lo, hi) - {t}
  {
    if t < 64 {
      BitsOfClear(lo, t);
    } else {
      BitsOfClear(hi, t - 64);
    }
  }

  lemma FreeKeeps(s: State)
    requires Inv(s) && Enabled(s, Free)
    ensures Inv(Next(s, Free))
  {
    var t := s.recv.tag;
    FreedTaken(s.lo, s.hi, t);
    FreedKeeps(s, t, if t < 64 then ClearBit(s.lo, t) else s.lo, if t < 64 then s.hi else ClearBit(s.hi, t - 64));
  }

  lemma LoClaimKeeps(s: State, i: nat, b: nat, lo: word)
    requires Inv(s) && s.At(i).LoadedLo? && b !in Taken(s.lo, s.hi) && Taken(lo, s.hi) == Taken(s.lo, s.hi) + {b}
    ensures Inv(s.(lo := lo, phase := s.phase[i := Claimed(b)]))
  {
    ClaimKeeps(s, i, b, lo, s.hi);
  }

  lemma SwapLoKeeps(s: State, i: nat, spurious: bool)
    requires Inv(s) && s.At(i).LoadedLo?
    ensures Inv(Next(s, SwapLo(i, spurious)))
  {
    var b := FreeBit(s.lo);
    if s.At(i).snap == s.lo && !spurious && b < 64 {
      LowestInLo(s.lo, s.hi, b);
      LoClaimKeeps(s, i, b, SetBit(s.lo, b));
    } else {
      LocalKeeps(s, i, Idle);
    }
  }

  lemma SwapLoIs(s: State, i: nat, spurious: bool)
    requires s.At(i).LoadedLo?
    ensures var snap := s.At(i).snap;
      var b := FreeBit(snap);
      Next(s, SwapLo(i, spurious)) ==
        if snap == s.lo && !spurious && b < 64
        then s.(lo := SetBit(snap, b), phase := s.phase[i := Claimed(b)])
        else s.(phase := s.phase[i := Idle])
  {
  }

  lemma SwapHiIs(s: State, i: nat, spurious: bool)
    requires s.At(i).LoadedHi?
    ensures var snap := s.At(i).snap;
      var b := FreeBit(snap);
      Next(s, SwapHi(i, spurious)) ==
        if snap == s.hi && !spurious && b < 64
        then s.(hi := SetBit(snap, b), phase := s.phase[i := Claimed(64 + b)])
        else s.(phase := s.phase[i := TryHi])
  {
  }

  lemma FreeIs(s: State, t: nat)
    requires s.recv == Freeing(t) && t < 128
    ensures Next(s, Free) ==
      if t < 64 then s.(lo := ClearBit(s.lo, t), recv := Ready) else s.(hi := ClearBit(s.hi, t - 64), recv := Ready)
  {
  }

  lemma SwappedHiKeeps(s: State, i: nat, claimed: bool, b: nat, hi: word, s2: State)
    requires Inv(s) && s.At(i).LoadedHi?
    requires claimed ==> 64 + b !in Taken(s.lo, s.hi) && Taken(s.lo, hi) == Taken(s.lo, s.hi) + {64 + b}
    requires s2 == if claimed then s.(hi := hi, phase := s.phase[i := Claimed(64 + b)])
                   else s.(phase := s.phase[i := TryHi])
    ensures Inv(s2)
  {
    if claimed {
      ClaimKeeps(s, i, 64 + b, s.lo, hi);
    } else {
      LocalKeeps(s, i, TryHi);
    }
  }

  lemma SwapHiKeeps(s: State, i: nat, spurious: bool)
    requires Inv(s) && s.At(i).LoadedHi?
    ensures Inv(Next(s, SwapHi(i, spurious)))
  {
    SwapHiIs(s, i, spurious);
    var b := FreeBit(s.hi);
    if b < 64 {
      LowestInHi(s.lo, s.hi, b);
      SwappedHiKeeps(s, i, s.At(i).snap == s.hi && !spurious, b, SetBit(s.hi, b), Next(s, SwapHi(i, spurious)));
    } else {
      SwappedHiKeeps(s, i, false, b, s.hi, Next(s, SwapHi(i, spurious)));
    }
  }

  lemma StepKeeps(s: State, a: Action)
    requires Inv(s) && Enabled(s, a)
    ensures Inv(Next(s, a))
  {
    match a
    case LoadLo(i) => LocalKeeps(s, i, if FreeBit(s.lo) < 64 then LoadedLo(s.lo) else TryHi);
    case SwapLo(i, spurious) => SwapLoKeeps(s, i, spurious);
    case LoadHi(i) => LocalKeeps(s, i, if FreeBit(s.hi) < 64 then LoadedHi(s.hi) else Idle);
    case SwapHi(i, spurious) => SwapHiKeeps(s, i, spurious);
    case Store(i) => StoreKeeps(s, i);
    case Send(i) => SendKeeps(s, i);
    case TimeOut(i) => TimeOutKeeps(s, i);
    case Answer(c) => AnswerKeeps(s, c);
    case Take => TakeKeeps(s);
    case Free => FreeKeeps(s);
  }

  // -- Runs ------------------------------------------------------------------

  /** `s` is reached from the empty pool by some interleaving of the actions. */
  ghost predicate Reaches(actions: seq<Action>, s: State)
    decreases |actions|
  {
    if actions == [] then s == Start()
    else
      var front, last := actions[..|actions| - 1], actions[|actions| - 1];
      exists before: State :: Reaches(front, before) && Does(before, last, s)
  }

  ghost predicate Does(before: State, a: Action, after: State) {
    forall n: nat {:trigger Look(n)} :: Look(n) ==> Enabled(before, a) && after == Next(before, a)
  }

  lemma LastStep(actions: seq<Action>, s: State) returns (before: State)
    requires actions != [] && Reaches(actions, s)
    ensures var front, last := actions[..|actions| - 1], actions[|actions| - 1];
      Reaches(front, before) && Enabled(before, last) && s == Next(before, last)
  {
    var front, last := actions[..|actions| - 1], actions[|actions| - 1];
    before :| Reaches(front, before) && Does(before, last, s);
    StepDone(before, actions[|actions| - 1], s);
  }

  lemma StepDone(before: State, a: Action, after: State)
    requires Does(before, a, after)
    ensures Enabled(before, a) && after == Next(before, a)
  {
    assert Look(0);
  }

  lemma {:induction false} ReachableInv(actions: seq<Action>, s: State)
    requires Reaches(actions, s)
    ensures Inv(s)
    decreases |actions|
  {
    if actions == [] {
      StartInv();
    } else {
      var before := LastStep(actions, s);
      ReachableInv(actions[..|actions| - 1], before);
      StepKeeps(before, actions[|actions| - 1]);
    }
  }

  /** Over all interleavings: tags of live commands differ and lie below 128, the set bits are exactly
      the live tags and the one being freed, and every answer handed over is to the receiver's own
      command, nobody being handed two. */
  lemma TagSafety(actions: seq<Action>, s: State)
    requires Reaches(actions, s)
    ensures forall i :: i in s.phase && HeldTag(s.phase[i]).Some? ==> HeldTag(s.phase[i]).value < 128
    ensures forall i, j :: i in s.phase && j in s.phase && i != j && HeldTag(s.phase[i]).Some? ==>
      HeldTag(s.phase[i]) != HeldTag(s.phase[j])
    ensures forall t :: t in Taken(s.lo, s.hi) <==> HeldBySome(s, t) || s.recv == Freeing(t)
    ensures forall k :: 0 <= k < |s.delivered| ==> s.delivered[k].0 == s.delivered[k].1
    ensures forall k, l :: 0 <= k < l < |s.delivered| ==> s.delivered[k].0 != s.delivered[l].0
  {
    assert Look(0);
    ReachableInv(actions, s);
  }

  predicate HasSent(p: Phase) {
    p.Sent? || p.GaveUp? || p.Done?
  }

  predicate HasLeft(p: Phase) {
    p.GaveUp? || p == Done(false)
  }

  /** The answer at the head of the inbox is for a submitter that has sent and is owed it. */
  ghost predicate HeadIsOwed(s: State) {
    s.inbox != [] && var c := s.inbox[0];
      c.tag in s.completions && s.completions[c.tag] == c.owner && (s.At(c.owner).Sent? || s.At(c.owner).GaveUp?)
  }

  /** A submitter comes to have sent by sending, and to have left by giving up, and by nothing else. */
  lemma TakeMoves(s: State, i: nat)
    requires Enabled(s, Take) && HeadIsOwed(s)
    ensures HasSent(Next(s, Take).At(i)) <==> HasSent(s.At(i))
    ensures HasLeft(Next(s, Take).At(i)) <==> HasLeft(s.At(i))
  {
  }

  lemma OtherMoves(s: State, a: Action, i: nat)
    requires Enabled(s, a) && !a.Take?
    ensures HasSent(Next(s, a).At(i)) <==> HasSent(s.At(i)) || a == Send(i)
    ensures HasLeft(Next(s, a).At(i)) <==> HasLeft(s.At(i)) || a == TimeOut(i)
  {
  }

  lemma ReachableHead(actions: seq<Action>, s: State)
    requires Reaches(actions, s) && Enabled(s, Take)
    ensures HeadIsOwed(s)
  {
    ReachableInv(actions, s);
    HeadOwner(s);
  }

  lemma InSnoc(front: seq<Action>, last: Action, a: Action)
    ensures a in front + [last] <==> a in front || a == last
  {
  }

  /** In every run a submitter's phase tells whether it has sent and whether it has given up. */
  lemma {:induction false} PhaseTells(actions: seq<Action>, s: State, i: nat)
    requires Reaches(actions, s)
    ensures HasSent(s.At(i)) <==> Send(i) in actions
    ensures HasLeft(s.At(i)) <==> TimeOut(i) in actions
    decreases |actions|
  {
    if actions != [] {
      var front, last := actions[..|actions| - 1], actions[|actions| - 1];
      var before := LastStep(actions, s);
      PhaseTells(front, before, i);
      assert actions == front + [last];
      InSnoc(front, last, Send(i));
      InSnoc(front, last, TimeOut(i));
      if last.Take? {
        ReachableHead(front, before);
        TakeMoves(before, i);
      } else {
        OtherMoves(before, last, i);
      }
    }
  }

  /** `x` is at one place of the sequence and at no other. */
  ghost predicate Once<T>(s: seq<T>, x: T) {
    exists k :: IsOnlyAt(s, x, k)
  }

  ghost predicate IsOnlyAt<T>(s: seq<T>, x: T, k: nat) {
    k < |s| && s[k] == x && forall l :: 0 <= l < |s| && s[l] == x ==> l == k
  }

  lemma DeliveredOnce(s: State, i: nat)
    requires DeliveriesRight(s) && (i, i) in s.delivered
    ensures Once(s.delivered, (i, i))
  {
    assert Look(0);
    var k :| 0 <= k < |s.delivered| && s.delivered[k] == (i, i);
    assert IsOnlyAt(s.delivered, (i, i), k);
  }

  /** Once the target has answered everything and the receiver is idle: whoever sent and did not give up has been
      handed the answer to its own command exactly once, whoever gave up has ended without one, nobody else has
      been handed anything, and only commands not yet sent hold tags. */
  lemma EveryoneAnswered(actions: seq<Action>, s: State, i: nat)
    requires Reaches(actions, s)
    requires s.pending == {} && s.inbox == [] && s.recv.Ready?
    ensures Send(i) in actions && TimeOut(i) !in actions ==> Once(s.delivered, (i, i))
    ensures (i, i) in s.delivered ==> Send(i) in actions && TimeOut(i) !in actions
    ensures s.At(i) == Done(true) <==> (i, i) in s.delivered
    ensures s.At(i) == Done(false) <==> TimeOut(i) in actions
    ensures forall t :: t in Taken(s.lo, s.hi) ==> HeldUnsent(s, t)
  {
    ReachableInv(actions, s);
    PhaseTells(actions, s, i);
    NobodyOnWire(s, i);
    DoneIsDelivered(s, i);
    if s.At(i) == Done(true) {
      DeliveredOnce(s, i);
    }
    forall t | t in Taken(s.lo, s.hi)
      ensures HeldUnsent(s, t)
    {
      TakenIsUnsent(s, t);
    }
  }

  lemma NobodyOnWire(s: State, i: nat)
    requires WireMatches(s) && s.pending == {} && s.inbox == []
    ensures !OnWire(s.At(i))
  {
    assert Look(0);
  }

  lemma DoneIsDelivered(s: State, i: nat)
    requires DeliveriesRight(s)
    ensures s.At(i) == Done(true) <==> (i, i) in s.delivered
  {
    assert Look(0);
  }

  /** Somebody has claimed the tag and not sent yet. */
  ghost predicate HeldUnsent(s: State, t: nat) {
    exists j :: j in s.phase && (s.phase[j] == Claimed(t) || s.phase[j] == Stored(t))
  }

  lemma TakenIsUnsent(s: State, t: nat)
    requires BitsAreTags(s) && WireMatches(s) && s.pending == {} && s.inbox == [] && s.recv.Ready?
    requires t in Taken(s.lo, s.hi)
    ensures HeldUnsent(s, t)
  {
    assert Look(0);
    var j :| j in s.phase && HeldTag(s.phase[j]) == Some(t);
    NobodyOnWire(s, j);
    assert s.phase[j] == Claimed(t) || s.phase[j] == Stored(t);
  }
}
