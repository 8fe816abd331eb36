/** The command window: submitters that check CmdSN against MaxCmdSN and then, in a separate step,
    take the next CmdSN (iscsi/session.rs). */
module CmdWindow {
  import opened Bytes
  import opened Sets
  import Pdu

  // -- Serial number arithmetic ----------------------------------------------

  const HALF := 0x8000_0000

  function WrappingSub(a: u32, b: u32): u32 {
    (a - b) % TWO32
  }

  predicate SerialLe(a: u32, b: u32) {
    a == b || (0 < WrappingSub(b, a) < HALF)
  }

  /** On counters kept in 32 bits the comparison sees only the distance, modulo 2^32. */
  lemma SerialLeSeesDistance(x: nat, y: nat)
    ensures SerialLe(x % TWO32, y % TWO32) <==> (y - x) % TWO32 < HALF
  {
    SameDistance(x, y);
  }

  lemma SameDistance(x: nat, y: nat)
    ensures (y - x) % TWO32 == WrappingSub(y % TWO32, x % TWO32)
  {
    var a, b := x % TWO32, y % TWO32;
    var p, q := x / TWO32, y / TWO32;
    assert y - x == (q - p) * TWO32 + (b - a);
  }

  /** While the counters are less than 2^31 apart the comparison is theirs. */
  lemma SerialLeAgrees(x: nat, y: nat)
    requires -HALF <= y - x < HALF
    ensures SerialLe(x % TWO32, y % TWO32) <==> x <= y
  {
    SerialLeSeesDistance(x, y);
  }

  lemma SerialLeSound(x: nat, y: nat)
    requires y - x >= -HALF && SerialLe(x % TWO32, y % TWO32)
    ensures x <= y
  {
    SerialLeSeesDistance(x, y);
  }

  // -- The submitters --------------------------------------------------------

  datatype Phase =
    | Idle
    | Loaded(cmd: nat) // has read the CmdSN word
    | Checked          // found it inside the window; waits for a tag, then takes a number

  /** A CmdSN as it was stamped on a command, and MaxCmdSN at that moment. */
  datatype Stamp = Stamp(cmdSn: nat, max: nat)

  /** The counters are kept unbounded; the machine has them modulo 2^32. */
  datatype State = State(cmd: nat, max: nat, phase: seq<Phase>, stamps: seq<Stamp>)

  datatype Action =
    | Load(i: nat)
    | Check(i: nat)
    | Take(i: nat)
    | Raise(max: nat) // a PDU from the target carries a MaxCmdSN

  ghost predicate Enabled(s: State, a: Action) {
    match a
    case Load(i) => i < |s.phase| && s.phase[i].Idle?
    case Check(i) => i < |s.phase| && s.phase[i].Loaded?
    case Take(i) => i < |s.phase| && s.phase[i].Checked?
    case Raise(max) => s.max <= max
  }

  ghost function Next(s: State, a: Action): State
    requires Enabled(s, a)
  {
    match a
    case Load(i) => s.(phase := s.phase[i := Loaded(s.cmd)])
    case Check(i) =>
      s.(phase := s.phase[i := if SerialLe(s.phase[i].cmd % TWO32, s.max % TWO32) then Checked else Idle])
    case Take(i) =>
      s.(cmd := s.cmd + 1, phase := s.phase[i := Idle], stamps := s.stamps + [Stamp(s.cmd, s.max)])
    case Raise(max) => s.(max := max)
  }

  /** A new session: the window holds just the first number. */
  ghost function Start(k: nat, first: nat): State {
    State(first, first, seq(k, _ => Idle), [])
  }

  ghost predicate Reaches(k: nat, first: nat, actions: seq<Action>, s: State)
    decreases |actions|
  {
    if actions == [] then s == Start(k, first)
    else
      var front, last := actions[..|actions| - 1], actions[|actions| - 1];
      exists before: State :: Reaches(k, first, front, before) && Enabled(before, last) && s == Next(before, last)
  }

  /** The session's counters as the machine keeps them. Each atomic access is a method; the methods that one
      submitter calls one after another interleave with those of others, as the actions above do. */
  class SessionState {
    var cmdSn: u32
    var expStatSn: u32
    var expCmdSn: u32
    var maxCmdSn: u32

    /** The words are the unbounded counters modulo 2^32. */
    ghost predicate Shows(s: State)
      reads this
    {
      cmdSn == s.cmd % TWO32 && maxCmdSn == s.max % TWO32
    }

    constructor (initialCmdSn: u32, initialExpStatSn: u32)
      ensures forall k :: Shows(Start(k, initialCmdSn))
      ensures expStatSn == initialExpStatSn && expCmdSn == initialCmdSn
    {
      cmdSn, expStatSn, expCmdSn, maxCmdSn := initialCmdSn, initialExpStatSn, initialCmdSn, initialCmdSn;
    }

    /** The first half of the window check. */
    method LoadCmdSn(ghost s: State, ghost i: nat) returns (cmd: u32)
      requires Shows(s) && Enabled(s, Load(i))
      ensures Shows(Next(s, Load(i))) && cmd == Next(s, Load(i)).phase[i].cmd % TWO32
    {
      cmd := cmdSn;
    }

    /** The second half: the number loaded before against the ceiling of now. */
    method CheckMaxCmdSn(ghost s: State, ghost i: nat, cmd: u32) returns (inWindow: bool)
      requires Shows(s) && Enabled(s, Check(i)) && cmd == s.phase[i].cmd % TWO32
      ensures Shows(Next(s, Check(i))) && (inWindow <==> Next(s, Check(i)).phase[i].Checked?)
    {
      inWindow := SerialLe(cmd, maxCmdSn);
    }

    /** Takes the next number, wrapping, without another look at the window. */
    method TakeCmdSn(ghost s: State, ghost i: nat) returns (sn: u32)
      requires Shows(s) && Enabled(s, Take(i))
      modifies this`cmdSn
      ensures Shows(Next(s, Take(i))) && sn == Next(s, Take(i)).stamps[|s.stamps|].cmdSn % TWO32
    {
      sn := cmdSn;
      cmdSn := (cmdSn + 1) % TWO32;
    }

    /** Stores what a PDU of the target says, whatever was stored before. Where the ceiling its low 32 bits
        stand for has not fallen, that is the step of raising it. */
    method UpdateSequenceNumbers(bhs: Pdu.Header)
      modifies this`expStatSn, this`expCmdSn, this`maxCmdSn
      ensures expStatSn == (bhs.StatSn() + 1) % TWO32 && expCmdSn == bhs.ExpCmdSn() && maxCmdSn == bhs.MaxCmdSn()
      ensures forall s: State, max: nat ::
        old(Shows(s)) && Enabled(s, Raise(max)) && bhs.MaxCmdSn() == max % TWO32 ==> Shows(Next(s, Raise(max)))
    {
      expStatSn := (bhs.StatSn() + 1) % TWO32;
      expCmdSn := bhs.ExpCmdSn();
      maxCmdSn := bhs.MaxCmdSn();
    }
  }

  // -- Invariant -------------------------------------------------------------

  /** Would take a number if the ceiling were `m`. */
  predicate Committed(p: Phase, m: nat) {
    p.Checked? || (p.Loaded? && p.cmd <= m)
  }

  ghost function CommittedSet(phase: seq<Phase>, m: nat): (r: set<nat>)
    ensures |r| <= |phase|
    ensures forall i :: i in r <==> 0 <= i < |phase| && Committed(phase[i], m)
  {
    var r := set i: nat | i < |phase| && Committed(phase[i], m);
    SubsetSize(r, Below(|phase|));
    r
  }

  /** However far the ceiling is raised, those who would pass it fit under it with one number each to spare. */
  ghost predicate Bounded(s: State) {
    forall m :: s.max <= m ==> s.cmd + |CommittedSet(s.phase, m)| <= m + |s.phase|
  }

  ghost predicate Inv(s: State, k: nat, first: nat) {
    && |s.phase| == k
    && s.cmd == first + |s.stamps|
    && Bounded(s)
    && (forall i :: 0 <= i < k && s.phase[i].Loaded? ==> s.phase[i].cmd <= s.cmd)
    && (forall j :: 0 <= j < |s.stamps| ==>
          s.stamps[j].cmdSn == first + j && s.stamps[j].max <= s.max && s.stamps[j].cmdSn < s.stamps[j].max + k)
  }

  /** Moving one submitter changes the committed set by that submitter at most. */
  lemma CommittedMoved(phase: seq<Phase>, i: nat, p: Phase, m: nat)
    requires i < |phase|
    ensures var before, after := CommittedSet(phase, m), CommittedSet(phase[i := p], m);
      |after| == |before| + (if Committed(p, m) then 1 else 0) - (if Committed(phase[i], m) then 1 else 0)
  {
    var before, after := CommittedSet(phase, m), CommittedSet(phase[i := p], m);
    var rest := before - {i};
    assert after - {i} == rest;
    assert |before| == |rest| + if i in before then 1 else 0;
    assert |after| == |rest| + if i in after then 1 else 0;
  }

  lemma LoadKeeps(s: State, i: nat)
    requires Bounded(s) && Enabled(s, Load(i))
    ensures Bounded(Next(s, Load(i)))
  {
    forall m | s.max <= m
      ensures s.cmd + |CommittedSet(Next(s, Load(i)).phase, m)| <= m + |s.phase|
    {
      CommittedMoved(s.phase, i, Loaded(s.cmd), m);
    }
  }

  /** A passed check is passed by the unbounded counters too. */
  lemma CheckIsSound(s: State, k: nat, first: nat, i: nat)
    requires Inv(s, k, first) && k <= HALF && Enabled(s, Check(i))
    requires SerialLe(s.phase[i].cmd % TWO32, s.max % TWO32)
    ensures s.phase[i].cmd <= s.max
  {
    assert s.cmd + |CommittedSet(s.phase, s.max)| <= s.max + k;
    SerialLeSound(s.phase[i].cmd, s.max);
  }

  lemma CheckKeeps(s: State, k: nat, first: nat, i: nat)
    requires Inv(s, k, first) && k <= HALF && Enabled(s, Check(i))
    ensures Bounded(Next(s, Check(i)))
  {
    var p := Next(s, Check(i)).phase[i];
    if p.Checked? {
      CheckIsSound(s, k, first, i);
    }
    var phase2 := s.phase[i := p];
    forall m | s.max <= m
      ensures s.cmd + |CommittedSet(phase2, m)| <= m + |s.phase|
    {
      CommittedMoved(s.phase, i, p, m);
    }
  }

  lemma TakeKeeps(s: State, i: nat)
    requires Bounded(s) && Enabled(s, Take(i))
    ensures Bounded(Next(s, Take(i))) && s.cmd < s.max + |s.phase|
  {
    var phase2 := s.phase[i := Idle];
    forall m | s.max <= m
      ensures s.cmd + 1 + |CommittedSet(phase2, m)| <= m + |s.phase|
    {
      CommittedMoved(s.phase, i, Idle, m);
    }
    CommittedMoved(s.phase, i, Idle, s.max);
    assert s.cmd + |CommittedSet(s.phase, s.max)| <= s.max + |s.phase|;
  }

  lemma StepKeeps(s: State, k: nat, first: nat, a: Action)
    requires Inv(s, k, first) && k <= HALF && Enabled(s, a)
    ensures Inv(Next(s, a), k, first)
  {
    match a
    case Load(i) => LoadKeeps(s, i);
    case Check(i) => CheckKeeps(s, k, first, i);
    case Take(i) => TakeKeeps(s, i);
    case Raise(_) =>
  }

  lemma {:induction false} ReachableInv(k: nat, first: nat, actions: seq<Action>, s: State)
    requires k <= HALF && Reaches(k, first, actions, s)
    ensures Inv(s, k, first)
    decreases |actions|
  {
    if actions != [] {
      var front, last := actions[..|actions| - 1], actions[|actions| - 1];
      var before: State :| Reaches(k, first, front, before) && Enabled(before, last) && s == Next(before, last);
      ReachableInv(k, first, front, before);
      StepKeeps(before, k, first, last);
    }
  }

  // -- Theorems --------------------------------------------------------------

  /** In every run of `k` submitters the stamped numbers are consecutive, and none passes the MaxCmdSN
      of the moment, hence none later either, by more than k - 1. */
  lemma StampsStayNearWindow(k: nat, first: nat, actions: seq<Action>, s: State)
    requires k <= HALF && Reaches(k, first, actions, s)
    ensures s.cmd == first + |s.stamps|
    ensures forall j :: 0 <= j < |s.stamps| ==>
      s.stamps[j].cmdSn == first + j && s.stamps[j].cmdSn <= s.stamps[j].max + k - 1 && s.stamps[j].max <= s.max
  {
    ReachableInv(k, first, actions, s);
  }

  /** In every run, whoever has loaded a number less than 2^31 below the ceiling passes the 32-bit check
      exactly when the number is at or below the ceiling. */
  lemma CheckAgrees(k: nat, first: nat, actions: seq<Action>, s: State, i: nat)
    requires k <= HALF && Reaches(k, first, actions, s)
    requires Enabled(s, Check(i)) && s.max - s.phase[i].cmd < HALF
    ensures Next(s, Check(i)).phase[i].Checked? <==> s.phase[i].cmd <= s.max
  {
    ReachableInv(k, first, actions, s);
    assert s.cmd + |CommittedSet(s.phase, s.max)| <= s.max + k;
    SerialLeAgrees(s.phase[i].cmd, s.max);
  }

  // -- The bound is met ------------------------------------------------------

  /** Where `j` of the submitters have moved on and the others are still at `from`. */
  ghost function Moved(k: nat, j: nat, to: Phase, from: Phase): (phase: seq<Phase>)
    ensures |phase| == k
    ensures forall i :: 0 <= i < k ==> phase[i] == if i < j then to else from
  {
    seq(k, i => if i < j then to else from)
  }

  ghost function Burst(first: nat, n: nat): (stamps: seq<Stamp>)
    ensures |stamps| == n
    ensures forall j :: 0 <= j < n ==> stamps[j] == Stamp(first + j, first)
  {
    seq(n, j requires 0 <= j < n => Stamp(first + j, first))
  }

  lemma ReachesSnoc(k: nat, first: nat, actions: seq<Action>, s: State, a: Action)
    requires Reaches(k, first, actions, s) && Enabled(s, a)
    ensures Reaches(k, first, actions + [a], Next(s, a))
  {
    assert (actions + [a])[..|actions|] == actions;
  }

  lemma {:induction false} AllLoad(k: nat, first: nat, j: nat) returns (actions: seq<Action>)
    requires j <= k
    ensures Reaches(k, first, actions, State(first, first, Moved(k, j, Loaded(first), Idle), []))
  {
    actions := [];
    if j == 0 {
      assert Moved(k, 0, Loaded(first), Idle) == Start(k, first).phase;
    } else {
      actions := AllLoad(k, first, j - 1);
      var s := State(first, first, Moved(k, j - 1, Loaded(first), Idle), []);
      ReachesSnoc(k, first, actions, s, Load(j - 1));
      assert Next(s, Load(j - 1)).phase == Moved(k, j, Loaded(first), Idle);
      actions := actions + [Load(j - 1)];
    }
  }

  lemma {:induction false} AllCheck(k: nat, first: nat, j: nat) returns (actions: seq<Action>)
    requires j <= k
    ensures Reaches(k, first, actions, State(first, first, Moved(k, j, Checked, Loaded(first)), []))
  {
    if j == 0 {
      actions := AllLoad(k, first, k);
      assert Moved(k, 0, Checked, Loaded(first)) == Moved(k, k, Loaded(first), Idle);
    } else {
      actions := AllCheck(k, first, j - 1);
      var s := State(first, first, Moved(k, j - 1, Checked, Loaded(first)), []);
      ReachesSnoc(k, first, actions, s, Check(j - 1));
      assert Next(s, Check(j - 1)).phase == Moved(k, j, Checked, Loaded(first));
      actions := actions + [Check(j - 1)];
    }
  }

  lemma {:induction false} AllTake(k: nat, first: nat, j: nat) returns (actions: seq<Action>)
    requires j <= k
    ensures Reaches(k, first, actions, State(first + j, first, Moved(k, j, Idle, Checked), Burst(first, j)))
  {
    if j == 0 {
      actions := AllCheck(k, first, k);
      assert Moved(k, 0, Idle, Checked) == Moved(k, k, Checked, Loaded(first));
      assert Burst(first, 0) == [];
    } else {
      actions := AllTake(k, first, j - 1);
      var s := State(first + j - 1, first, Moved(k, j - 1, Idle, Checked), Burst(first, j - 1));
      ReachesSnoc(k, first, actions, s, Take(j - 1));
      assert Next(s, Take(j - 1)).phase == Moved(k, j, Idle, Checked);
      assert Next(s, Take(j - 1)).stamps == Burst(first, j);
      actions := actions + [Take(j - 1)];
    }
  }

  /** All load, all check, all take: the last of `k` commands is k - 1 past the window. */
  lemma BoundIsMet(k: nat, first: nat) returns (actions: seq<Action>, s: State)
    requires k > 0
    ensures Reaches(k, first, actions, s)
    ensures |s.stamps| == k && s.stamps[k - 1].cmdSn == s.stamps[k - 1].max + k - 1
  {
    actions := AllTake(k, first, k);
    s := State(first + k, first, Moved(k, k, Idle, Checked), Burst(first, k));
  }

  ghost predicate WindowRespected(k: nat, first: nat) {
    forall actions: seq<Action>, s: State, j: nat :: Reaches(k, first, actions, s) && j < |s.stamps| ==>
      s.stamps[j].cmdSn <= s.stamps[j].max
  }

  /** The window RFC 7143 section 4.2.2.1 asks for is respected in every run exactly when nobody submits concurrently. */
  lemma WindowRespectedIff(k: nat, first: nat)
    ensures WindowRespected(k, first) <==> k <= 1
  {
    if k <= 1 {
      forall actions: seq<Action>, s: State, j: nat | Reaches(k, first, actions, s) && j < |s.stamps|
        ensures s.stamps[j].cmdSn <= s.stamps[j].max
      {
        StampsStayNearWindow(k, first, actions, s);
      }
    } else {
      var actions, s := BoundIsMet(k, first);
      assert s.stamps[k - 1].cmdSn > s.stamps[k - 1].max;
    }
  }
}
