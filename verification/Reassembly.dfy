/** Read data put together from Data-In PDUs, per task tag (iscsi/session.rs). */
module Reassembly {
  import opened Bytes
  import opened Overlay
  import opened Wrappers

  // -- One buffer ------------------------------------------------------------

  function Grown(s: seq<byte>, n: nat): (r: seq<byte>)
    ensures |r| == Max(|s|, n)
  {
    if |s| < n then s + Zeros(n - |s|) else s
  }

  /** The buffer after data arrives for some offset of it, in place or past its end. */
  function Laid(buf: seq<byte>, p: Patch): (r: seq<byte>)
    ensures |r| == Max(|buf|, p.End())
  {
    Splice(Grown(buf, p.End()), p.at, p.data)
  }

  ghost function LaidAll(ps: seq<Patch>): seq<byte> {
    if ps == [] then [] else Laid(LaidAll(ps[..|ps| - 1]), ps[|ps| - 1])
  }

  lemma LaidAllSnoc(ps: seq<Patch>, p: Patch)
    ensures LaidAll(ps + [p]) == Laid(LaidAll(ps), p)
  {
    assert (ps + [p])[..|ps|] == ps;
  }

  /** Where the furthest patch ends. */
  ghost function Extent(ps: seq<Patch>): (n: nat)
    ensures Fit(ps, n)
  {
    if ps == [] then 0 else Max(Extent(ps[..|ps| - 1]), ps[|ps| - 1].End())
  }

  lemma ExtentIsLeast(ps: seq<Patch>, n: nat)
    requires Fit(ps, n)
    ensures Extent(ps) <= n
  {
  }

  lemma SpliceGrown(s: seq<byte>, at: nat, d: seq<byte>, n: nat)
    requires at + |d| <= |s|
    ensures Splice(Grown(s, n), at, d) == Grown(Splice(s, at, d), n)
  {
    var x, y := Splice(Grown(s, n), at, d), Grown(Splice(s, at, d), n);
    forall i | 0 <= i < |x|
      ensures x[i] == y[i]
    {
    }
  }

  /** Growing the buffer first or last comes to the same. */
  lemma {:induction false} ApplyGrown(s: seq<byte>, ps: seq<Patch>, n: nat)
    requires Fit(ps, |s|)
    ensures Fit(ps, Max(|s|, n))
    ensures ApplyAll(Grown(s, n), ps) == Grown(ApplyAll(s, ps), n)
  {
    if ps != [] {
      var front, last := ps[..|ps| - 1], ps[|ps| - 1];
      ApplyGrown(s, front, n);
      SpliceGrown(ApplyAll(s, front), last.at, last.data, n);
    }
  }

  /** Growing as the patches arrive gives what laying them over zeros of the full size does. */
  lemma {:induction false} LaidIsApplied(ps: seq<Patch>)
    ensures LaidAll(ps) == ApplyAll(Zeros(Extent(ps)), ps)
  {
    if ps == [] {
      assert Zeros(0) == [];
    } else {
      var front, last := ps[..|ps| - 1], ps[|ps| - 1];
      LaidIsApplied(front);
      ApplyGrown(Zeros(Extent(front)), front, last.End());
      assert Grown(Zeros(Extent(front)), last.End()) == Zeros(Extent(ps));
    }
  }

  /** Slices of one source in any sequence rebuild it exactly when the furthest one ends where it ends
      and every byte that none of them carries is zero. */
  lemma LaidRebuildsIff(ps: seq<Patch>, src: seq<byte>)
    requires SlicesOf(ps, src)
    ensures LaidAll(ps) == src <==> Extent(ps) == |src| && forall a :: 0 <= a < |src| ==> Covered(ps, a) || src[a] == 0
  {
    LaidIsApplied(ps);
    if Extent(ps) == |src| {
      SlicesRebuild(Zeros(|src|), ps, src);
    }
  }

  /** Whatever the source holds, its slices rebuild it exactly when they cover it. */
  lemma CoverRebuilds(ps: seq<Patch>, src: seq<byte>)
    requires SlicesOf(ps, src) && forall a :: 0 <= a < |src| ==> Covered(ps, a)
    ensures LaidAll(ps) == src
  {
    forall i | 0 <= i < |ps|
      ensures ps[i].End() <= |src|
    {
      assert ps[i].SliceOf(src);
    }
    ExtentIsLeast(ps, |src|);
    if |src| > 0 {
      assert Covered(ps, |src| - 1);
      var i :| 0 <= i < |ps| && ps[i].Covers(|src| - 1);
    }
    LaidRebuildsIff(ps, src);
  }

  // -- All tags --------------------------------------------------------------

  /** A PDU that carries read data, ends a command, or both. */
  datatype Arrival = Arrival(itt: u32, patch: Option<Patch>, final: bool)

  type Buffers = map<u32, seq<byte>>

  /** The buffers once the PDU's data is in. */
  function Accumulated(acc: Buffers, e: Arrival): Buffers {
    match e.patch
    case None => acc
    case Some(p) => acc[e.itt := Laid(if e.itt in acc then acc[e.itt] else [], p)]
  }

  /** What the response to the command carries. */
  function Answer(acc: Buffers, e: Arrival): Option<seq<byte>> {
    var with := Accumulated(acc, e);
    if e.itt in with then Some(with[e.itt]) else None
  }

  function After(acc: Buffers, e: Arrival): Buffers {
    if e.final then Accumulated(acc, e) - {e.itt} else Accumulated(acc, e)
  }

  ghost function AfterAll(es: seq<Arrival>): Buffers {
    if es == [] then map[] else After(AfterAll(es[..|es| - 1]), es[|es| - 1])
  }

  lemma AfterAllSnoc(es: seq<Arrival>, e: Arrival)
    ensures AfterAll(es + [e]) == After(AfterAll(es), e)
  {
    assert (es + [e])[..|es|] == es;
  }

  ghost function WithPatch(ps: seq<Patch>, e: Arrival): seq<Patch> {
    if e.patch.Some? then ps + [e.patch.value] else ps
  }

  /** The data of a tag's PDUs since its last command ended, other tags' PDUs left out. */
  ghost function History(es: seq<Arrival>, t: u32): seq<Patch> {
    if es == [] then []
    else
      var last, h := es[|es| - 1], History(es[..|es| - 1], t);
      if last.itt != t then h else if last.final then [] else WithPatch(h, last)
  }

  lemma BufferKept(acc: Buffers, h: seq<Patch>, e: Arrival, t: u32)
    requires t in acc <==> h != []
    requires t in acc ==> acc[t] == LaidAll(h)
    ensures var h2 := if e.itt != t then h else if e.final then [] else WithPatch(h, e);
      (t in After(acc, e) <==> h2 != []) && (t in After(acc, e) ==> After(acc, e)[t] == LaidAll(h2))
  {
    if e.itt == t && e.patch.Some? {
      LaidAllSnoc(h, e.patch.value);
    }
  }

  /** However the PDUs of different tags interleave, each tag's buffer is made of its own data alone,
      and a tag has one only while it has data of a command that has not ended. */
  lemma {:induction false} BuffersAreHistories(es: seq<Arrival>, t: u32)
    ensures t in AfterAll(es) <==> History(es, t) != []
    ensures t in AfterAll(es) ==> AfterAll(es)[t] == LaidAll(History(es, t))
  {
    if es != [] {
      var front, last := es[..|es| - 1], es[|es| - 1];
      BuffersAreHistories(front, t);
      BufferKept(AfterAll(front), History(front, t), last, t);
    }
  }

  /** When a command ends, its response carries exactly the source buffer if and only if the data that came
      for its tag, slices of that buffer in whatever order and among whatever PDUs of other tags, reach its
      end and leave out only zeros; and the tag has no buffer left. */
  lemma ResponseIsSourceIff(es: seq<Arrival>, e: Arrival, src: seq<byte>)
    requires e.final && SlicesOf(WithPatch(History(es, e.itt), e), src)
    ensures var ps := WithPatch(History(es, e.itt), e);
      Answer(AfterAll(es), e) == Some(src) <==>
        ps != [] && Extent(ps) == |src| && forall a :: 0 <= a < |src| ==> Covered(ps, a) || src[a] == 0
    ensures e.itt !in AfterAll(es + [e])
  {
    var h := History(es, e.itt);
    var ps := WithPatch(h, e);
    BuffersAreHistories(es, e.itt);
    AnswerIsLaid(AfterAll(es), h, e);
    LaidRebuildsIff(ps, src);
    assert (es + [e])[..|es|] == es;
  }

  lemma AnswerIsLaid(acc: Buffers, h: seq<Patch>, e: Arrival)
    requires e.itt in acc <==> h != []
    requires e.itt in acc ==> acc[e.itt] == LaidAll(h)
    ensures var ps := WithPatch(h, e);
      Answer(acc, e) == if ps == [] then None else Some(LaidAll(ps))
  {
    if e.patch.Some? {
      LaidAllSnoc(h, e.patch.value);
    }
  }

  /** A command whose data came as slices covering its non-empty source buffer is answered with just that
      buffer, and other tags' buffers are as they were. */
  lemma CoveredReadIsAnswered(es: seq<Arrival>, e: Arrival, src: seq<byte>)
    requires e.final && src != [] && SlicesOf(WithPatch(History(es, e.itt), e), src)
    requires forall a :: 0 <= a < |src| ==> Covered(WithPatch(History(es, e.itt), e), a)
    ensures Answer(AfterAll(es), e) == Some(src)
    ensures forall t :: t != e.itt ==> History(es + [e], t) == History(es, t)
  {
    var ps := WithPatch(History(es, e.itt), e);
    assert Covered(ps, 0);
    CoverRebuilds(ps, src);
    LaidRebuildsIff(ps, src);
    ResponseIsSourceIff(es, e, src);
    assert (es + [e])[..|es|] == es;
  }
}
