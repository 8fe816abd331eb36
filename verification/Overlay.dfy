/** Patches laid over a byte string, in sequence and in any order.
    A SCSI WRITE, a Data-In PDU and a Data-Out PDU are all patches: some bytes and the offset they go to. */
module Overlay {
  import opened Bytes

  datatype Patch = Patch(at: nat, data: seq<byte>) {
    function End(): nat {
      at + |data|
    }

    predicate Covers(a: nat) {
      at <= a < End()
    }

    /** The patch carries the bytes that `src` holds at the same place. */
    ghost predicate SliceOf(src: seq<byte>) {
      End() <= |src| && data == src[at..End()]
    }
  }

  ghost predicate Fit(ps: seq<Patch>, n: nat) {
    forall i :: 0 <= i < |ps| ==> ps[i].End() <= n
  }

  ghost predicate SlicesOf(ps: seq<Patch>, src: seq<byte>) {
    forall i :: 0 <= i < |ps| ==> ps[i].SliceOf(src)
  }

  ghost predicate Covered(ps: seq<Patch>, a: nat) {
    exists i :: 0 <= i < |ps| && ps[i].Covers(a)
  }

  ghost function Apply(s: seq<byte>, p: Patch): (r: seq<byte>)
    requires p.End() <= |s|
    ensures |r| == |s|
  {
    Splice(s, p.at, p.data)
  }

  /** The patches of `ps` applied first to last. */
  ghost function ApplyAll(s: seq<byte>, ps: seq<Patch>): (r: seq<byte>)
    requires Fit(ps, |s|)
    ensures |r| == |s|
  {
    if ps == [] then s
    else Apply(ApplyAll(s, ps[..|ps| - 1]), ps[|ps| - 1])
  }

  lemma ApplyAllSnoc(s: seq<byte>, ps: seq<Patch>, p: Patch)
    requires Fit(ps, |s|) && p.End() <= |s|
    ensures Fit(ps + [p], |s|)
    ensures ApplyAll(s, ps + [p]) == Apply(ApplyAll(s, ps), p)
  {
    assert (ps + [p])[..|ps|] == ps;
  }

  lemma CoveredSnoc(ps: seq<Patch>, a: nat)
    requires ps != []
    ensures Covered(ps, a) <==> Covered(ps[..|ps| - 1], a) || ps[|ps| - 1].Covers(a)
  {
    var front := ps[..|ps| - 1];
    if Covered(front, a) {
      var i :| 0 <= i < |front| && front[i].Covers(a);
      assert ps[i].Covers(a);
    }
  }

  lemma CoveredConcat(ps: seq<Patch>, qs: seq<Patch>, a: nat)
    ensures Covered(ps + qs, a) <==> Covered(ps, a) || Covered(qs, a)
  {
    var all := ps + qs;
    if Covered(ps, a) {
      var i :| 0 <= i < |ps| && ps[i].Covers(a);
      assert all[i].Covers(a);
    }
    if Covered(qs, a) {
      var i :| 0 <= i < |qs| && qs[i].Covers(a);
      assert all[|ps| + i].Covers(a);
    }
  }

  /** A byte nobody covers keeps its old value; a covered byte of slices of one source is the source's. */
  lemma {:induction false} SliceByte(s: seq<byte>, ps: seq<Patch>, src: seq<byte>, a: nat)
    requires |s| == |src| && Fit(ps, |s|) && SlicesOf(ps, src) && a < |s|
    ensures ApplyAll(s, ps)[a] == if Covered(ps, a) then src[a] else s[a]
  {
    if ps != [] {
      var last := ps[|ps| - 1];
      CoveredSnoc(ps, a);
      SliceByte(s, ps[..|ps| - 1], src, a);
      assert last.SliceOf(src);
    }
  }

  /** Slices of one source, in whatever sequence and however they overlap, rebuild that source
      exactly when every byte is either covered by one of them or right already. */
  lemma SlicesRebuild(s: seq<byte>, ps: seq<Patch>, src: seq<byte>)
    requires |s| == |src| && Fit(ps, |s|) && SlicesOf(ps, src)
    ensures ApplyAll(s, ps) == src <==> forall a :: 0 <= a < |s| ==> Covered(ps, a) || s[a] == src[a]
  {
    forall a | 0 <= a < |s|
      ensures ApplyAll(s, ps)[a] == if Covered(ps, a) then src[a] else s[a]
    {
      SliceByte(s, ps, src, a);
    }
  }

  // -- Orders of completion --------------------------------------------------

  /** `order` lists every index below `n` once. */
  ghost predicate IsOrder(order: seq<nat>, n: nat) {
    && |order| == n
    && (forall i :: 0 <= i < n ==> order[i] < n)
    && (forall i, j :: 0 <= i < j < n ==> order[i] != order[j])
    && (forall k :: 0 <= k < n ==> k in order)
  }

  ghost function Reordered(ps: seq<Patch>, order: seq<nat>): (r: seq<Patch>)
    requires forall i :: 0 <= i < |order| ==> order[i] < |ps|
    ensures |r| == |order|
    ensures forall i :: 0 <= i < |r| ==> r[i] == ps[order[i]]
  {
    seq(|order|, i requires 0 <= i < |order| => ps[order[i]])
  }

  /** First to last. */
  ghost function InSequence(n: nat): (order: seq<nat>)
    ensures IsOrder(order, n)
  {
    var order: seq<nat> := seq(n, i => i);
    assert forall k :: 0 <= k < n ==> k in order by {
      forall k | 0 <= k < n
        ensures k in order
      {
        assert order[k] == k;
      }
    }
    order
  }

  /** A byte stays as it is when whatever covers it carries the value it has. */
  lemma {:induction false} SteadyByte(s: seq<byte>, ps: seq<Patch>, a: nat, v: byte)
    requires Fit(ps, |s|) && a < |s| && s[a] == v
    requires forall i :: 0 <= i < |ps| && ps[i].Covers(a) ==> ps[i].data[a - ps[i].at] == v
    ensures ApplyAll(s, ps)[a] == v
  {
    if ps != [] {
      SteadyByte(s, ps[..|ps| - 1], a, v);
    }
  }

  ghost predicate Apart(p: Patch, q: Patch) {
    forall a :: p.Covers(a) ==> !q.Covers(a)
  }

  ghost predicate PairwiseApart(ps: seq<Patch>) {
    forall i, j :: 0 <= i < j < |ps| ==> Apart(ps[i], ps[j])
  }

  lemma {:induction false} ApartByte(s: seq<byte>, ps: seq<Patch>, k: nat, a: nat)
    requires Fit(ps, |s|) && PairwiseApart(ps)
    requires k < |ps| && ps[k].Covers(a)
    ensures ApplyAll(s, ps)[a] == ps[k].data[a - ps[k].at]
  {
    var last := |ps| - 1;
    if k < last {
      assert Apart(ps[k], ps[last]);
      ApartByte(s, ps[..last], k, a);
    }
  }

  lemma SlicesByBytes(ps: seq<Patch>, r: seq<byte>)
    requires Fit(ps, |r|)
    requires forall k, a: nat :: 0 <= k < |ps| && ps[k].Covers(a) ==> r[a] == ps[k].data[a - ps[k].at]
    ensures SlicesOf(ps, r)
  {
    forall k | 0 <= k < |ps|
      ensures ps[k].SliceOf(r)
    {
      SliceByBytes(ps[k], r);
    }
  }

  lemma SliceByBytes(p: Patch, r: seq<byte>)
    requires p.End() <= |r| && forall a: nat :: p.Covers(a) ==> r[a] == p.data[a - p.at]
    ensures p.SliceOf(r)
  {
    forall i | 0 <= i < |p.data|
      ensures p.data[i] == r[p.at + i]
    {
      assert p.Covers(p.at + i);
    }
  }

  lemma {:induction false} UncoveredByte(s: seq<byte>, ps: seq<Patch>, a: nat)
    requires Fit(ps, |s|) && a < |s| && !Covered(ps, a)
    ensures ApplyAll(s, ps)[a] == s[a]
  {
    if ps != [] {
      var front := ps[..|ps| - 1];
      CoveredSnoc(ps, a);
      UncoveredByte(s, front, a);
    }
  }

  lemma CoveredReordered(ps: seq<Patch>, order: seq<nat>, a: nat)
    requires IsOrder(order, |ps|)
    ensures Covered(Reordered(ps, order), a) <==> Covered(ps, a)
  {
    var qs := Reordered(ps, order);
    if Covered(ps, a) {
      var k :| 0 <= k < |ps| && ps[k].Covers(a);
      assert k in order;
      var i :| 0 <= i < |order| && order[i] == k;
      assert qs[i].Covers(a);
    }
  }

  /** Slices of one source that fill in all that is missing rebuild it in every order of completion. */
  lemma SlicesRebuildInAnyOrder(s: seq<byte>, ps: seq<Patch>, src: seq<byte>, order: seq<nat>)
    requires |s| == |src| && Fit(ps, |s|) && SlicesOf(ps, src) && IsOrder(order, |ps|)
    requires forall a :: 0 <= a < |s| ==> Covered(ps, a) || s[a] == src[a]
    ensures Fit(Reordered(ps, order), |s|)
    ensures ApplyAll(s, Reordered(ps, order)) == src
  {
    var qs := Reordered(ps, order);
    forall a | 0 <= a < |s|
      ensures Covered(qs, a) || s[a] == src[a]
    {
      CoveredReordered(ps, order, a);
    }
    SlicesRebuild(s, qs, src);
  }

  /** Writes that do not overlap reach one image whatever order they complete in. */
  lemma AnyOrder(s: seq<byte>, ps: seq<Patch>, order: seq<nat>)
    requires Fit(ps, |s|) && PairwiseApart(ps) && IsOrder(order, |ps|)
    ensures Fit(Reordered(ps, order), |s|)
    ensures ApplyAll(s, Reordered(ps, order)) == ApplyAll(s, ps)
  {
    var r := ApplyAll(s, ps);
    forall k, a: nat | 0 <= k < |ps| && ps[k].Covers(a)
      ensures r[a] == ps[k].data[a - ps[k].at]
    {
      ApartByte(s, ps, k, a);
    }
    SlicesByBytes(ps, r);
    forall a | 0 <= a < |s| && !Covered(ps, a)
      ensures s[a] == r[a]
    {
      UncoveredByte(s, ps, a);
    }
    SlicesRebuildInAnyOrder(s, ps, r, order);
  }

  // -- Why non-overlap is needed ---------------------------------------------

  /** The index sequence 0..n with `k` moved to the end. */
  ghost function MovedLast(n: nat, k: nat): (order: seq<nat>)
    requires k < n
    ensures IsOrder(order, n) && order[n - 1] == k
  {
    var order := seq(n, i => if i < k then i else if i < n - 1 then i + 1 else k);
    assert forall j :: 0 <= j < n ==> j in order by {
      forall j | 0 <= j < n
        ensures j in order
      {
        var place := if j < k then j else if j == k then n - 1 else j - 1;
        assert order[place] == j;
      }
    }
    order
  }

  /** `qs` has the extents of `ps` and possibly other bytes. */
  ghost predicate SameExtents(ps: seq<Patch>, qs: seq<Patch>) {
    |ps| == |qs| && forall i :: 0 <= i < |ps| ==> ps[i].at == qs[i].at && |ps[i].data| == |qs[i].data|
  }

  /** Whatever bytes the writes carry, every order of completion gives one image. */
  ghost predicate OrderNeverMatters(s: seq<byte>, ps: seq<Patch>)
    requires Fit(ps, |s|)
  {
    forall qs: seq<Patch>, order: seq<nat> :: SameExtents(ps, qs) && IsOrder(order, |ps|) ==>
      ApplyAll(s, Reordered(qs, order)) == ApplyAll(s, qs)
  }

  /** Whatever was there, the last patch shows. */
  lemma LastWins(s: seq<byte>, last: Patch, a: nat)
    requires last.End() <= |s| && last.Covers(a)
    ensures Apply(s, last)[a] == last.data[a - last.at]
  {
  }

  lemma MovedIsLast(qs: seq<Patch>, k: nat, n: nat) returns (front: seq<Patch>)
    requires k < |qs| && Fit(qs, n)
    ensures Fit(front, n) && Fit(front + [qs[k]], n)
    ensures Reordered(qs, MovedLast(|qs|, k)) == front + [qs[k]]
  {
    var rs := Reordered(qs, MovedLast(|qs|, k));
    front := rs[..|rs| - 1];
    assert rs == front + [qs[k]];
    forall i | 0 <= i < |rs|
      ensures rs[i].End() <= n
    {
    }
  }

  lemma SameExtentsApart(ps: seq<Patch>, qs: seq<Patch>)
    requires SameExtents(ps, qs) && PairwiseApart(ps)
    ensures PairwiseApart(qs)
  {
    forall i, j | 0 <= i < j < |qs|
      ensures Apart(qs[i], qs[j])
    {
      assert Apart(ps[i], ps[j]);
      assert forall a :: qs[i].Covers(a) ==> ps[i].Covers(a);
    }
  }

  /** The extents of `ps` filled with ones at index `j` and with zeros everywhere else. */
  ghost function Marked(ps: seq<Patch>, j: nat): (qs: seq<Patch>)
    ensures SameExtents(ps, qs)
    ensures forall k, i :: 0 <= k < |qs| && 0 <= i < |qs[k].data| ==> qs[k].data[i] == if k == j then 1 else 0
  {
    seq(|ps|, k requires 0 <= k < |ps| => Patch(ps[k].at, seq(|ps[k].data|, _ => if k == j then 1 else 0)))
  }

  /** Two extents sharing byte `a`: with ones in the second and zeros elsewhere, the last one to finish shows. */
  lemma OverlapMatters(s: seq<byte>, ps: seq<Patch>, i: nat, j: nat, a: nat)
    requires Fit(ps, |s|) && i < j < |ps|
    requires ps[i].Covers(a) && ps[j].Covers(a)
    ensures !OrderNeverMatters(s, ps)
  {
    var qs := Marked(ps, j);
    assert Fit(qs, |s|) && qs[i].Covers(a) && qs[j].Covers(a);
    var zero := MovedByte(s, qs, i, a);
    var one := MovedByte(s, qs, j, a);
    assert zero != one;
  }

  /** The byte that is there when the patch at `k` is the last one. */
  lemma MovedByte(s: seq<byte>, qs: seq<Patch>, k: nat, a: nat) returns (b: byte)
    requires Fit(qs, |s|) && k < |qs| && qs[k].Covers(a)
    ensures var order := MovedLast(|qs|, k);
      b == qs[k].data[a - qs[k].at] && Fit(Reordered(qs, order), |s|) && b == ApplyAll(s, Reordered(qs, order))[a]
  {
    var front := MovedIsLast(qs, k, |s|);
    ApplyAllSnoc(s, front, qs[k]);
    LastWins(ApplyAll(s, front), qs[k], a);
    b := qs[k].data[a - qs[k].at];
  }

  /** Completion order is harmless for all contents exactly when no two extents overlap. */
  lemma OrderHarmlessIff(s: seq<byte>, ps: seq<Patch>)
    requires Fit(ps, |s|)
    ensures OrderNeverMatters(s, ps) <==> PairwiseApart(ps)
  {
    if PairwiseApart(ps) {
      forall qs: seq<Patch>, order: seq<nat> | SameExtents(ps, qs) && IsOrder(order, |ps|)
        ensures ApplyAll(s, Reordered(qs, order)) == ApplyAll(s, qs)
      {
        SameExtentsApart(ps, qs);
        AnyOrder(s, qs, order);
      }
    } else {
      var i, j :| 0 <= i < j < |ps| && !Apart(ps[i], ps[j]);
      var a :| ps[i].Covers(a) && ps[j].Covers(a);
      OverlapMatters(s, ps, i, j, a);
    }
  }
}
