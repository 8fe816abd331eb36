/** What an accepted answer makes of our parameters, key by key as RFC 7143 section 13 names them. */
module Agreed {
  import opened Bytes
  import opened Sealing
  import opened Wrappers
  import opened Login

  /** The values of the pairs with a name, in order. */
  function Values(ps: seq<Pair>, name: string): seq<string> {
    if ps == [] then [] else (if ps[0].0 == name then [ps[0].1] else []) + Values(ps[1..], name)
  }

  // -- Offers are values -----------------------------------------------------

  lemma KeyOfName(name: string, k: Key)
    ensures KeyOf(name) == Some(k) <==> name == NameOf(k)
  {
    NamesAreKeys(k);
    KeyHasName(name);
  }

  /** The values mean these numbers. */
  ghost predicate Mean(k: Key, vs: seq<string>, ns: seq<nat>) {
    |vs| == |ns| && forall i :: 0 <= i < |vs| ==> Means(k, vs[i], ns[i])
  }

  ghost predicate Means(k: Key, v: string, n: nat) {
    forall l: nat {:trigger Look(l)} :: Look(l) ==> Meaning(k, v) == Some(n)
  }

  lemma MeansIs(k: Key, v: string, n: nat)
    ensures Means(k, v, n) <==> Meaning(k, v) == Some(n)
  {
    assert Look(0);
  }

  lemma FirstOffer(x: Pair, k: Key)
    requires EffectOf(x) != Bad
    ensures if x.0 == NameOf(k) then |OfferIn(EffectOf(x), k)| == 1 && Means(k, x.1, OfferIn(EffectOf(x), k)[0])
            else OfferIn(EffectOf(x), k) == []
  {
    KeyOfName(x.0, k);
    if x.0 == NameOf(k) {
      MeansIs(k, x.1, OfferIn(EffectOf(x), k)[0]);
    }
  }

  /** The offers for a key are what the values of the pairs with its name mean. */
  lemma {:induction false} OffersAreValues(ps: seq<Pair>, k: Key)
    requires Acceptable(ps)
    ensures Mean(k, Values(ps, NameOf(k)), Offered(ps, k))
    decreases |ps|
  {
    if ps != [] {
      FirstOffer(ps[0], k);
      OffersAreValues(ps[1..], k);
      MeanJoined(k, if ps[0].0 == NameOf(k) then [ps[0].1] else [], OfferIn(EffectOf(ps[0]), k),
                 Values(ps[1..], NameOf(k)), Offered(ps[1..], k));
    }
  }

  lemma MeanJoined(k: Key, vs: seq<string>, ns: seq<nat>, vs2: seq<string>, ns2: seq<nat>)
    requires Mean(k, vs, ns) && Mean(k, vs2, ns2)
    ensures Mean(k, vs + vs2, ns + ns2)
  {
  }

  lemma {:induction false} LastIsTaken(ours: nat, offers: seq<nat>)
    ensures CombineAll(Take, ours, offers) == if offers == [] then ours else offers[|offers| - 1]
  {
    if offers != [] {
      LastTaken(ours, offers[..|offers| - 1], offers[|offers| - 1]);
      assert offers == offers[..|offers| - 1] + [offers[|offers| - 1]];
    }
  }

  // -- The three kinds of keys -----------------------------------------------

  /** The last value counts. */
  lemma TakenIs(p: Params, ps: seq<Pair>, k: Key)
    requires Applied(p, ps).ok && RuleOf(k) == Take
    ensures var vs, n := Values(ps, NameOf(k)), Get(Applied(p, ps).params, k);
      if vs == [] then n == Get(p, k) else Meaning(k, vs[|vs| - 1]) == Some(n)
  {
    var vs, n := Values(ps, NameOf(k)), Get(Applied(p, ps).params, k);
    AppliedByKey(p, ps);
    OffersAreValues(ps, k);
    LastIsTaken(Get(p, k), Offered(ps, k));
    if vs != [] {
      MeansIs(k, vs[|vs| - 1], n);
    }
  }

  /** The least of ours and all values. */
  lemma LeastIs(p: Params, ps: seq<Pair>, k: Key)
    requires Applied(p, ps).ok && RuleOf(k) == Least
    ensures var vs, n := Values(ps, NameOf(k)), Get(Applied(p, ps).params, k);
      && n <= Get(p, k)
      && (forall i :: 0 <= i < |vs| ==> Meaning(k, vs[i]).Some? && n <= Meaning(k, vs[i]).value)
      && (n == Get(p, k) || exists i :: 0 <= i < |vs| && Meaning(k, vs[i]) == Some(n))
  {
    var vs, offers := Values(ps, NameOf(k)), Offered(ps, k);
    AppliedByKey(p, ps);
    OffersAreValues(ps, k);
    CombineSettles(Least, Get(p, k), offers);
    var n := Get(Applied(p, ps).params, k);
    forall i | 0 <= i < |vs|
      ensures Meaning(k, vs[i]).Some? && n <= Meaning(k, vs[i]).value
    {
      MeansIs(k, vs[i], offers[i]);
      assert offers[i] in offers;
    }
    if n != Get(p, k) {
      var i :| 0 <= i < |offers| && offers[i] == n;
      MeansIs(k, vs[i], n);
    }
  }

  lemma YesMeansOne(k: Key, v: string, n: nat)
    requires IsYesNoKey(k) && Means(k, v, n)
    ensures n == if v == "Yes" then 1 else 0
  {
    MeansIs(k, v, n);
  }

  /** Yes if we or any value says so. */
  lemma EitherIs(p: Params, ps: seq<Pair>, k: Key)
    requires Applied(p, ps).ok && RuleOf(k) == Either && IsYesNoKey(k)
    ensures Get(Applied(p, ps).params, k) == 1 <==> Get(p, k) == 1 || "Yes" in Values(ps, NameOf(k))
  {
    var vs, offers := Values(ps, NameOf(k)), Offered(ps, k);
    AppliedByKey(p, ps);
    OffersAreValues(ps, k);
    CombineSettles(Either, Get(p, k), offers);
    forall i | 0 <= i < |vs|
      ensures offers[i] in offers && offers[i] == if vs[i] == "Yes" then 1 else 0
    {
      YesMeansOne(k, vs[i], offers[i]);
    }
  }

  /** Yes if we and all values say so. */
  lemma BothIs(p: Params, ps: seq<Pair>, k: Key)
    requires Applied(p, ps).ok && RuleOf(k) == Both && IsYesNoKey(k)
    ensures Get(Applied(p, ps).params, k) == 1 <==> Get(p, k) == 1 && AllYes(Values(ps, NameOf(k)))
  {
    var vs, offers := Values(ps, NameOf(k)), Offered(ps, k);
    AppliedByKey(p, ps);
    OffersAreValues(ps, k);
    CombineSettles(Both, Get(p, k), offers);
    forall i | 0 <= i < |vs|
      ensures offers[i] in offers && offers[i] == if vs[i] == "Yes" then 1 else 0
    {
      YesMeansOne(k, vs[i], offers[i]);
    }
  }

  // -- Every key by its name -------------------------------------------------

  ghost predicate IsName(k: Key, name: string) {
    forall l: nat {:trigger Look(l)} :: Look(l) ==> name == NameOf(k)
  }

  lemma NameIs(k: Key, name: string)
    requires IsName(k, name)
    ensures name == NameOf(k)
  {
    assert Look(0);
  }

  lemma DigestNamesAre()
    ensures IsName(HeaderDigest, "HeaderDigest") && IsName(DataDigest, "DataDigest")
  {
  }

  lemma OrderNamesAre()
    ensures IsName(DataPDUInOrder, "DataPDUInOrder") && IsName(DataSequenceInOrder, "DataSequenceInOrder")
  {
  }

  lemma FlagNamesAre()
    ensures IsName(InitialR2T, "InitialR2T") && IsName(ImmediateData, "ImmediateData")
  {
  }

  lemma LengthNamesAre()
    ensures IsName(MaxRecvDataSegmentLength, "MaxRecvDataSegmentLength")
    ensures IsName(MaxBurstLength, "MaxBurstLength") && IsName(FirstBurstLength, "FirstBurstLength")
  {
  }

  lemma CountNamesAre()
    ensures IsName(MaxOutstandingR2T, "MaxOutstandingR2T") && IsName(MaxConnections, "MaxConnections")
    ensures IsName(ErrorRecoveryLevel, "ErrorRecoveryLevel")
  {
  }

  lemma TimeNamesAre()
    ensures IsName(DefaultTime2Wait, "DefaultTime2Wait") && IsName(DefaultTime2Retain, "DefaultTime2Retain")
  {
  }

  lemma DigestAgreed(p: Params, ps: seq<Pair>, k: Key, name: string)
    requires IsName(k, name) && Applied(p, ps).ok && IsDigestKey(k)
    ensures var vs := Values(ps, name);
      Get(Applied(p, ps).params, k) == 1 <==> if vs == [] then Get(p, k) == 1 else vs[|vs| - 1] == "CRC32C"
  {
    NameIs(k, name);
    TakenIs(p, ps, k);
  }

  /** A digest is used exactly when the last value for it is CRC32C, or as before if there is none. */
  lemma DigestsAgreed(p: Params, ps: seq<Pair>)
    requires Applied(p, ps).ok
    ensures var q, hs, ds := Applied(p, ps).params, Values(ps, "HeaderDigest"), Values(ps, "DataDigest");
      && (q.headerDigest <==> if hs == [] then p.headerDigest else hs[|hs| - 1] == "CRC32C")
      && (q.dataDigest <==> if ds == [] then p.dataDigest else ds[|ds| - 1] == "CRC32C")
  {
    DigestNamesAre();
    DigestAgreed(p, ps, HeaderDigest, "HeaderDigest");
    DigestAgreed(p, ps, DataDigest, "DataDigest");
  }

  lemma LastYes(p: Params, ps: seq<Pair>, k: Key, name: string)
    requires IsName(k, name) && Applied(p, ps).ok && RuleOf(k) == Take && IsYesNoKey(k)
    ensures var vs := Values(ps, name);
      Get(Applied(p, ps).params, k) == 1 <==> if vs == [] then Get(p, k) == 1 else vs[|vs| - 1] == "Yes"
  {
    NameIs(k, name);
    TakenIs(p, ps, k);
  }

  /** The order keys are as the last value says. */
  lemma OrderAgreed(p: Params, ps: seq<Pair>)
    requires Applied(p, ps).ok
    ensures var q, us, ss := Applied(p, ps).params, Values(ps, "DataPDUInOrder"), Values(ps, "DataSequenceInOrder");
      && (q.pduInOrder <==> if us == [] then p.pduInOrder else us[|us| - 1] == "Yes")
      && (q.sequenceInOrder <==> if ss == [] then p.sequenceInOrder else ss[|ss| - 1] == "Yes")
  {
    OrderNamesAre();
    LastYes(p, ps, DataPDUInOrder, "DataPDUInOrder");
    LastYes(p, ps, DataSequenceInOrder, "DataSequenceInOrder");
  }

  /** The number is that of the last value, or as before. */
  ghost predicate IsLastNumber(n: nat, ours: nat, vs: seq<string>, max: nat) {
    if vs == [] then n == ours else ParseUnsigned(vs[|vs| - 1], max) == Some(n)
  }

  lemma LastNumber(p: Params, ps: seq<Pair>, k: Key, name: string)
    requires IsName(k, name) && Applied(p, ps).ok && RuleOf(k) == Take && !IsDigestKey(k) && !IsYesNoKey(k)
    ensures IsLastNumber(Get(Applied(p, ps).params, k), Get(p, k), Values(ps, name), Top(k))
  {
    NameIs(k, name);
    TakenIs(p, ps, k);
  }

  /** What we may send is what the target said last; what we receive stays. */
  lemma SendLimitAgreed(p: Params, ps: seq<Pair>)
    requires Applied(p, ps).ok
    ensures var q := Applied(p, ps).params;
      && IsLastNumber(q.maxSend, p.maxSend, Values(ps, "MaxRecvDataSegmentLength"), 0xFFFF_FFFF)
      && q.maxRecv == p.maxRecv
  {
    LengthNamesAre();
    AppliedByKey(p, ps);
    LastNumber(p, ps, MaxRecvDataSegmentLength, "MaxRecvDataSegmentLength");
  }

  lemma WaitAgreed(p: Params, ps: seq<Pair>)
    requires Applied(p, ps).ok
    ensures IsLastNumber(Applied(p, ps).params.time2wait, p.time2wait, Values(ps, "DefaultTime2Wait"), 0xFFFF_FFFF)
  {
    TimeNamesAre();
    LastNumber(p, ps, DefaultTime2Wait, "DefaultTime2Wait");
  }

  lemma RetainAgreed(p: Params, ps: seq<Pair>)
    requires Applied(p, ps).ok
    ensures IsLastNumber(Applied(p, ps).params.time2retain, p.time2retain, Values(ps, "DefaultTime2Retain"), 0xFFFF_FFFF)
  {
    TimeNamesAre();
    LastNumber(p, ps, DefaultTime2Retain, "DefaultTime2Retain");
  }

  /** So are the times to wait and to retain. */
  lemma TimesAgreed(p: Params, ps: seq<Pair>)
    requires Applied(p, ps).ok
    ensures var q := Applied(p, ps).params;
      && IsLastNumber(q.time2wait, p.time2wait, Values(ps, "DefaultTime2Wait"), 0xFFFF_FFFF)
      && IsLastNumber(q.time2retain, p.time2retain, Values(ps, "DefaultTime2Retain"), 0xFFFF_FFFF)
  {
    WaitAgreed(p, ps);
    RetainAgreed(p, ps);
  }

  /** The least of ours and the numbers of all values. */
  ghost predicate IsLeastNumber(n: nat, ours: nat, vs: seq<string>, max: nat) {
    && n <= ours
    && (forall i :: 0 <= i < |vs| ==> ParseUnsigned(vs[i], max).Some? && n <= ParseUnsigned(vs[i], max).value)
    && (n == ours || exists i :: 0 <= i < |vs| && ParseUnsigned(vs[i], max) == Some(n))
  }

  lemma LeastNumber(p: Params, ps: seq<Pair>, k: Key, name: string)
    requires IsName(k, name) && Applied(p, ps).ok && RuleOf(k) == Least && !IsDigestKey(k) && !IsYesNoKey(k)
    ensures IsLeastNumber(Get(Applied(p, ps).params, k), Get(p, k), Values(ps, name), Top(k))
  {
    NameIs(k, name);
    LeastIs(p, ps, k);
  }

  /** The burst lengths are the least of what we offered and what the target said, however often. */
  lemma BurstsAgreed(p: Params, ps: seq<Pair>)
    requires Applied(p, ps).ok
    ensures var q := Applied(p, ps).params;
      && IsLeastNumber(q.maxBurst, p.maxBurst, Values(ps, "MaxBurstLength"), 0xFFFF_FFFF)
      && IsLeastNumber(q.firstBurst, p.firstBurst, Values(ps, "FirstBurstLength"), 0xFFFF_FFFF)
  {
    LengthNamesAre();
    LeastNumber(p, ps, MaxBurstLength, "MaxBurstLength");
    LeastNumber(p, ps, FirstBurstLength, "FirstBurstLength");
  }

  lemma RequestsAgreed(p: Params, ps: seq<Pair>)
    requires Applied(p, ps).ok
    ensures IsLeastNumber(Applied(p, ps).params.maxOutstandingR2t, p.maxOutstandingR2t, Values(ps, "MaxOutstandingR2T"),
                          0xFFFF_FFFF)
  {
    CountNamesAre();
    LeastNumber(p, ps, MaxOutstandingR2T, "MaxOutstandingR2T");
  }

  lemma ConnectionsAgreed(p: Params, ps: seq<Pair>)
    requires Applied(p, ps).ok
    ensures IsLeastNumber(Applied(p, ps).params.maxConnections, p.maxConnections, Values(ps, "MaxConnections"), 0xFFFF_FFFF)
  {
    CountNamesAre();
    LeastNumber(p, ps, MaxConnections, "MaxConnections");
  }

  /** And so are the numbers of R2Ts and connections. */
  lemma CountsAgreed(p: Params, ps: seq<Pair>)
    requires Applied(p, ps).ok
    ensures var q := Applied(p, ps).params;
      && IsLeastNumber(q.maxOutstandingR2t, p.maxOutstandingR2t, Values(ps, "MaxOutstandingR2T"), 0xFFFF_FFFF)
      && IsLeastNumber(q.maxConnections, p.maxConnections, Values(ps, "MaxConnections"), 0xFFFF_FFFF)
  {
    RequestsAgreed(p, ps);
    ConnectionsAgreed(p, ps);
  }

  /** And so is the recovery level, which has room for a byte. */
  lemma LevelAgreed(p: Params, ps: seq<Pair>)
    requires Applied(p, ps).ok
    ensures IsLeastNumber(Applied(p, ps).params.errorRecovery, p.errorRecovery, Values(ps, "ErrorRecoveryLevel"), 0xFF)
  {
    CountNamesAre();
    LeastNumber(p, ps, ErrorRecoveryLevel, "ErrorRecoveryLevel");
  }

  ghost predicate AllYes(vs: seq<string>) {
    forall i :: 0 <= i < |vs| ==> vs[i] == "Yes"
  }

  /** An R2T is waited for if we or the target want it. */
  lemma InitialR2tAgreed(p: Params, ps: seq<Pair>)
    requires Applied(p, ps).ok
    ensures Applied(p, ps).params.initialR2t <==> p.initialR2t || "Yes" in Values(ps, "InitialR2T")
  {
    FlagNamesAre();
    NameIs(InitialR2T, "InitialR2T");
    EitherIs(p, ps, InitialR2T);
  }

  /** Immediate data goes along if we and the target, whenever it says something about it, allow it. */
  lemma ImmediateDataAgreed(p: Params, ps: seq<Pair>)
    requires Applied(p, ps).ok
    ensures Applied(p, ps).params.immediateData <==> p.immediateData && AllYes(Values(ps, "ImmediateData"))
  {
    FlagNamesAre();
    NameIs(ImmediateData, "ImmediateData");
    BothIs(p, ps, ImmediateData);
  }

  // -- When an answer is accepted --------------------------------------------

  predicate IsDigestName(name: string) {
    name == "HeaderDigest" || name == "DataDigest"
  }

  predicate IsNumberName(name: string) {
    || name == "MaxRecvDataSegmentLength" || name == "MaxBurstLength" || name == "FirstBurstLength"
    || name == "MaxOutstandingR2T" || name == "MaxConnections"
    || name == "DefaultTime2Wait" || name == "DefaultTime2Retain"
  }

  /** A digest is CRC32C or None, and a number is one that its field has room for. */
  predicate IsGoodPair(x: Pair) {
    && (IsDigestName(x.0) ==> x.1 == "CRC32C" || x.1 == "None")
    && (IsNumberName(x.0) ==> ParseUnsigned(x.1, 0xFFFF_FFFF).Some?)
    && (x.0 == "ErrorRecoveryLevel" ==> ParseUnsigned(x.1, 0xFF).Some?)
  }

  lemma DigestNames(name: string)
    ensures IsDigestName(name) <==> KeyOf(name).Some? && IsDigestKey(KeyOf(name).value)
  {
  }

  lemma NumberNames(name: string)
    ensures IsNumberName(name) || name == "ErrorRecoveryLevel"
       <==> KeyOf(name).Some? && !IsDigestKey(KeyOf(name).value) && !IsYesNoKey(KeyOf(name).value)
  {
    if KeyOf(name).Some? {
      KeyOfName(name, KeyOf(name).value);
      NumberKeyName(KeyOf(name).value);
    }
    if IsNumberName(name) || name == "ErrorRecoveryLevel" {
      NumberNameKey(name);
    }
  }

  lemma NumberKeyName(k: Key)
    ensures !IsDigestKey(k) && !IsYesNoKey(k) ==> IsNumberName(NameOf(k)) || NameOf(k) == "ErrorRecoveryLevel"
  {
  }

  lemma NumberNameKey(name: string)
    requires IsNumberName(name) || name == "ErrorRecoveryLevel"
    ensures KeyOf(name).Some? && !IsDigestKey(KeyOf(name).value) && !IsYesNoKey(KeyOf(name).value)
  {
    LengthNamesAre();
    CountNamesAre();
    TimeNamesAre();
    var k := if name == "MaxRecvDataSegmentLength" then MaxRecvDataSegmentLength
             else if name == "MaxBurstLength" then MaxBurstLength
             else if name == "FirstBurstLength" then FirstBurstLength
             else if name == "MaxOutstandingR2T" then MaxOutstandingR2T
             else if name == "MaxConnections" then MaxConnections
             else if name == "DefaultTime2Wait" then DefaultTime2Wait
             else if name == "DefaultTime2Retain" then DefaultTime2Retain
             else ErrorRecoveryLevel;
    KeyByName(k, name);
  }

  lemma KeyByName(k: Key, name: string)
    requires IsName(k, name)
    ensures KeyOf(name) == Some(k)
  {
    NameIs(k, name);
    NamesAreKeys(k);
  }

  lemma LevelName(name: string)
    ensures name == "ErrorRecoveryLevel" <==> KeyOf(name) == Some(ErrorRecoveryLevel)
    ensures name == "ErrorRecoveryLevel" ==> !IsNumberName(name)
  {
  }

  lemma GoodIffNotBad(x: Pair)
    ensures EffectOf(x) != Bad <==> IsGoodPair(x)
  {
    DigestNames(x.0);
    NumberNames(x.0);
    LevelName(x.0);
  }

  /** An answer is accepted exactly when all its pairs are good; those with a name we do not know always are. */
  lemma AcceptedIff(p: Params, ps: seq<Pair>)
    ensures Applied(p, ps).ok <==> forall i :: 0 <= i < |ps| ==> IsGoodPair(ps[i])
  {
    AppliedByKey(p, ps);
    forall i | 0 <= i < |ps|
      ensures EffectOf(ps[i]) != Bad <==> IsGoodPair(ps[i])
    {
      GoodIffNotBad(ps[i]);
    }
  }

  /** A refused answer has taken effect up to its first pair that is not good. */
  lemma {:induction false} RefusedAt(p: Params, ps: seq<Pair>) returns (k: nat)
    requires !Applied(p, ps).ok
    ensures k < |ps| && !IsGoodPair(ps[k]) && (forall i :: 0 <= i < k ==> IsGoodPair(ps[i]))
    ensures Applied(p, ps[..k]).ok && Applied(p, ps).params == Applied(p, ps[..k]).params
    decreases |ps|
  {
    GoodIffNotBad(ps[0]);
    k := 0;
    if IsGoodPair(ps[0]) {
      k := RefusedAt(Changed(p, EffectOf(ps[0])), ps[1..]);
      k := k + 1;
      assert ps[..k][0] == ps[0] && ps[..k][1..] == ps[1..][..k - 1];
    }
  }
}
