/** Login text: the operational keys as key=value pairs, and the rules by which an answer changes our
    parameters (iscsi/login.rs; RFC 7143 section 13). */
module Login {
  import opened Bytes
  import opened Sealing
  import opened Wrappers
  import Streams

  // -- Decimal numbers -------------------------------------------------------

  function Digit(d: nat): char
    requires d < 10
  {
    '0' + d as char
  }

  predicate IsDigit(c: char) {
    '0' <= c <= '9'
  }

  function DigitValue(c: char): (d: nat)
    requires IsDigit(c)
    ensures d < 10
  {
    c as int - '0' as int
  }

  function Decimal(n: nat): (s: string)
    ensures s != [] && forall i :: 0 <= i < |s| ==> IsDigit(s[i])
  {
    if n < 10 then [Digit(n)] else Decimal(n / 10) + [Digit(n % 10)]
  }

  predicate AllDigits(s: string) {
    forall i :: 0 <= i < |s| ==> IsDigit(s[i])
  }

  function ValueOf(s: string): (n: nat)
    requires AllDigits(s)
  {
    if s == [] then 0 else 10 * ValueOf(s[..|s| - 1]) + DigitValue(s[|s| - 1])
  }

  /** What follows a plus sign, if there is one. */
  function Unsigned(s: string): string {
    if s != [] && s[0] == '+' then s[1..] else s
  }

  /** An unsigned number no greater than `max`: an optional plus sign, then at least one digit and nothing else. */
  function ParseUnsigned(s: string, max: nat): (r: Option<nat>)
    ensures r.Some? ==> r.value <= max
  {
    var digits := Unsigned(s);
    if digits == [] || !AllDigits(digits) then None
    else if ValueOf(digits) > max then None
    else Some(ValueOf(digits))
  }

  lemma {:induction false} DecimalValue(n: nat)
    ensures ValueOf(Decimal(n)) == n
  {
    if n >= 10 {
      DecimalValue(n / 10);
      var s := Decimal(n / 10) + [Digit(n % 10)];
      assert s[..|s| - 1] == Decimal(n / 10);
    }
  }

  /** What is printed is read back exactly when it is within the reader's range. */
  lemma DecimalRoundTripIff(n: nat, max: nat)
    ensures ParseUnsigned(Decimal(n), max) == Some(n) <==> n <= max
  {
    DecimalValue(n);
    assert Decimal(n)[0] != '+';
  }

  function ZeroDigits(z: nat): (s: string)
    ensures |s| == z && forall i :: 0 <= i < z ==> s[i] == '0'
  {
    seq(z, _ => '0')
  }

  lemma {:induction false} NumeralValue(z: nat, n: nat)
    ensures ValueOf(ZeroDigits(z) + Decimal(n)) == n
  {
    var s := ZeroDigits(z) + Decimal(n);
    if n >= 10 {
      NumeralValue(z, n / 10);
      assert s[..|s| - 1] == ZeroDigits(z) + Decimal(n / 10);
    } else {
      assert s[..|s| - 1] == ZeroDigits(z);
      ZerosAreZero(z);
    }
  }

  lemma {:induction false} ZerosAreZero(z: nat)
    ensures ValueOf(ZeroDigits(z)) == 0
  {
    if z > 0 {
      assert ZeroDigits(z)[..z - 1] == ZeroDigits(z - 1);
      ZerosAreZero(z - 1);
    }
  }

  /** Digits are zeros followed by the decimal form of their value. */
  lemma {:induction false} DigitsAreNumeral(s: string) returns (z: nat)
    requires s != [] && AllDigits(s)
    ensures s == ZeroDigits(z) + Decimal(ValueOf(s))
  {
    var front, d := s[..|s| - 1], DigitValue(s[|s| - 1]);
    assert s == front + [Digit(d)];
    z := 0;
    if front != [] {
      z := DigitsAreNumeral(front);
      if ValueOf(front) == 0 {
        MoreZeros(z);
        z := z + 1;
      } else {
        MoreDecimal(ValueOf(front), d);
        Streams.Regroup(ZeroDigits(z), Decimal(ValueOf(front)), [Digit(d)]);
      }
    } else {
      OneDigit(s, d);
    }
  }

  lemma MoreZeros(z: nat)
    ensures ZeroDigits(z) + Decimal(0) == ZeroDigits(z + 1)
  {
  }

  lemma MoreDecimal(n: nat, d: nat)
    requires n > 0 && d < 10
    ensures Decimal(10 * n + d) == Decimal(n) + [Digit(d)]
  {
    assert (10 * n + d) / 10 == n;
  }

  lemma OneDigit(s: string, d: nat)
    requires d < 10 && s == [Digit(d)]
    ensures ValueOf(s) == d && s == ZeroDigits(0) + Decimal(d)
  {
    assert s[..0] == [];
  }

  /** An optional plus sign, `z` zeros, and the decimal form of `n`. */
  ghost predicate IsNumeral(s: string, n: nat, z: nat) {
    s == ZeroDigits(z) + Decimal(n) || s == "+" + (ZeroDigits(z) + Decimal(n))
  }

  lemma NumeralParses(s: string, n: nat, z: nat)
    requires IsNumeral(s, n, z)
    ensures AllDigits(Unsigned(s)) && Unsigned(s) != [] && ValueOf(Unsigned(s)) == n
  {
    NumeralValue(z, n);
    NumeralIsUnsigned(ZeroDigits(z) + Decimal(n));
  }

  /** Digits stay as they are, and a plus sign before them is dropped. */
  lemma NumeralIsUnsigned(t: string)
    requires t != [] && AllDigits(t)
    ensures Unsigned(t) == t && Unsigned("+" + t) == t
  {
    assert IsDigit(t[0]) && ("+" + t)[1..] == t;
  }

  lemma ParsedIsNumeral(s: string) returns (z: nat)
    requires Unsigned(s) != [] && AllDigits(Unsigned(s))
    ensures IsNumeral(s, ValueOf(Unsigned(s)), z)
  {
    z := DigitsAreNumeral(Unsigned(s));
    assert s[0] == '+' ==> s == "+" + Unsigned(s);
  }

  /** A number is read from exactly its decimal form, possibly after zeros and a plus sign, if it is in range. */
  lemma ParsesIff(s: string, n: nat, max: nat)
    ensures ParseUnsigned(s, max) == Some(n) <==> n <= max && exists z: nat :: IsNumeral(s, n, z)
  {
    if z: nat :| IsNumeral(s, n, z) {
      NumeralParses(s, n, z);
    }
    if ParseUnsigned(s, max) == Some(n) {
      var z := ParsedIsNumeral(s);
    }
  }

  // -- Pairs as text ---------------------------------------------------------

  const NUL := '\0'

  type Pair = (string, string)

  /** The position of the first `c` at or after `i`, or the length. */
  function Find(s: string, c: char, i: nat): (r: nat)
    requires i <= |s|
    ensures i <= r <= |s| && (forall j :: i <= j < r ==> s[j] != c) && (r < |s| ==> s[r] == c)
    decreases |s| - i
  {
    if i == |s| || s[i] == c then i else Find(s, c, i + 1)
  }

  /** An entry is cut at its first equals sign; one without any, the empty entry included, is dropped. */
  function PairsOfEntry(entry: string): seq<Pair> {
    var e := Find(entry, '=', 0);
    if e == |entry| then [] else [(entry[..e], entry[e + 1..])]
  }

  /** The pairs of a text whose entries are separated by NUL. */
  function Pairs(text: string): seq<Pair>
    decreases |text|
  {
    var e := Find(text, NUL, 0);
    PairsOfEntry(text[..e]) + if e == |text| then [] else Pairs(text[e + 1..])
  }

  function Entry(p: Pair): string {
    p.0 + "=" + p.1 + [NUL]
  }

  function Join(ps: seq<Pair>): string {
    if ps == [] then "" else Entry(ps[0]) + Join(ps[1..])
  }

  predicate Clean(p: Pair) {
    '=' !in p.0 && NUL !in p.0 && NUL !in p.1
  }

  lemma FindIs(s: string, c: char, i: nat, r: nat)
    requires i <= r < |s| && s[r] == c && forall j :: i <= j < r ==> s[j] != c
    ensures Find(s, c, i) == r
  {
  }

  lemma EntryThen(p: Pair, rest: string)
    requires Clean(p)
    ensures Pairs(Entry(p) + rest) == [p] + Pairs(rest)
  {
    var entry := p.0 + "=" + p.1;
    var text := Entry(p) + rest;
    assert text == entry + [NUL] + rest;
    FindIs(text, NUL, 0, |entry|);
    assert text[..|entry|] == entry && text[|entry| + 1..] == rest;
    FindIs(entry, '=', 0, |p.0|);
    assert entry[..|p.0|] == p.0 && entry[|p.0| + 1..] == p.1;
  }

  /** A text without NUL is one entry: without an equals sign it has no pair, and else it is cut at the first one. */
  lemma OneEntry(key: string, value: string)
    requires '=' !in key && NUL !in key && NUL !in value
    ensures Pairs(key) == [] && Pairs(key + "=" + value) == [(key, value)]
  {
    var entry := key + "=" + value;
    NoNul(key);
    NoNul(entry);
    NoEquals(key);
    FindIs(entry, '=', 0, |key|);
    assert entry[..|key|] == key && entry[|key| + 1..] == value;
  }

  lemma NoNul(entry: string)
    requires NUL !in entry
    ensures Pairs(entry) == PairsOfEntry(entry)
  {
    assert entry[..|entry|] == entry;
  }

  lemma NoEquals(key: string)
    requires '=' !in key
    ensures PairsOfEntry(key) == []
  {
  }

  /** The pairs of a text are those of what is before a NUL and those of what is after it. */
  lemma EntriesApart(first: string, rest: string)
    requires NUL !in first
    ensures Pairs(first + [NUL] + rest) == Pairs(first) + Pairs(rest)
  {
    var text := first + [NUL] + rest;
    FindIs(text, NUL, 0, |first|);
    assert text[..|first|] == first && text[|first| + 1..] == rest;
    NoNul(first);
  }

  /** Every pair that parsing finds has no equals sign in its key and no NUL anywhere. */
  lemma {:induction false} PairsAreClean(text: string, p: Pair)
    requires p in Pairs(text)
    ensures Clean(p)
    decreases |text|
  {
    var e := Find(text, NUL, 0);
    var entry := text[..e];
    if p !in PairsOfEntry(entry) {
      PairsAreClean(text[e + 1..], p);
    } else {
      var k := Find(entry, '=', 0);
      assert p == (entry[..k], entry[k + 1..]);
      assert NUL !in entry;
      assert forall j :: 0 <= j < |p.1| ==> p.1[j] == entry[k + 1 + j];
    }
  }

  lemma {:induction false} CleanPairsBack(ps: seq<Pair>)
    requires forall i :: 0 <= i < |ps| ==> Clean(ps[i])
    ensures Pairs(Join(ps)) == ps
  {
    if ps == [] {
      assert Pairs("") == PairsOfEntry("") + [];
    } else {
      CleanPairsBack(ps[1..]);
      EntryThen(ps[0], Join(ps[1..]));
      assert ps == [ps[0]] + ps[1..];
    }
  }

  /** Pairs written one after another are parsed back exactly when no key holds an equals sign or a NUL
      and no value holds a NUL. */
  lemma PairsRoundTripIff(ps: seq<Pair>)
    ensures Pairs(Join(ps)) == ps <==> forall i :: 0 <= i < |ps| ==> Clean(ps[i])
  {
    if forall i :: 0 <= i < |ps| ==> Clean(ps[i]) {
      CleanPairsBack(ps);
    } else if Pairs(Join(ps)) == ps {
      var i :| 0 <= i < |ps| && !Clean(ps[i]);
      PairsAreClean(Join(ps), ps[i]);
    }
  }

  // -- Parameters and keys ---------------------------------------------------

  datatype Params = Params(
    maxRecv: u32,
    maxSend: u32,
    maxBurst: u32,
    firstBurst: u32,
    initialR2t: bool,
    immediateData: bool,
    maxOutstandingR2t: u32,
    maxConnections: u32,
    pduInOrder: bool,
    sequenceInOrder: bool,
    errorRecovery: byte,
    headerDigest: bool,
    dataDigest: bool,
    time2wait: u32,
    time2retain: u32)

  datatype Key =
    | HeaderDigest | DataDigest | MaxRecvDataSegmentLength | MaxBurstLength | FirstBurstLength | InitialR2T
    | ImmediateData | MaxOutstandingR2T | MaxConnections | DataPDUInOrder | DataSequenceInOrder
    | ErrorRecoveryLevel | DefaultTime2Wait | DefaultTime2Retain

  /** How the answer's value and ours make the result (RFC 7143 sections 13.1 to 13.20). */
  datatype Rule = Take | Least | Either | Both

  function RuleOf(k: Key): Rule {
    match k
    case MaxBurstLength => Least
    case FirstBurstLength => Least
    case MaxOutstandingR2T => Least
    case MaxConnections => Least
    case ErrorRecoveryLevel => Least
    case InitialR2T => Either
    case ImmediateData => Both
    case _ => Take
  }

  function NameOf(k: Key): string {
    match k
    case HeaderDigest => "HeaderDigest"
    case DataDigest => "DataDigest"
    case MaxRecvDataSegmentLength => "MaxRecvDataSegmentLength"
    case MaxBurstLength => "MaxBurstLength"
    case FirstBurstLength => "FirstBurstLength"
    case InitialR2T => "InitialR2T"
    case ImmediateData => "ImmediateData"
    case MaxOutstandingR2T => "MaxOutstandingR2T"
    case MaxConnections => "MaxConnections"
    case DataPDUInOrder => "DataPDUInOrder"
    case DataSequenceInOrder => "DataSequenceInOrder"
    case ErrorRecoveryLevel => "ErrorRecoveryLevel"
    case DefaultTime2Wait => "DefaultTime2Wait"
    case DefaultTime2Retain => "DefaultTime2Retain"
  }

  function KeyOf(name: string): Option<Key> {
    if name == "HeaderDigest" then Some(HeaderDigest)
    else if name == "DataDigest" then Some(DataDigest)
    else if name == "MaxRecvDataSegmentLength" then Some(MaxRecvDataSegmentLength)
    else if name == "MaxBurstLength" then Some(MaxBurstLength)
    else if name == "FirstBurstLength" then Some(FirstBurstLength)
    else if name == "InitialR2T" then Some(InitialR2T)
    else if name == "ImmediateData" then Some(ImmediateData)
    else if name == "MaxOutstandingR2T" then Some(MaxOutstandingR2T)
    else if name == "MaxConnections" then Some(MaxConnections)
    else if name == "DataPDUInOrder" then Some(DataPDUInOrder)
    else if name == "DataSequenceInOrder" then Some(DataSequenceInOrder)
    else if name == "ErrorRecoveryLevel" then Some(ErrorRecoveryLevel)
    else if name == "DefaultTime2Wait" then Some(DefaultTime2Wait)
    else if name == "DefaultTime2Retain" then Some(DefaultTime2Retain)
    else None
  }

  /** A key is found only by its name. */
  lemma KeyHasName(name: string)
    ensures KeyOf(name).Some? ==> name == NameOf(KeyOf(name).value)
  {
    if name == "HeaderDigest" {
      assert NameOf(HeaderDigest) == name;
    } else if name == "DataDigest" {
      assert NameOf(DataDigest) == name;
    } else if name == "MaxRecvDataSegmentLength" {
      assert NameOf(MaxRecvDataSegmentLength) == name;
    } else if name == "MaxBurstLength" {
      assert NameOf(MaxBurstLength) == name;
    } else if name == "FirstBurstLength" {
      assert NameOf(FirstBurstLength) == name;
    } else if name == "InitialR2T" {
      assert NameOf(InitialR2T) == name;
    } else if name == "ImmediateData" {
      assert NameOf(ImmediateData) == name;
    } else if name == "MaxOutstandingR2T" {
      assert NameOf(MaxOutstandingR2T) == name;
    } else if name == "MaxConnections" {
      assert NameOf(MaxConnections) == name;
    } else if name == "DataPDUInOrder" {
      assert NameOf(DataPDUInOrder) == name;
    } else if name == "DataSequenceInOrder" {
      assert NameOf(DataSequenceInOrder) == name;
    } else if name == "ErrorRecoveryLevel" {
      assert NameOf(ErrorRecoveryLevel) == name;
    } else if name == "DefaultTime2Wait" {
      assert NameOf(DefaultTime2Wait) == name;
    } else if name == "DefaultTime2Retain" {
      assert NameOf(DefaultTime2Retain) == name;
    }
  }

  predicate IsDigestKey(k: Key) {
    k.HeaderDigest? || k.DataDigest?
  }

  predicate IsYesNoKey(k: Key) {
    k.InitialR2T? || k.ImmediateData? || k.DataPDUInOrder? || k.DataSequenceInOrder?
  }

  /** The greatest number a key's field has room for. */
  function Top(k: Key): nat {
    if IsDigestKey(k) || IsYesNoKey(k) then 1 else if k.ErrorRecoveryLevel? then 0xFF else 0xFFFF_FFFF
  }

  /** The number a value stands for, truth being one; anything but Yes means No, and a digest has to be known. */
  function Meaning(k: Key, value: string): (r: Option<nat>)
    ensures r.Some? ==> r.value <= Top(k)
  {
    if IsDigestKey(k) then
      if value == "CRC32C" then Some(1) else if value == "None" then Some(0) else None
    else if IsYesNoKey(k) then Some(if value == "Yes" then 1 else 0)
    else ParseUnsigned(value, Top(k))
  }

  function Number(b: bool): nat {
    if b then 1 else 0
  }

  /** The field that a key's answer changes: for the receive limit that is what we may send. */
  function Get(p: Params, k: Key): (n: nat)
    ensures n <= Top(k)
  {
    match k
    case HeaderDigest => Number(p.headerDigest)
    case DataDigest => Number(p.dataDigest)
    case MaxRecvDataSegmentLength => p.maxSend
    case MaxBurstLength => p.maxBurst
    case FirstBurstLength => p.firstBurst
    case InitialR2T => Number(p.initialR2t)
    case ImmediateData => Number(p.immediateData)
    case MaxOutstandingR2T => p.maxOutstandingR2t
    case MaxConnections => p.maxConnections
    case DataPDUInOrder => Number(p.pduInOrder)
    case DataSequenceInOrder => Number(p.sequenceInOrder)
    case ErrorRecoveryLevel => p.errorRecovery
    case DefaultTime2Wait => p.time2wait
    case DefaultTime2Retain => p.time2retain
  }

  function With(p: Params, k: Key, n: nat): (q: Params)
    requires n <= Top(k)
    ensures q.maxRecv == p.maxRecv
  {
    match k
    case HeaderDigest => p.(headerDigest := n == 1)
    case DataDigest => p.(dataDigest := n == 1)
    case MaxRecvDataSegmentLength => p.(maxSend := n)
    case MaxBurstLength => p.(maxBurst := n)
    case FirstBurstLength => p.(firstBurst := n)
    case InitialR2T => p.(initialR2t := n == 1)
    case ImmediateData => p.(immediateData := n == 1)
    case MaxOutstandingR2T => p.(maxOutstandingR2t := n)
    case MaxConnections => p.(maxConnections := n)
    case DataPDUInOrder => p.(pduInOrder := n == 1)
    case DataSequenceInOrder => p.(sequenceInOrder := n == 1)
    case ErrorRecoveryLevel => p.(errorRecovery := n)
    case DefaultTime2Wait => p.(time2wait := n)
    case DefaultTime2Retain => p.(time2retain := n)
  }

  /** A key's answer changes its own field and no other. */
  lemma GetWith(p: Params, k: Key, n: nat, j: Key)
    requires n <= Top(k)
    ensures Get(With(p, k, n), j) == if j == k then n else Get(p, j)
  {
  }

  /** Parameters are their receive limit and what the keys get. */
  lemma SameParams(p: Params, q: Params)
    requires p.maxRecv == q.maxRecv && forall k :: Get(p, k) == Get(q, k)
    ensures p == q
  {
    assert Get(p, HeaderDigest) == Get(q, HeaderDigest) && Get(p, DataDigest) == Get(q, DataDigest);
    assert Get(p, MaxRecvDataSegmentLength) == Get(q, MaxRecvDataSegmentLength);
    assert Get(p, MaxBurstLength) == Get(q, MaxBurstLength) && Get(p, FirstBurstLength) == Get(q, FirstBurstLength);
    assert Get(p, InitialR2T) == Get(q, InitialR2T) && Get(p, ImmediateData) == Get(q, ImmediateData);
    assert Get(p, MaxOutstandingR2T) == Get(q, MaxOutstandingR2T) && Get(p, MaxConnections) == Get(q, MaxConnections);
    assert Get(p, DataPDUInOrder) == Get(q, DataPDUInOrder);
    assert Get(p, DataSequenceInOrder) == Get(q, DataSequenceInOrder);
    assert Get(p, ErrorRecoveryLevel) == Get(q, ErrorRecoveryLevel);
    assert Get(p, DefaultTime2Wait) == Get(q, DefaultTime2Wait);
    assert Get(p, DefaultTime2Retain) == Get(q, DefaultTime2Retain);
  }

  // -- Applying an answer ----------------------------------------------------

  function Combine(r: Rule, ours: nat, theirs: nat): nat {
    match r
    case Take => theirs
    case Least => Min(ours, theirs)
    case Either => Max(ours, theirs)
    case Both => Min(ours, theirs)
  }

  /** What one pair does to a key: nothing, a number to combine with, or an error. */
  datatype Effect = Nothing | Offers(key: Key, n: nat) | Bad

  function EffectOf(p: Pair): (e: Effect)
    ensures e.Offers? ==> e.n <= Top(e.key)
  {
    match KeyOf(p.0)
    case None => Nothing
    case Some(k) =>
      match Meaning(k, p.1)
      case None => Bad
      case Some(n) => Offers(k, n)
  }

  /** The parameters when the loop ends, and whether it came to the end. */
  datatype Outcome = Outcome(params: Params, ok: bool)

  /** The parameters after a pair that is not bad. */
  function Changed(p: Params, e: Effect): Params
    requires e.Offers? ==> e.n <= Top(e.key)
  {
    if e.Offers? then With(p, e.key, Combine(RuleOf(e.key), Get(p, e.key), e.n)) else p
  }

  function Applied(p: Params, ps: seq<Pair>): Outcome
    decreases |ps|
  {
    if ps == [] then Outcome(p, true)
    else
      var e := EffectOf(ps[0]);
      if e.Bad? then Outcome(p, false) else Applied(Changed(p, e), ps[1..])
  }

  /** The numbers offered for a key, in order, by pairs whose effect is `f`. */
  function OfferedBy(f: Pair -> Effect, ps: seq<Pair>, k: Key): seq<nat> {
    if ps == [] then [] else OfferIn(f(ps[0]), k) + OfferedBy(f, ps[1..], k)
  }

  function Offered(ps: seq<Pair>, k: Key): seq<nat> {
    OfferedBy(EffectOf, ps, k)
  }

  function OfferIn(e: Effect, k: Key): seq<nat> {
    if e.Offers? && e.key == k then [e.n] else []
  }

  function CombineAll(r: Rule, ours: nat, offers: seq<nat>): nat
    decreases |offers|
  {
    if offers == [] then ours else CombineAll(r, Combine(r, ours, offers[0]), offers[1..])
  }

  predicate Acceptable(ps: seq<Pair>) {
    forall i :: 0 <= i < |ps| ==> EffectOf(ps[i]) != Bad
  }

  /** An answer is accepted exactly when none of its known keys has a bad value; then each field is our value
      combined with the numbers offered for its key, independently of the other keys. */
  lemma {:induction false} AppliedByKey(p: Params, ps: seq<Pair>)
    ensures Applied(p, ps).ok <==> Acceptable(ps)
    ensures Applied(p, ps).params.maxRecv == p.maxRecv
    ensures Applied(p, ps).ok ==> forall k :: Get(Applied(p, ps).params, k) == CombineAll(RuleOf(k), Get(p, k), Offered(ps, k))
    decreases |ps|
  {
    if ps != [] {
      var e, rest := EffectOf(ps[0]), ps[1..];
      assert ps == [ps[0]] + rest;
      if e != Bad {
        var q := Changed(p, e);
        AppliedByKey(q, rest);
        forall k
          ensures CombineAll(RuleOf(k), Get(p, k), Offered(ps, k)) == CombineAll(RuleOf(k), Get(q, k), Offered(rest, k))
        {
          OfferTaken(p, e, k, Offered(rest, k));
        }
      }
    }
  }

  lemma OfferTaken(p: Params, e: Effect, k: Key, rest: seq<nat>)
    requires e.Offers? ==> e.n <= Top(e.key)
    ensures CombineAll(RuleOf(k), Get(p, k), OfferIn(e, k) + rest) == CombineAll(RuleOf(k), Get(Changed(p, e), k), rest)
  {
    if e.Offers? {
      GetWith(p, e.key, Combine(RuleOf(e.key), Get(p, e.key), e.n), k);
    }
    if OfferIn(e, k) == [] {
      assert [] + rest == rest;
    } else {
      assert ([e.n] + rest)[1..] == rest;
    }
  }

  // -- Laws ------------------------------------------------------------------

  /** All offers together count as one. */
  lemma {:induction false} OneOffer(r: Rule, ours: nat, offers: seq<nat>)
    requires offers != []
    ensures CombineAll(r, ours, offers) == Combine(r, ours, CombineAll(r, offers[0], offers[1..]))
    decreases |offers|
  {
    if |offers| > 1 {
      var first, rest := offers[0], offers[1..];
      OneOffer(r, Combine(r, ours, first), rest);
      OneOffer(r, first, rest);
    }
  }

  lemma CombineTwice(r: Rule, ours: nat, offers: seq<nat>)
    ensures CombineAll(r, CombineAll(r, ours, offers), offers) == CombineAll(r, ours, offers)
  {
    if offers != [] {
      OneOffer(r, ours, offers);
      OneOffer(r, CombineAll(r, ours, offers), offers);
    }
  }

  lemma {:induction false} CombineBounds(r: Rule, ours: nat, offers: seq<nat>)
    ensures r.Least? || r.Both? ==> CombineAll(r, ours, offers) <= ours
    ensures r.Either? ==> ours <= CombineAll(r, ours, offers)
    decreases |offers|
  {
    if offers != [] {
      CombineBounds(r, Combine(r, ours, offers[0]), offers[1..]);
    }
  }

  /** No key moves against its rule from one to the other. */
  ghost predicate OnlyRestricts(p: Params, q: Params) {
    forall k ::
      && (RuleOf(k).Least? || RuleOf(k).Both? ==> Get(q, k) <= Get(p, k))
      && (RuleOf(k).Either? ==> Get(p, k) <= Get(q, k))
  }

  lemma LimitsRestricted(p: Params, q: Params)
    requires OnlyRestricts(p, q)
    ensures && q.maxBurst <= p.maxBurst && q.firstBurst <= p.firstBurst && q.maxOutstandingR2t <= p.maxOutstandingR2t
            && q.maxConnections <= p.maxConnections && q.errorRecovery <= p.errorRecovery
  {
    assert Get(q, MaxBurstLength) <= Get(p, MaxBurstLength) && Get(q, FirstBurstLength) <= Get(p, FirstBurstLength);
    assert Get(q, MaxOutstandingR2T) <= Get(p, MaxOutstandingR2T);
    assert Get(q, MaxConnections) <= Get(p, MaxConnections);
    assert Get(q, ErrorRecoveryLevel) <= Get(p, ErrorRecoveryLevel);
  }

  lemma FlagsRestricted(p: Params, q: Params)
    requires OnlyRestricts(p, q)
    ensures (p.initialR2t ==> q.initialR2t) && (q.immediateData ==> p.immediateData)
  {
    assert Get(p, InitialR2T) <= Get(q, InitialR2T) && Get(q, ImmediateData) <= Get(p, ImmediateData);
  }

  /** Whatever the target answers, no limit rises, InitialR2T is not lowered, ImmediateData not raised, and
      what we receive at most is not touched. */
  lemma NegotiationOnlyRestricts(p: Params, ps: seq<Pair>)
    requires Applied(p, ps).ok
    ensures var q := Applied(p, ps).params;
      && q.maxBurst <= p.maxBurst && q.firstBurst <= p.firstBurst && q.maxOutstandingR2t <= p.maxOutstandingR2t
      && q.maxConnections <= p.maxConnections && q.errorRecovery <= p.errorRecovery
      && (p.initialR2t ==> q.initialR2t) && (q.immediateData ==> p.immediateData)
      && q.maxRecv == p.maxRecv
  {
    var q := Applied(p, ps).params;
    AppliedByKey(p, ps);
    forall k
      ensures RuleOf(k).Least? || RuleOf(k).Both? ==> Get(q, k) <= Get(p, k)
      ensures RuleOf(k).Either? ==> Get(p, k) <= Get(q, k)
    {
      CombineBounds(RuleOf(k), Get(p, k), Offered(ps, k));
    }
    LimitsRestricted(p, q);
    FlagsRestricted(p, q);
  }

  /** The same answer a second time changes nothing. */
  lemma ApplyingTwice(p: Params, ps: seq<Pair>)
    requires Applied(p, ps).ok
    ensures Applied(Applied(p, ps).params, ps) == Applied(p, ps)
  {
    var q := Applied(p, ps).params;
    var q2 := Applied(q, ps).params;
    AppliedByKey(p, ps);
    AppliedByKey(q, ps);
    forall k
      ensures Get(q2, k) == Get(q, k)
    {
      CombineTwice(RuleOf(k), Get(p, k), Offered(ps, k));
    }
    SameParams(q2, q);
  }

  // -- Order of the pairs ----------------------------------------------------

  /** The parameters after an accepted answer. */
  function Accepted(p: Params, ps: seq<Pair>): Option<Params> {
    if Applied(p, ps).ok then Some(Applied(p, ps).params) else None
  }

  /** Two pairs set one field to different values. */
  ghost predicate Clash(x: Pair, y: Pair) {
    var e, f := EffectOf(x), EffectOf(y);
    e.Offers? && f.Offers? && e.key == f.key && RuleOf(e.key) == Take && e.n != f.n
  }

  ghost predicate Consistent(ps: seq<Pair>) {
    forall x, y :: x in ps && y in ps ==> !Clash(x, y)
  }

  ghost predicate SameElements(ps: seq<Pair>, qs: seq<Pair>) {
    forall x :: x in ps <==> x in qs
  }

  /** What comes of an answer depends on which pairs it has, not on their order or how often they come. */
  ghost predicate OnlyPairsMatter(ps: seq<Pair>) {
    forall p: Params, qs: seq<Pair> :: SameElements(ps, qs) ==> Accepted(p, qs) == Accepted(p, ps)
  }

  lemma {:induction false} OfferedIs(f: Pair -> Effect, ps: seq<Pair>, k: Key, n: nat)
    ensures n in OfferedBy(f, ps, k) <==> exists x :: x in ps && f(x) == Offers(k, n)
  {
    if ps != [] {
      OfferedIs(f, ps[1..], k, n);
      assert ps == [ps[0]] + ps[1..];
      if n in OfferedBy(f, ps[1..], k) {
        var x :| x in ps[1..] && f(x) == Offers(k, n);
        assert x in ps;
      }
      if f(ps[0]) == Offers(k, n) {
        assert ps[0] in ps && OfferIn(f(ps[0]), k) == [n];
      }
    }
  }

  /** `c` is what a rule makes of our value and the offers, as far as it does not depend on their order. */
  ghost predicate Settles(r: Rule, ours: nat, offers: seq<nat>, c: nat) {
    match r
    case Take => if offers == [] then c == ours else c in offers
    case Either => (c == ours || c in offers) && ours <= c && forall x :: x in offers ==> x <= c
    case _ => (c == ours || c in offers) && c <= ours && forall x :: x in offers ==> c <= x
  }

  lemma {:induction false} CombineSettles(r: Rule, ours: nat, offers: seq<nat>)
    ensures Settles(r, ours, offers, CombineAll(r, ours, offers))
    decreases |offers|
  {
    if offers != [] {
      CombineSettles(r, Combine(r, ours, offers[0]), offers[1..]);
      assert offers == [offers[0]] + offers[1..];
    }
  }

  lemma SettledOnce(r: Rule, ours: nat, offers: seq<nat>, others: seq<nat>, c: nat, d: nat)
    requires Settles(r, ours, offers, c) && Settles(r, ours, others, d)
    requires forall x :: x in offers <==> x in others
    requires r.Take? ==> forall x, y :: x in offers && y in offers ==> x == y
    ensures c == d
  {
    if offers != [] {
      assert offers[0] in others;
    }
    if others != [] {
      assert others[0] in offers;
    }
  }

  lemma ConsistentOffers(ps: seq<Pair>, k: Key, m: nat, n: nat)
    requires Consistent(ps) && RuleOf(k).Take? && m in Offered(ps, k) && n in Offered(ps, k)
    ensures m == n
  {
    OfferedIs(EffectOf, ps, k, m);
    OfferedIs(EffectOf, ps, k, n);
    var x :| x in ps && EffectOf(x) == Offers(k, m);
    var y :| y in ps && EffectOf(y) == Offers(k, n);
    assert !Clash(x, y);
  }

  lemma SameForKey(p: Params, ps: seq<Pair>, qs: seq<Pair>, k: Key)
    requires Consistent(ps) && SameElements(ps, qs)
    ensures CombineAll(RuleOf(k), Get(p, k), Offered(ps, k)) == CombineAll(RuleOf(k), Get(p, k), Offered(qs, k))
  {
    forall n: nat
      ensures n in Offered(ps, k) <==> n in Offered(qs, k)
    {
      OfferedIs(EffectOf, ps, k, n);
      OfferedIs(EffectOf, qs, k, n);
    }
    forall m: nat, n: nat | RuleOf(k).Take? && m in Offered(ps, k) && n in Offered(ps, k)
      ensures m == n
    {
      ConsistentOffers(ps, k, m, n);
    }
    CombineSettles(RuleOf(k), Get(p, k), Offered(ps, k));
    CombineSettles(RuleOf(k), Get(p, k), Offered(qs, k));
    SettledOnce(RuleOf(k), Get(p, k), Offered(ps, k), Offered(qs, k),
                CombineAll(RuleOf(k), Get(p, k), Offered(ps, k)), CombineAll(RuleOf(k), Get(p, k), Offered(qs, k)));
  }

  lemma AcceptableElements(ps: seq<Pair>)
    ensures Acceptable(ps) <==> forall x :: x in ps ==> EffectOf(x) != Bad
  {
    forall i | 0 <= i < |ps|
      ensures ps[i] in ps
    {
    }
  }

  lemma ConsistentOrder(p: Params, ps: seq<Pair>, qs: seq<Pair>)
    requires Consistent(ps) && SameElements(ps, qs)
    ensures Accepted(p, qs) == Accepted(p, ps)
  {
    AcceptableElements(ps);
    AcceptableElements(qs);
    AppliedByKey(p, ps);
    AppliedByKey(p, qs);
    if Acceptable(ps) {
      var a, b := Applied(p, ps).params, Applied(p, qs).params;
      forall k
        ensures Get(a, k) == Get(b, k)
      {
        SameForKey(p, ps, qs, k);
      }
      SameParams(a, b);
    }
  }

  lemma {:induction false} OfferedSnoc(f: Pair -> Effect, ps: seq<Pair>, x: Pair, k: Key)
    ensures OfferedBy(f, ps + [x], k) == OfferedBy(f, ps, k) + OfferIn(f(x), k)
  {
    if ps == [] {
      assert [] + [x] == [x] && [x][1..] == [];
    } else {
      OfferedSnoc(f, ps[1..], x, k);
      assert (ps + [x])[1..] == ps[1..] + [x];
      Streams.Regroup(OfferIn(f(ps[0]), k), OfferedBy(f, ps[1..], k), OfferIn(f(x), k));
    }
  }

  lemma {:induction false} LastTaken(ours: nat, offers: seq<nat>, n: nat)
    ensures CombineAll(Take, ours, offers + [n]) == n
    decreases |offers|
  {
    if offers == [] {
      assert ([] + [n])[1..] == [];
    } else {
      LastTaken(offers[0], offers[1..], n);
      assert (offers + [n])[1..] == offers[1..] + [n];
    }
  }

  /** Repeating a pair that takes effect at the end makes its value the result. */
  lemma RepeatedLast(p: Params, ps: seq<Pair>, x: Pair)
    requires Acceptable(ps) && x in ps && EffectOf(x).Offers? && RuleOf(EffectOf(x).key) == Take
    ensures SameElements(ps, ps + [x]) && Applied(p, ps + [x]).ok
    ensures Get(Applied(p, ps + [x]).params, EffectOf(x).key) == EffectOf(x).n
  {
    var e := EffectOf(x);
    AppliedByKey(p, ps + [x]);
    OfferedSnoc(EffectOf, ps, x, e.key);
    LastTaken(Get(p, e.key), Offered(ps, e.key), e.n);
    AcceptableElements(ps);
  }

  lemma ClashMatters(ps: seq<Pair>, x: Pair, y: Pair)
    requires Acceptable(ps) && x in ps && y in ps && Clash(x, y)
    ensures !OnlyPairsMatter(ps)
  {
    var p := Defaults10g();
    RepeatedLast(p, ps, x);
    RepeatedLast(p, ps, y);
    assert Accepted(p, ps + [x]) != Accepted(p, ps + [y]);
  }

  lemma RefusedOrder(p: Params, ps: seq<Pair>, qs: seq<Pair>)
    requires !Acceptable(ps) && SameElements(ps, qs)
    ensures Accepted(p, qs) == None && Accepted(p, ps) == None
  {
    AcceptableElements(ps);
    AcceptableElements(qs);
    AppliedByKey(p, ps);
    AppliedByKey(p, qs);
  }

  /** Order and repetition are harmless exactly when the answer is refused anyway or no two of its pairs
      set one field to different values. */
  lemma OnlyPairsMatterIff(ps: seq<Pair>)
    ensures OnlyPairsMatter(ps) <==> !Acceptable(ps) || Consistent(ps)
  {
    if Acceptable(ps) && !Consistent(ps) {
      var x, y :| x in ps && y in ps && Clash(x, y);
      ClashMatters(ps, x, y);
    } else {
      forall p: Params, qs: seq<Pair> | SameElements(ps, qs)
        ensures Accepted(p, qs) == Accepted(p, ps)
      {
        if Acceptable(ps) {
          ConsistentOrder(p, ps, qs);
        } else {
          RefusedOrder(p, ps, qs);
        }
      }
    }
  }

  // -- First burst and maximum burst -----------------------------------------

  ghost predicate BelowAll(f: nat, ms: seq<nat>) {
    forall m :: m in ms ==> f <= m
  }

  /** Our value and the offered ones. */
  function Candidates(p: Params, ps: seq<Pair>, k: Key): (r: seq<nat>)
    ensures r != []
  {
    [Get(p, k)] + Offered(ps, k)
  }

  /** The first burst stays within the maximum burst exactly when one of the first-burst lengths, ours or an
      offered one, is within every maximum-burst length, ours and the offered ones. */
  lemma BurstsOrderedIff(p: Params, ps: seq<Pair>)
    requires Applied(p, ps).ok
    ensures var q := Applied(p, ps).params;
      q.firstBurst <= q.maxBurst <==>
        exists f :: f in Candidates(p, ps, FirstBurstLength) && BelowAll(f, Candidates(p, ps, MaxBurstLength))
  {
    var q := Applied(p, ps).params;
    AppliedByKey(p, ps);
    assert Get(q, FirstBurstLength) == q.firstBurst && Get(q, MaxBurstLength) == q.maxBurst;
    LeastOf(p, ps, FirstBurstLength);
    LeastOf(p, ps, MaxBurstLength);
    if q.firstBurst <= q.maxBurst {
      assert BelowAll(q.firstBurst, Candidates(p, ps, MaxBurstLength));
    }
  }

  lemma LeastOf(p: Params, ps: seq<Pair>, k: Key)
    requires RuleOf(k).Least?
    ensures var c := CombineAll(Least, Get(p, k), Offered(ps, k));
      c in Candidates(p, ps, k) && BelowAll(c, Candidates(p, ps, k))
  {
    CombineSettles(Least, Get(p, k), Offered(ps, k));
    assert Candidates(p, ps, k)[0] == Get(p, k);
  }

  /** An answer that only lowers the maximum burst keeps the order exactly when it does not go below
      our first burst. */
  lemma MaxBurstAloneIff(p: Params, m: u32)
    requires p.firstBurst <= p.maxBurst
    ensures var r := Applied(p, [("MaxBurstLength", Decimal(m))]);
      r.ok && (r.params.firstBurst <= r.params.maxBurst <==> p.firstBurst <= m)
  {
    var x := ("MaxBurstLength", Decimal(m));
    DecimalRoundTripIff(m, 0xFFFF_FFFF);
    assert EffectOf(x) == Offers(MaxBurstLength, m);
    assert [x][1..] == [];
    assert Applied(p, [x]) == Applied(Changed(p, EffectOf(x)), []);
  }

  // -- Legal values ----------------------------------------------------------

  /** The least and the greatest value RFC 7143 section 13 allows for a key. */
  function Bounds(k: Key): (int, int) {
    match k
    case MaxRecvDataSegmentLength => (512, 0xFF_FFFF)
    case MaxBurstLength => (512, 0xFF_FFFF)
    case FirstBurstLength => (512, 0xFF_FFFF)
    case MaxOutstandingR2T => (1, 0xFFFF)
    case MaxConnections => (1, 0xFFFF)
    case ErrorRecoveryLevel => (0, 2)
    case DefaultTime2Wait => (0, 3600)
    case DefaultTime2Retain => (0, 3600)
    case _ => (0, 1)
  }

  predicate IsLegal(k: Key, n: int) {
    Bounds(k).0 <= n <= Bounds(k).1
  }

  ghost predicate LegalParams(p: Params) {
    IsLegal(MaxRecvDataSegmentLength, p.maxRecv) && forall k :: IsLegal(k, Get(p, k))
  }

  ghost predicate LegalAnswer(ps: seq<Pair>) {
    forall k, n :: n in Offered(ps, k) ==> IsLegal(k, n)
  }

  lemma DefaultsAreLegal()
    ensures LegalParams(Defaults10g()) && Defaults10g().firstBurst <= Defaults10g().maxBurst
  {
  }

  /** A legal answer to legal parameters leaves them legal, whichever keys it has and however often; so a
      segment limit stays positive and below 2^24, and a burst stays no shorter than 512 bytes. */
  lemma LegalKept(p: Params, ps: seq<Pair>)
    requires LegalParams(p) && LegalAnswer(ps) && Applied(p, ps).ok
    ensures LegalParams(Applied(p, ps).params)
  {
    AppliedByKey(p, ps);
    forall k
      ensures IsLegal(k, CombineAll(RuleOf(k), Get(p, k), Offered(ps, k)))
    {
      CombineSettles(RuleOf(k), Get(p, k), Offered(ps, k));
    }
  }

  // -- Our own text ----------------------------------------------------------

  function Defaults10g(): Params {
    Params(1_048_576, 1_048_576, 1_048_576, 262_144, false, true, 8, 1, true, true, 0, true, true, 2, 20)
  }

  /** The keys of our text, in its order. */
  function KeyAt(i: nat): Key
    requires i < 14
  {
    match i
    case 0 => HeaderDigest
    case 1 => DataDigest
    case 2 => MaxRecvDataSegmentLength
    case 3 => MaxBurstLength
    case 4 => FirstBurstLength
    case 5 => InitialR2T
    case 6 => ImmediateData
    case 7 => MaxOutstandingR2T
    case 8 => MaxConnections
    case 9 => DataPDUInOrder
    case 10 => DataSequenceInOrder
    case 11 => ErrorRecoveryLevel
    case 12 => DefaultTime2Wait
    case 13 => DefaultTime2Retain
  }

  function FirstKeys(n: nat): (keys: seq<Key>)
    requires n <= 14
    ensures |keys| == n
  {
    seq(n, i requires 0 <= i < n => KeyAt(i))
  }

  /** What we declare for a key: for the receive limit our own. */
  function Declared(p: Params, k: Key): (n: nat)
    ensures n <= Top(k)
  {
    if k.MaxRecvDataSegmentLength? then p.maxRecv else Get(p, k)
  }

  function Shown(k: Key, n: nat): string {
    if IsDigestKey(k) then (if n == 1 then "CRC32C" else "None")
    else if IsYesNoKey(k) then (if n == 1 then "Yes" else "No")
    else Decimal(n)
  }

  function OwnPair(p: Params, k: Key): Pair {
    (NameOf(k), Shown(k, Declared(p, k)))
  }

  function OwnPairs(p: Params, keys: seq<Key>): (ps: seq<Pair>)
    ensures |ps| == |keys|
  {
    seq(|keys|, i requires 0 <= i < |keys| => OwnPair(p, keys[i]))
  }

  /** Our text as far as the first `n` keys go. */
  function TextBefore(p: Params, n: nat): string
    requires n <= 14
  {
    Join(OwnPairs(p, FirstKeys(n)))
  }

  ghost predicate IsTextBefore(text: string, p: Params, n: nat) {
    forall l: nat {:trigger Look(l)} :: Look(l) ==> n <= 14 && text == TextBefore(p, n)
  }

  lemma TextBeforeIs(text: string, p: Params, n: nat)
    ensures IsTextBefore(text, p, n) <==> n <= 14 && text == TextBefore(p, n)
  {
    assert Look(0);
  }

  function OwnText(p: Params): string {
    TextBefore(p, 14)
  }

  function Ordinal(k: Key): (i: nat)
    ensures i < 14
  {
    match k
    case HeaderDigest => 0
    case DataDigest => 1
    case MaxRecvDataSegmentLength => 2
    case MaxBurstLength => 3
    case FirstBurstLength => 4
    case InitialR2T => 5
    case ImmediateData => 6
    case MaxOutstandingR2T => 7
    case MaxConnections => 8
    case DataPDUInOrder => 9
    case DataSequenceInOrder => 10
    case ErrorRecoveryLevel => 11
    case DefaultTime2Wait => 12
    case DefaultTime2Retain => 13
  }

  lemma KeysInOrder(i: nat)
    requires i < 14
    ensures Ordinal(KeyAt(i)) == i
  {
  }

  lemma KeyAtOrdinal(k: Key)
    ensures KeyAt(Ordinal(k)) == k
  {
  }

  predicate Plain(s: string) {
    '=' !in s && NUL !in s
  }

  lemma DigestNamesArePlain(k: Key)
    requires Ordinal(k) < 3
    ensures Plain(NameOf(k))
  {
  }

  lemma FirstNamesArePlain(k: Key)
    requires 3 <= Ordinal(k) < 7
    ensures Plain(NameOf(k))
  {
  }

  lemma MiddleNamesArePlain(k: Key)
    requires 7 <= Ordinal(k) < 11
    ensures Plain(NameOf(k))
  {
  }

  lemma LastNamesArePlain(k: Key)
    requires 11 <= Ordinal(k)
    ensures Plain(NameOf(k))
  {
  }

  lemma NamesArePlain(k: Key)
    ensures Plain(NameOf(k))
  {
    if Ordinal(k) < 3 {
      DigestNamesArePlain(k);
    } else if Ordinal(k) < 7 {
      FirstNamesArePlain(k);
    } else if Ordinal(k) < 11 {
      MiddleNamesArePlain(k);
    } else {
      LastNamesArePlain(k);
    }
  }

  lemma FirstNamesAreKeys(k: Key)
    requires Ordinal(k) < 5
    ensures KeyOf(NameOf(k)) == Some(k)
  {
  }

  lemma MiddleNamesAreKeys(k: Key)
    requires 5 <= Ordinal(k) < 10
    ensures KeyOf(NameOf(k)) == Some(k)
  {
  }

  lemma LevelNamesAreKeys(k: Key)
    requires 10 <= Ordinal(k) < 12
    ensures KeyOf(NameOf(k)) == Some(k)
  {
  }

  lemma LastNamesAreKeys(k: Key)
    requires 12 <= Ordinal(k)
    ensures KeyOf(NameOf(k)) == Some(k)
  {
  }

  lemma NamesAreKeys(k: Key)
    ensures KeyOf(NameOf(k)) == Some(k)
  {
    if Ordinal(k) < 5 {
      FirstNamesAreKeys(k);
    } else if Ordinal(k) < 10 {
      MiddleNamesAreKeys(k);
    } else if Ordinal(k) < 12 {
      LevelNamesAreKeys(k);
    } else {
      LastNamesAreKeys(k);
    }
  }

  lemma ShownMeans(k: Key, n: nat)
    requires n <= Top(k)
    ensures Meaning(k, Shown(k, n)) == Some(n) && NUL !in Shown(k, n)
  {
    if !IsDigestKey(k) && !IsYesNoKey(k) {
      DecimalRoundTripIff(n, Top(k));
    }
  }

  ghost predicate Distinct(keys: seq<Key>) {
    forall i, j :: 0 <= i < j < |keys| ==> keys[i] != keys[j]
  }

  lemma OwnOffer(p: Params, own: Key, k: Key)
    ensures OfferIn(EffectOf(OwnPair(p, own)), k) == if k == own then [Declared(p, k)] else []
  {
    NamesAreKeys(own);
    ShownMeans(own, Declared(p, own));
  }

  lemma {:induction false} OwnOffers(p: Params, keys: seq<Key>, k: Key)
    requires Distinct(keys)
    ensures Offered(OwnPairs(p, keys), k) == if k in keys then [Declared(p, k)] else []
  {
    if keys != [] {
      var first, rest := keys[0], keys[1..];
      assert keys == [first] + rest;
      assert OwnPairs(p, keys)[1..] == OwnPairs(p, rest);
      OwnOffer(p, first, k);
      OwnOffers(p, rest, k);
      if k == first {
        assert k !in rest;
      }
    }
  }

  lemma KeysDistinct()
    ensures Distinct(FirstKeys(14))
  {
    forall i, j | 0 <= i < j < 14
      ensures FirstKeys(14)[i] != FirstKeys(14)[j]
    {
      KeysInOrder(i);
      KeysInOrder(j);
    }
  }

  lemma EveryKey(k: Key)
    ensures k in FirstKeys(14)
  {
    KeyAtOrdinal(k);
    assert FirstKeys(14)[Ordinal(k)] == k;
  }

  function DigestWord(on: bool): string {
    if on then "CRC32C" else "None"
  }

  function YesNo(yes: bool): string {
    if yes then "Yes" else "No"
  }

  /** What our text says, pair by pair. */
  lemma OwnPairsAre(p: Params)
    ensures OwnPairs(p, FirstKeys(14)) == [
      ("HeaderDigest", DigestWord(p.headerDigest)),
      ("DataDigest", DigestWord(p.dataDigest)),
      ("MaxRecvDataSegmentLength", Decimal(p.maxRecv)),
      ("MaxBurstLength", Decimal(p.maxBurst)),
      ("FirstBurstLength", Decimal(p.firstBurst)),
      ("InitialR2T", YesNo(p.initialR2t)),
      ("ImmediateData", YesNo(p.immediateData)),
      ("MaxOutstandingR2T", Decimal(p.maxOutstandingR2t)),
      ("MaxConnections", Decimal(p.maxConnections)),
      ("DataPDUInOrder", YesNo(p.pduInOrder)),
      ("DataSequenceInOrder", YesNo(p.sequenceInOrder)),
      ("ErrorRecoveryLevel", Decimal(p.errorRecovery)),
      ("DefaultTime2Wait", Decimal(p.time2wait)),
      ("DefaultTime2Retain", Decimal(p.time2retain))]
  {
    var ps := OwnPairs(p, FirstKeys(14));
    FirstSevenPairs(p);
    LastSevenPairs(p);
    assert ps == ps[..7] + ps[7..];
  }

  lemma MoreDigits(n: nat, d: nat, s: string)
    requires n > 0 && d < 10 && Decimal(n) == s
    ensures Decimal(10 * n + d) == s + [Digit(d)]
  {
    MoreDecimal(n, d);
  }

  lemma SomeDecimals()
    ensures Decimal(262_144) == "262144" && Decimal(1_048_576) == "1048576" && Decimal(20) == "20"
  {
    MoreDigits(2, 6, "2");
    MoreDigits(26, 2, "26");
    MoreDigits(262, 1, "262");
    MoreDigits(2621, 4, "2621");
    MoreDigits(26214, 4, "26214");
    MoreDigits(1, 0, "1");
    MoreDigits(10, 4, "10");
    MoreDigits(104, 8, "104");
    MoreDigits(1048, 5, "1048");
    MoreDigits(10485, 7, "10485");
    MoreDigits(104857, 6, "104857");
    MoreDigits(2, 0, "2");
  }

  /** The text is the pairs one after another, each with an equals sign in between and a NUL at the end: joined to what
      comes before it, another pair adds its key, its value and these two characters. */
  lemma JoinLast(ps: seq<Pair>, p: Pair)
    ensures Join(ps + [p]) == Join(ps) + (p.0 + "=" + p.1 + "\0")
    ensures |Join(ps + [p])| == |Join(ps)| + |p.0| + |p.1| + 2
  {
    JoinSnoc(ps, p);
  }

  /** What the text says when nothing is configured. */
  lemma DefaultPairs()
    ensures OwnPairs(Defaults10g(), FirstKeys(14)) == [
      ("HeaderDigest", "CRC32C"),
      ("DataDigest", "CRC32C"),
      ("MaxRecvDataSegmentLength", "1048576"),
      ("MaxBurstLength", "1048576"),
      ("FirstBurstLength", "262144"),
      ("InitialR2T", "No"),
      ("ImmediateData", "Yes"),
      ("MaxOutstandingR2T", "8"),
      ("MaxConnections", "1"),
      ("DataPDUInOrder", "Yes"),
      ("DataSequenceInOrder", "Yes"),
      ("ErrorRecoveryLevel", "0"),
      ("DefaultTime2Wait", "2"),
      ("DefaultTime2Retain", "20")]
  {
    OwnPairsAre(Defaults10g());
    SomeDecimals();
  }

  lemma FirstSevenPairs(p: Params)
    ensures OwnPairs(p, FirstKeys(14))[..7] == [
      ("HeaderDigest", DigestWord(p.headerDigest)),
      ("DataDigest", DigestWord(p.dataDigest)),
      ("MaxRecvDataSegmentLength", Decimal(p.maxRecv)),
      ("MaxBurstLength", Decimal(p.maxBurst)),
      ("FirstBurstLength", Decimal(p.firstBurst)),
      ("InitialR2T", YesNo(p.initialR2t)),
      ("ImmediateData", YesNo(p.immediateData))]
  {
  }

  lemma LastSevenPairs(p: Params)
    ensures OwnPairs(p, FirstKeys(14))[7..] == [
      ("MaxOutstandingR2T", Decimal(p.maxOutstandingR2t)),
      ("MaxConnections", Decimal(p.maxConnections)),
      ("DataPDUInOrder", YesNo(p.pduInOrder)),
      ("DataSequenceInOrder", YesNo(p.sequenceInOrder)),
      ("ErrorRecoveryLevel", Decimal(p.errorRecovery)),
      ("DefaultTime2Wait", Decimal(p.time2wait)),
      ("DefaultTime2Retain", Decimal(p.time2retain))]
  {
  }

  /** Our own text, parsed and applied to the parameters it was made of, changes nothing except that the
      send limit becomes our receive limit. */
  lemma OwnTextIsFixed(p: Params)
    ensures Accepted(p, Pairs(OwnText(p))) == Some(p.(maxSend := p.maxRecv))
  {
    OwnPairsAreFine(p, FirstKeys(14));
    CleanPairsBack(OwnPairs(p, FirstKeys(14)));
    AppliedByKey(p, OwnPairs(p, FirstKeys(14)));
    var q, want := Applied(p, OwnPairs(p, FirstKeys(14))).params, p.(maxSend := p.maxRecv);
    forall k
      ensures Get(q, k) == Get(want, k)
    {
      OwnOffersTaken(p, k);
    }
    SameParams(q, want);
  }

  lemma OwnPairsAreFine(p: Params, keys: seq<Key>)
    ensures var ps := OwnPairs(p, keys);
      Acceptable(ps) && forall i :: 0 <= i < |ps| ==> Clean(ps[i])
  {
    var ps := OwnPairs(p, keys);
    forall i | 0 <= i < |ps|
      ensures Clean(ps[i]) && EffectOf(ps[i]) != Bad
    {
      NamesAreKeys(keys[i]);
      NamesArePlain(keys[i]);
      ShownMeans(keys[i], Declared(p, keys[i]));
    }
  }

  lemma OwnOffersTaken(p: Params, k: Key)
    ensures CombineAll(RuleOf(k), Get(p, k), Offered(OwnPairs(p, FirstKeys(14)), k)) == Get(p.(maxSend := p.maxRecv), k)
  {
    EveryKey(k);
    KeysDistinct();
    OwnOffers(p, FirstKeys(14), k);
    var n := Declared(p, k);
    assert [n][1..] == [];
    assert CombineAll(RuleOf(k), Get(p, k), [n]) == Combine(RuleOf(k), Get(p, k), n);
  }

  // -- The parameters in place -----------------------------------------------

  /** Bytes that are not UTF-8 (None) hold no pairs. */
  function PairsOf(data: Option<string>): seq<Pair> {
    match data
    case None => []
    case Some(text) => Pairs(text)
  }

  method ParseEntry(entry: string) returns (pairs: seq<Pair>)
    ensures pairs == PairsOfEntry(entry)
  {
    pairs := [];
    if entry != "" {
      var k := Find(entry, '=', 0);
      if k < |entry| {
        pairs := [(entry[..k], entry[k + 1..])];
      }
    }
  }

  method ParseKvPairs(data: Option<string>) returns (pairs: seq<Pair>)
    ensures pairs == PairsOf(data)
  {
    pairs := [];
    if data.None? {
      return;
    }
    var rest, more := data.value, true;
    while more
      invariant pairs + (if more then Pairs(rest) else []) == Pairs(data.value)
      decreases more, |rest|
    {
      var e := Find(rest, NUL, 0);
      var found := ParseEntry(rest[..e]);
      if e == |rest| {
        assert found + [] == found;
        more := false;
      } else {
        Streams.Regroup(pairs, found, Pairs(rest[e + 1..]));
        rest := rest[e + 1..];
      }
      pairs := pairs + found;
    }
  }

  lemma {:induction false} JoinSnoc(ps: seq<Pair>, x: Pair)
    ensures Join(ps + [x]) == Join(ps) + Entry(x)
  {
    if ps == [] {
      assert [x][1..] == [];
      assert Join([x]) == Entry(x) + "";
    } else {
      JoinSnoc(ps[1..], x);
      assert (ps + [x])[1..] == ps[1..] + [x];
    }
  }

  lemma OwnPairsGrow(p: Params, n: nat)
    requires n < 14
    ensures OwnPairs(p, FirstKeys(n + 1)) == OwnPairs(p, FirstKeys(n)) + [OwnPair(p, KeyAt(n))]
  {
  }

  lemma TextGrows(p: Params, n: nat)
    requires n < 14
    ensures TextBefore(p, n + 1) == TextBefore(p, n) + Entry(OwnPair(p, KeyAt(n)))
  {
    JoinSnoc(OwnPairs(p, FirstKeys(n)), OwnPair(p, KeyAt(n)));
    OwnPairsGrow(p, n);
  }

  lemma TextGrowsBy(text: string, p: Params, k: Key)
    requires IsTextBefore(text, p, Ordinal(k))
    ensures IsTextBefore(text + Entry(OwnPair(p, k)), p, Ordinal(k) + 1)
  {
    TextBeforeIs(text, p, Ordinal(k));
    TextGrows(p, Ordinal(k));
    KeyAtOrdinal(k);
    TextBeforeIs(text + Entry(OwnPair(p, k)), p, Ordinal(k) + 1);
  }

  lemma NoTextYet(p: Params)
    ensures IsTextBefore("", p, 0)
  {
    TextBeforeIs("", p, 0);
  }

  // -- Our own text, built up ------------------------------------------------

  /** Adds the pair of the next key. */
  method PushPair(text: string, k: Key, value: string, ghost p: Params) returns (longer: string)
    requires IsTextBefore(text, p, Ordinal(k)) && value == Shown(k, Declared(p, k))
    ensures IsTextBefore(longer, p, Ordinal(k) + 1)
  {
    longer := text + Entry((NameOf(k), value));
    TextGrowsBy(text, p, k);
  }

  method PushNumber(text: string, k: Key, n: nat, ghost p: Params) returns (longer: string)
    requires IsTextBefore(text, p, Ordinal(k)) && !IsDigestKey(k) && !IsYesNoKey(k) && n == Declared(p, k)
    ensures IsTextBefore(longer, p, Ordinal(k) + 1)
  {
    longer := PushPair(text, k, Decimal(n), p);
  }

  method PushYesNo(text: string, k: Key, yes: bool, ghost p: Params) returns (longer: string)
    requires IsTextBefore(text, p, Ordinal(k)) && IsYesNoKey(k) && Number(yes) == Declared(p, k)
    ensures IsTextBefore(longer, p, Ordinal(k) + 1)
  {
    longer := PushPair(text, k, if yes then "Yes" else "No", p);
  }

  method PushDigest(text: string, k: Key, on: bool, ghost p: Params) returns (longer: string)
    requires IsTextBefore(text, p, Ordinal(k)) && IsDigestKey(k) && Number(on) == Declared(p, k)
    ensures IsTextBefore(longer, p, Ordinal(k) + 1)
  {
    longer := PushPair(text, k, if on then "CRC32C" else "None", p);
  }

  method PushDigestKeys(p: Params) returns (text: string)
    ensures IsTextBefore(text, p, Ordinal(MaxRecvDataSegmentLength))
  {
    text := "";
    NoTextYet(p);
    text := PushDigest(text, HeaderDigest, p.headerDigest, p);
    text := PushDigest(text, DataDigest, p.dataDigest, p);
  }

  method PushLengthKeys(text0: string, p: Params) returns (text: string)
    requires IsTextBefore(text0, p, Ordinal(MaxRecvDataSegmentLength))
    ensures IsTextBefore(text, p, Ordinal(InitialR2T))
  {
    text := PushNumber(text0, MaxRecvDataSegmentLength, p.maxRecv, p);
    text := PushNumber(text, MaxBurstLength, p.maxBurst, p);
    text := PushNumber(text, FirstBurstLength, p.firstBurst, p);
  }

  method PushTransferKeys(text0: string, p: Params) returns (text: string)
    requires IsTextBefore(text0, p, Ordinal(InitialR2T))
    ensures IsTextBefore(text, p, Ordinal(MaxOutstandingR2T))
  {
    text := PushYesNo(text0, InitialR2T, p.initialR2t, p);
    text := PushYesNo(text, ImmediateData, p.immediateData, p);
  }

  method PushCountKeys(text0: string, p: Params) returns (text: string)
    requires IsTextBefore(text0, p, Ordinal(MaxOutstandingR2T))
    ensures IsTextBefore(text, p, Ordinal(DataPDUInOrder))
  {
    text := PushNumber(text0, MaxOutstandingR2T, p.maxOutstandingR2t, p);
    text := PushNumber(text, MaxConnections, p.maxConnections, p);
  }

  method PushOrderKeys(text0: string, p: Params) returns (text: string)
    requires IsTextBefore(text0, p, Ordinal(DataPDUInOrder))
    ensures IsTextBefore(text, p, Ordinal(ErrorRecoveryLevel))
  {
    text := PushYesNo(text0, DataPDUInOrder, p.pduInOrder, p);
    text := PushYesNo(text, DataSequenceInOrder, p.sequenceInOrder, p);
  }

  method PushRecoveryKeys(text0: string, p: Params) returns (text: string)
    requires IsTextBefore(text0, p, Ordinal(ErrorRecoveryLevel))
    ensures IsTextBefore(text, p, 14)
  {
    text := PushNumber(text0, ErrorRecoveryLevel, p.errorRecovery, p);
    text := PushNumber(text, DefaultTime2Wait, p.time2wait, p);
    text := PushNumber(text, DefaultTime2Retain, p.time2retain, p);
  }

  method BuildText(p: Params) returns (text: string)
    ensures text == OwnText(p)
  {
    text := PushDigestKeys(p);
    text := PushLengthKeys(text, p);
    text := PushTransferKeys(text, p);
    text := PushCountKeys(text, p);
    text := PushOrderKeys(text, p);
    text := PushRecoveryKeys(text, p);
    TextBeforeIs(text, p, 14);
  }

  class NegotiatedParams {
    var maxRecv: u32
    var maxSend: u32
    var maxBurst: u32
    var firstBurst: u32
    var initialR2t: bool
    var immediateData: bool
    var maxOutstandingR2t: u32
    var maxConnections: u32
    var pduInOrder: bool
    var sequenceInOrder: bool
    var errorRecovery: byte
    var headerDigest: bool
    var dataDigest: bool
    var time2wait: u32
    var time2retain: u32

    function Value(): Params
      reads this
    {
      Params(maxRecv, maxSend, maxBurst, firstBurst, initialR2t, immediateData, maxOutstandingR2t, maxConnections,
             pduInOrder, sequenceInOrder, errorRecovery, headerDigest, dataDigest, time2wait, time2retain)
    }

    constructor (p: Params)
      ensures Value() == p
    {
      maxRecv, maxSend, maxBurst, firstBurst := p.maxRecv, p.maxSend, p.maxBurst, p.firstBurst;
      initialR2t, immediateData := p.initialR2t, p.immediateData;
      maxOutstandingR2t, maxConnections := p.maxOutstandingR2t, p.maxConnections;
      pduInOrder, sequenceInOrder, errorRecovery := p.pduInOrder, p.sequenceInOrder, p.errorRecovery;
      headerDigest, dataDigest := p.headerDigest, p.dataDigest;
      time2wait, time2retain := p.time2wait, p.time2retain;
    }

    /** Every key with our value, each pair ended by a NUL. */
    method BuildOperationalText() returns (text: string)
      ensures text == OwnText(Value())
    {
      text := BuildText(Value());
    }

    /** Pairs take effect one after another; at the first bad value the rest is left out. */
    method ApplyTargetResponse(data: Option<string>) returns (ok: bool)
      modifies this
      ensures Outcome(Value(), ok) == Applied(old(Value()), PairsOf(data))
    {
      var pairs := ParseKvPairs(data);
      var i := 0;
      while i < |pairs|
        invariant 0 <= i <= |pairs| && Applied(Value(), pairs[i..]) == Applied(old(Value()), pairs)
      {
        ok := ApplyPair(pairs[i].0, pairs[i].1);
        if !ok {
          return;
        }
        assert pairs[i..][1..] == pairs[i + 1..];
        i := i + 1;
      }
      ok := true;
    }

    method ApplyPair(key: string, value: string) returns (ok: bool)
      modifies this
      ensures ok <==> EffectOf((key, value)) != Bad
      ensures Value() == if ok then Changed(old(Value()), EffectOf((key, value))) else old(Value())
    {
      ok := true;
      match KeyOf(key)
      case None =>
      case Some(k) =>
        if IsDigestKey(k) {
          ok := ApplyDigest(k, value);
        } else if IsYesNoKey(k) {
          if RuleOf(k).Take? {
            ApplyOrder(k, value == "Yes");
          } else {
            ApplyYesNo(k, value == "Yes");
          }
        } else {
          var v := ParseUnsigned(value, if k.ErrorRecoveryLevel? then 0xFF else 0xFFFF_FFFF);
          ok := v.Some?;
          if ok {
            if RuleOf(k).Least? {
              ApplyLimit(k, v.value);
            } else {
              ApplyNumber(k, v.value);
            }
          }
        }
    }

    method ApplyDigest(k: Key, value: string) returns (ok: bool)
      requires IsDigestKey(k)
      modifies this`headerDigest, this`dataDigest
      ensures ok <==> Meaning(k, value).Some?
      ensures Value() == if ok then Changed(old(Value()), Offers(k, Meaning(k, value).value)) else old(Value())
    {
      ok := value == "CRC32C" || value == "None";
      if ok {
        if k.HeaderDigest? {
          headerDigest := value == "CRC32C";
        } else {
          dataDigest := value == "CRC32C";
        }
      }
    }

    method ApplyYesNo(k: Key, yes: bool)
      requires k.InitialR2T? || k.ImmediateData?
      modifies this`initialR2t, this`immediateData
      ensures Value() == Changed(old(Value()), Offers(k, Number(yes)))
    {
      match k
      case InitialR2T => initialR2t := initialR2t || yes;
      case ImmediateData => immediateData := immediateData && yes;
    }

    method ApplyOrder(k: Key, yes: bool)
      requires k.DataPDUInOrder? || k.DataSequenceInOrder?
      modifies this`pduInOrder, this`sequenceInOrder
      ensures Value() == Changed(old(Value()), Offers(k, Number(yes)))
    {
      match k
      case DataPDUInOrder => pduInOrder := yes;
      case DataSequenceInOrder => sequenceInOrder := yes;
    }

    method ApplyLimit(k: Key, v: u32)
      requires RuleOf(k).Least? && v <= Top(k)
      modifies this`maxBurst, this`firstBurst, this`maxOutstandingR2t, this`maxConnections, this`errorRecovery
      ensures Value() == Changed(old(Value()), Offers(k, v))
    {
      match k
      case MaxBurstLength => maxBurst := Min(maxBurst, v);
      case FirstBurstLength => firstBurst := Min(firstBurst, v);
      case MaxOutstandingR2T => maxOutstandingR2t := Min(maxOutstandingR2t, v);
      case MaxConnections => maxConnections := Min(maxConnections, v);
      case ErrorRecoveryLevel => errorRecovery := Min(errorRecovery, v);
    }

    method ApplyNumber(k: Key, v: u32)
      requires k.MaxRecvDataSegmentLength? || k.DefaultTime2Wait? || k.DefaultTime2Retain?
      modifies this`maxSend, this`time2wait, this`time2retain
      ensures Value() == Changed(old(Value()), Offers(k, v))
    {
      match k
      case MaxRecvDataSegmentLength => maxSend := v;
      case DefaultTime2Wait => time2wait := v;
      case DefaultTime2Retain => time2retain := v;
    }
  }
}
