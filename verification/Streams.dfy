/** Lists of items on a byte stream, for any way of writing and reading one of them. */
module Streams {
  import opened Bytes
  import opened Wrappers

  datatype Received<+T, +E> =
    | Ok(item: T, rest: seq<byte>)
    | Err(error: E)

  function Map<S, T>(f: S -> T, s: seq<S>): (r: seq<T>)
    ensures |r| == |s|
    ensures forall i :: 0 <= i < |s| ==> r[i] == f(s[i])
  {
    seq(|s|, i requires 0 <= i < |s| => f(s[i]))
  }

  function EncodeAll<T>(encode: T -> seq<byte>, items: seq<T>): seq<byte> {
    if items == [] then [] else EncodeAll(encode, items[..|items| - 1]) + encode(items[|items| - 1])
  }

  lemma {:induction false} EncodeAllCons<T>(encode: T -> seq<byte>, items: seq<T>)
    requires items != []
    ensures EncodeAll(encode, items) == encode(items[0]) + EncodeAll(encode, items[1..])
  {
    var n := |items| - 1;
    if n > 0 {
      EncodeAllCons(encode, items[..n]);
      assert items[..n][1..] == items[1..][..n - 1];
    } else {
      assert items[..0] == [] && items[1..] == [];
    }
  }

  lemma EncodeAllMore<T>(encode: T -> seq<byte>, items: seq<T>, item: T, before: seq<byte>)
    ensures before + EncodeAll(encode, items) + encode(item) == before + EncodeAll(encode, items + [item])
  {
    assert (items + [item])[..|items|] == items;
  }

  lemma {:induction false} EncodeAllConcat<T>(encode: T -> seq<byte>, a: seq<T>, b: seq<T>)
    ensures EncodeAll(encode, a + b) == EncodeAll(encode, a) + EncodeAll(encode, b)
  {
    if b == [] {
      assert a + b == a;
    } else {
      var n := |b| - 1;
      EncodeAllConcat(encode, a, b[..n]);
      assert (a + b)[..|a + b| - 1] == a + b[..n];
    }
  }

  /** `n` items received one after another, and what is left of the stream. */
  function DecodeMany<T, E>(decode: seq<byte> -> Received<T, E>, n: nat, s: seq<byte>): Option<(seq<T>, seq<byte>)> {
    if n == 0 then Some(([], s))
    else
      match decode(s)
      case Err(_) => None
      case Ok(item, rest) =>
        match DecodeMany(decode, n - 1, rest)
        case None => None
        case Some(more) => Some(([item] + more.0, more.1))
  }

  /** Items received and then one more. */
  lemma {:induction false} DecodeOneMore<T, E>(decode: seq<byte> -> Received<T, E>, items: seq<T>, s: seq<byte>, rest: seq<byte>)
    requires DecodeMany(decode, |items|, s) == Some((items, rest)) && decode(rest).Ok?
    ensures DecodeMany(decode, |items| + 1, s) == Some((items + [decode(rest).item], decode(rest).rest))
    decreases |items|
  {
    if items == [] {
      assert DecodeMany(decode, 0, decode(s).rest) == Some(([], decode(s).rest));
      assert [decode(s).item] + [] == [] + [decode(s).item];
    } else {
      var got := DecodeMany(decode, |items| - 1, decode(s).rest).value.0;
      assert items == [decode(s).item] + got;
      assert got == items[1..];
      DecodeOneMore(decode, items[1..], decode(s).rest, rest);
      assert items + [decode(rest).item] == [items[0]] + (items[1..] + [decode(rest).item]);
    }
  }

  /** One item that is fit arrives with what follows it unread; one that is not never arrives. */
  ghost predicate ArrivesIff<S(!new), T, E>(encode: S -> seq<byte>, decode: seq<byte> -> Received<T, E>,
                                            arrived: S -> T, fit: S -> bool)
  {
    forall p: S, suffix: seq<byte> ::
      var r := decode(encode(p) + suffix);
      (fit(p) ==> r == Ok(arrived(p), suffix)) && (r.Ok? && r.item == arrived(p) ==> fit(p))
  }

  /** Each of these items arrives with what follows it unread. */
  ghost predicate EachArrives<S, T(!new), E>(encode: S -> seq<byte>, decode: seq<byte> -> Received<T, E>,
                                             arrived: S -> T, items: seq<S>)
  {
    forall i, suffix: seq<byte> :: 0 <= i < |items| ==> decode(encode(items[i]) + suffix) == Ok(arrived(items[i]), suffix)
  }

  /** What is received of a list is what is received of its first item, then of the others. */
  lemma FirstThenOthers<T(!new), E>(decode: seq<byte> -> Received<T, E>, n: nat, s: seq<byte>,
                                    first: T, others: seq<T>, suffix: seq<byte>)
    requires n > 0
    ensures DecodeMany(decode, n, s) == Some(([first] + others, suffix)) <==>
      decode(s).Ok? && decode(s).item == first && DecodeMany(decode, n - 1, decode(s).rest) == Some((others, suffix))
  {
    if decode(s).Ok? && DecodeMany(decode, n - 1, decode(s).rest).Some? {
      var got := DecodeMany(decode, n - 1, decode(s).rest).value.0;
      assert ([decode(s).item] + got)[0] == decode(s).item && ([decode(s).item] + got)[1..] == got;
      assert ([first] + others)[0] == first && ([first] + others)[1..] == others;
    }
  }

  lemma OthersArrive<S, T(!new), E>(encode: S -> seq<byte>, decode: seq<byte> -> Received<T, E>, arrived: S -> T,
                                    items: seq<S>)
    requires items != [] && EachArrives(encode, decode, arrived, items)
    ensures EachArrives(encode, decode, arrived, items[1..])
  {
    forall i, suffix: seq<byte> | 0 <= i < |items[1..]|
      ensures decode(encode(items[1..][i]) + suffix) == Ok(arrived(items[1..][i]), suffix)
    {
      assert items[1..][i] == items[i + 1];
    }
  }

  /** The stream of a list is its first item's bytes and then that of the others. */
  lemma StreamOfFirst<S>(encode: S -> seq<byte>, items: seq<S>, suffix: seq<byte>)
    requires items != []
    ensures EncodeAll(encode, items) + suffix == encode(items[0]) + (EncodeAll(encode, items[1..]) + suffix)
  {
    EncodeAllCons(encode, items);
    assert encode(items[0]) + EncodeAll(encode, items[1..]) + suffix
        == encode(items[0]) + (EncodeAll(encode, items[1..]) + suffix);
  }

  lemma MapSnoc<S, T>(f: S -> T, s: seq<S>, x: S)
    ensures Map(f, s + [x]) == Map(f, s) + [f(x)]
  {
  }

  lemma MapOfFirst<S, T>(f: S -> T, s: seq<S>)
    requires s != []
    ensures Map(f, s) == [f(s[0])] + Map(f, s[1..])
  {
  }

  lemma {:induction false} ManyArrive<S, T(!new), E>(encode: S -> seq<byte>, decode: seq<byte> -> Received<T, E>,
                                                     arrived: S -> T, items: seq<S>, suffix: seq<byte>)
    requires EachArrives(encode, decode, arrived, items)
    ensures DecodeMany(decode, |items|, EncodeAll(encode, items) + suffix) == Some((Map(arrived, items), suffix))
    decreases |items|
  {
    if items == [] {
      assert EncodeAll(encode, items) + suffix == suffix;
    } else {
      var rest := EncodeAll(encode, items[1..]) + suffix;
      assert decode(encode(items[0]) + rest) == Ok(arrived(items[0]), rest);
      OthersArrive(encode, decode, arrived, items);
      ManyArrive(encode, decode, arrived, items[1..], suffix);
      StreamOfFirst(encode, items, suffix);
      MapOfFirst(arrived, items);
    }
  }

  lemma {:induction false} ManyArriveIff<S(!new), T(!new), E>(encode: S -> seq<byte>, decode: seq<byte> -> Received<T, E>,
      arrived: S -> T, fit: S -> bool, items: seq<S>, suffix: seq<byte>)
    requires ArrivesIff(encode, decode, arrived, fit)
    ensures DecodeMany(decode, |items|, EncodeAll(encode, items) + suffix) == Some((Map(arrived, items), suffix))
       <==> forall i :: 0 <= i < |items| ==> fit(items[i])
    decreases |items|
  {
    if items == [] {
      assert EncodeAll(encode, items) + suffix == suffix;
    } else {
      var first, more := items[0], items[1..];
      var rest := EncodeAll(encode, more) + suffix;
      ManyArriveIff(encode, decode, arrived, fit, more, suffix);
      StreamOfFirst(encode, items, suffix);
      MapOfFirst(arrived, items);
      FirstThenOthers(decode, |items|, encode(first) + rest, arrived(first), Map(arrived, more), suffix);
      FitSplits(fit, items);
    }
  }

  lemma FitSplits<S>(fit: S -> bool, items: seq<S>)
    requires items != []
    ensures (forall i :: 0 <= i < |items| ==> fit(items[i])) <==>
      fit(items[0]) && forall i :: 0 <= i < |items[1..]| ==> fit(items[1..][i])
  {
    assert items == [items[0]] + items[1..];
  }

  // -- Lists of lists --------------------------------------------------------

  function Flatten<T>(ss: seq<seq<T>>): seq<T> {
    if ss == [] then [] else Flatten(ss[..|ss| - 1]) + ss[|ss| - 1]
  }

  lemma FlattenSnoc<T>(ss: seq<seq<T>>, s: seq<T>)
    ensures Flatten(ss + [s]) == Flatten(ss) + s
  {
    assert (ss + [s])[..|ss|] == ss;
  }

  lemma Regroup<T>(a: seq<T>, b: seq<T>, c: seq<T>)
    ensures a + (b + c) == a + b + c
  {
  }

  lemma {:induction false} FlattenConcat<T>(a: seq<seq<T>>, b: seq<seq<T>>)
    ensures Flatten(a + b) == Flatten(a) + Flatten(b)
    decreases |b|
  {
    if b == [] {
      assert a + b == a;
    } else {
      var n := |b| - 1;
      FlattenConcat(a, b[..n]);
      FlattenSnoc(a + b[..n], b[n]);
      assert a + b == a + b[..n] + [b[n]];
      Regroup(Flatten(a), Flatten(b[..n]), b[n]);
    }
  }
}
