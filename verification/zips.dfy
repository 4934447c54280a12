/** `Zip3Generator` and `Zip4Generator` of `Interpol.swift`: iterators that
    pull one element from each underlying iterator in turn and stop (return
    `nil`) as soon as one of them is exhausted. An underlying iterator over a
    sequence is modelled by the part of the sequence it has not yet yielded. */
module Zips {
  import opened Wrappers
  import opened RealMath

  function Min3(a: nat, b: nat, c: nat): nat
  {
    MinNat(MinNat(a, b), c)
  }

  function Min4(a: nat, b: nat, c: nat, d: nat): nat
  {
    MinNat(Min3(a, b, c), d)
  }

  datatype Zip3Generator<A, B, C> = Zip3Generator(first: seq<A>, second: seq<B>, third: seq<C>)

  /** One call of `next()`. The optional bindings are evaluated left to right,
      so the iterators before the first exhausted one have been advanced. */
  function Next3<A, B, C>(g: Zip3Generator<A, B, C>): (res: (Option<(A, B, C)>, Zip3Generator<A, B, C>))
    ensures res.0.Some? <==> |g.first| > 0 && |g.second| > 0 && |g.third| > 0
    ensures res.0.Some? ==> res.0.value == (g.first[0], g.second[0], g.third[0])
    ensures res.0.Some? ==> res.1 == Zip3Generator(g.first[1..], g.second[1..], g.third[1..])
  {
    if |g.first| == 0 then (None, g)
    else if |g.second| == 0 then (None, g.(first := g.first[1..]))
    else if |g.third| == 0 then (None, g.(first := g.first[1..], second := g.second[1..]))
    else (Some((g.first[0], g.second[0], g.third[0])), Zip3Generator(g.first[1..], g.second[1..], g.third[1..]))
  }

  /** Once `next()` has returned `nil` it keeps returning `nil`. */
  lemma Next3StaysExhausted<A, B, C>(g: Zip3Generator<A, B, C>)
    requires Next3(g).0.None?
    ensures Next3(Next3(g).1).0.None?
  {
  }

  /** Every tuple the generator yields, in order, until the first `nil`. */
  function Collect3<A, B, C>(g: Zip3Generator<A, B, C>): (r: seq<(A, B, C)>)
    ensures |r| == Min3(|g.first|, |g.second|, |g.third|)
    ensures forall k :: 0 <= k < |r| ==> r[k] == (g.first[k], g.second[k], g.third[k])
    decreases |g.first|
  {
    var (item, rest) := Next3(g);
    if item.None? then [] else [item.value] + Collect3(rest)
  }

  /** The file-private three-way `zip`. */
  function Zip3<A, B, C>(a: seq<A>, b: seq<B>, c: seq<C>): (r: seq<(A, B, C)>)
    ensures |r| == Min3(|a|, |b|, |c|)
    ensures forall k :: 0 <= k < |r| ==> r[k] == (a[k], b[k], c[k])
  {
    Collect3(Zip3Generator(a, b, c))
  }

  datatype Zip4Generator<A, B, C, D> = Zip4Generator(first: seq<A>, second: seq<B>, third: seq<C>, fourth: seq<D>)

  function Next4<A, B, C, D>(g: Zip4Generator<A, B, C, D>): (res: (Option<(A, B, C, D)>, Zip4Generator<A, B, C, D>))
    ensures res.0.Some? <==> |g.first| > 0 && |g.second| > 0 && |g.third| > 0 && |g.fourth| > 0
    ensures res.0.Some? ==> res.0.value == (g.first[0], g.second[0], g.third[0], g.fourth[0])
    ensures res.0.Some? ==> res.1 == Zip4Generator(g.first[1..], g.second[1..], g.third[1..], g.fourth[1..])
  {
    if |g.first| == 0 then (None, g)
    else if |g.second| == 0 then (None, g.(first := g.first[1..]))
    else if |g.third| == 0 then (None, g.(first := g.first[1..], second := g.second[1..]))
    else if |g.fourth| == 0 then (None, g.(first := g.first[1..], second := g.second[1..], third := g.third[1..]))
    else (Some((g.first[0], g.second[0], g.third[0], g.fourth[0])),
          Zip4Generator(g.first[1..], g.second[1..], g.third[1..], g.fourth[1..]))
  }

  lemma Next4StaysExhausted<A, B, C, D>(g: Zip4Generator<A, B, C, D>)
    requires Next4(g).0.None?
    ensures Next4(Next4(g).1).0.None?
  {
  }

  function Collect4<A, B, C, D>(g: Zip4Generator<A, B, C, D>): (r: seq<(A, B, C, D)>)
    ensures |r| == Min4(|g.first|, |g.second|, |g.third|, |g.fourth|)
    ensures forall k :: 0 <= k < |r| ==> r[k] == (g.first[k], g.second[k], g.third[k], g.fourth[k])
    decreases |g.first|
  {
    var (item, rest) := Next4(g);
    if item.None? then [] else [item.value] + Collect4(rest)
  }

  /** The file-private four-way `zip`. */
  function Zip4<A, B, C, D>(a: seq<A>, b: seq<B>, c: seq<C>, d: seq<D>): (r: seq<(A, B, C, D)>)
    ensures |r| == Min4(|a|, |b|, |c|, |d|)
    ensures forall k :: 0 <= k < |r| ==> r[k] == (a[k], b[k], c[k], d[k])
  {
    Collect4(Zip4Generator(a, b, c, d))
  }

  /** The standard library's two-way `zip`, also truncating to the shorter. */
  function Zip2<A, B>(a: seq<A>, b: seq<B>): (r: seq<(A, B)>)
    ensures |r| == MinNat(|a|, |b|)
    ensures forall k :: 0 <= k < |r| ==> r[k] == (a[k], b[k])
  {
    seq(MinNat(|a|, |b|), k requires 0 <= k < |a| && k < |b| => (a[k], b[k]))
  }
}
