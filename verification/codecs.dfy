/**
  The part of an io-ts codec that the two converters read: its `_tag`, its `name`, its object
  identity and its children. Decoding itself lives in the codec framework and is not modelled.
*/
module Codecs {

  /** One constructor per `_tag` the converters branch on. `id` stands for object identity
      (the source compares codecs with `===`); `Other` covers every remaining tag
      (primitives, literals, keyof, refinements, ...). `getRoot` makes a leaf of all of them,
      and here no child codec is ever found under one; a refinement's `type`, which `toErrors`
      would read under an `IndexedProduct`, is not modelled. */
  datatype Codec =
    | Dictionary(id: nat, name: string, domain: Codec, codomain: Codec)
    | Interface(id: nat, name: string, props: map<string, Codec>)
    | Partial(id: nat, name: string, props: map<string, Codec>)
    | Tuple(id: nat, name: string, types: seq<Codec>)
    | ArrayOf(id: nat, name: string, elem: Codec)
    | ReadonlyArray(id: nat, name: string, elem: Codec)
    | Union(id: nat, name: string, types: seq<Codec>)
    | Intersection(id: nat, name: string, types: seq<Codec>)
    | Exact(id: nat, name: string, inner: Codec)
    | Readonly(id: nat, name: string, inner: Codec)
    | Recursive(id: nat, name: string, inner: Codec)
    | Other(id: nat, name: string)

  /** The wrapper codecs: they add a display name but keep the wrapped codec's structure. */
  predicate IsWrapper(c: Codec)
  {
    c.Exact? || c.Readonly? || c.Recursive?
  }

  /** The codec left after peeling off every wrapper. */
  function Base(c: Codec): (b: Codec)
    ensures !IsWrapper(b)
    decreases c
  {
    if IsWrapper(c) then Base(c.inner) else c
  }

  /** The codec left after peeling off `Exact` wrappers only. */
  function StripExact(c: Codec): (b: Codec)
    ensures !b.Exact?
    ensures Base(b) == Base(c)
    decreases c
  {
    if c.Exact? then StripExact(c.inner) else c
  }
}
