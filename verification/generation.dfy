/**
 The generate direction: the `operator()(value)` overloads that rebuild the
 element sequence a value stands for.
 */
module Generation {
  import opened Wrappers
  import opened Matchers

  /** Rebuild the elements `v` stands for: the element itself for `Any`/`Range`,
      the literal for `Lit`, the indexed member for `OneOf`, the tagged branch's
      elements for `Or`, the concatenation of parts or items for `And`/`Star`/
      `Plus`, and the inner elements or nothing for `Opt`. */
  function Generate(m: Matcher, v: Value): seq<Elem>
    requires Fits(m, v)
    decreases m, 1, 0
  {
    match m
    case Any => [v.elem]
    case Lit(lit) => lit
    case OneOf(members) => [members[v.idx]]
    case Range(_, _) => [v.elem]
    case Or(bs) => Generate(bs[v.tag], v.payload)
    case And(_) => GenerateParts(m, v.slots, 0)
    case Star(_) => GenerateItems(m, v.items)
    case Plus(_) => GenerateItems(m, v.items)
    case Opt(inner) => if v.env.Some? then Generate(inner, v.env.value) else []
  }

  /** Concatenation, in branch order, of the values `slots` of the parts of an
      `And` from part `i` on. */
  function GenerateParts(m: Matcher, slots: seq<Value>, i: nat): seq<Elem>
    requires m.And? && i + |slots| == |m.branches|
    requires forall k :: 0 <= k < |slots| ==> Fits(m.branches[i + k], slots[k])
    decreases m, 0, |slots|
  {
    if |slots| == 0 then []
    else Generate(m.branches[i], slots[0]) + GenerateParts(m, slots[1..], i + 1)
  }

  /** Concatenation, in collection order, of the items of a `Star`/`Plus` value. */
  function GenerateItems(m: Matcher, items: seq<Value>): seq<Elem>
    requires m.Star? || m.Plus?
    requires forall k :: 0 <= k < |items| ==> Fits(m.inner, items[k])
    decreases m, 0, |items|
  {
    if |items| == 0 then []
    else Generate(m.inner, items[0]) + GenerateItems(m, items[1..])
  }
}
