/**
 Parse followed by generate gives back exactly the consumed input, provided no
 failing sub-parse whose failure is absorbed could move the cursor (`Sound`):
 otherwise the elements a failed `And` skipped over would be lost.
 */
module RoundTrip {
  import opened Wrappers
  import opened Matchers
  import opened Parsing
  import opened Generation
  import opened ParseLaws

  /** Generating a successful parse's value rebuilds the consumed slice. */
  lemma {:induction false} ParseThenGenerate(m: Matcher, input: seq<Elem>, pos: nat)
    requires pos <= |input| && WellFormed(m) && Sound(m)
    ensures var o := Parse(m, input, pos);
      o.result.Some? ==> Generate(m, o.result.value) == input[pos..o.next]
    decreases |input| - pos, m, 1, 0
  {
    match m
    case Any =>
    case Lit(lit) =>
    case OneOf(_) =>
    case Range(_, _) =>
    case Or(_) =>
      OrThenGenerate(m, 0, input, pos);
    case And(_) =>
      AndThenGenerate(m, 0, input, pos);
    case Star(_) =>
      ManyThenGenerate(m, input, pos);
    case Plus(inner) =>
      var first := Parse(inner, input, pos);
      if first.result.Some? {
        ParseThenGenerate(inner, input, pos);
        ManyThenGenerate(m, input, first.next);
        var (items, next) := ParseMany(m, input, first.next);
        GenerateItemsCons(m, first.result.value, items);
        SliceJoin(input, pos, first.next, next);
      }
    case Opt(inner) =>
      var o := Parse(inner, input, pos);
      if o.result.Some? {
        ParseThenGenerate(inner, input, pos);
      } else {
        FailCleanKeepsCursor(inner, input, pos);
      }
  }

  lemma {:induction false} OrThenGenerate(m: Matcher, i: nat, input: seq<Elem>, pos: nat)
    requires m.Or? && i <= |m.branches| && pos <= |input| && WellFormed(m) && Sound(m)
    ensures var o := ParseOr(m, i, input, pos);
      o.result.Some? ==>
        Generate(m.branches[o.result.value.tag], o.result.value.payload) == input[pos..o.next]
    decreases |input| - pos, m, 0, |m.branches| - i
  {
    if i < |m.branches| {
      var o := Parse(m.branches[i], input, pos);
      if o.result.Some? {
        ParseThenGenerate(m.branches[i], input, pos);
      } else {
        FailCleanKeepsCursor(m.branches[i], input, pos);
        OrThenGenerate(m, i + 1, input, pos);
      }
    }
  }

  /** Consecutive slices of the input join into one. */
  lemma SliceJoin(input: seq<Elem>, a: nat, b: nat, c: nat)
    requires a <= b <= c <= |input|
    ensures input[a..b] + input[b..c] == input[a..c]
  {
  }

  /** Generating a part list whose first value is `first` is generating
      `first` and then the rest. */
  lemma GeneratePartsCons(m: Matcher, first: Value, rest: seq<Value>, i: nat)
    requires m.And? && i + 1 + |rest| == |m.branches| && Fits(m.branches[i], first)
    requires forall k :: 0 <= k < |rest| ==> Fits(m.branches[i + 1 + k], rest[k])
    ensures forall k :: 0 <= k < |[first] + rest| ==> Fits(m.branches[i + k], ([first] + rest)[k])
    ensures GenerateParts(m, [first] + rest, i) == Generate(m.branches[i], first) + GenerateParts(m, rest, i + 1)
  {
    assert ([first] + rest)[1..] == rest;
  }

  /** Generating an item list whose first item is `first` is generating
      `first` and then the rest. */
  lemma GenerateItemsCons(m: Matcher, first: Value, rest: seq<Value>)
    requires (m.Star? || m.Plus?) && Fits(m.inner, first)
    requires forall k :: 0 <= k < |rest| ==> Fits(m.inner, rest[k])
    ensures forall k :: 0 <= k < |[first] + rest| ==> Fits(m.inner, ([first] + rest)[k])
    ensures GenerateItems(m, [first] + rest) == Generate(m.inner, first) + GenerateItems(m, rest)
  {
    assert ([first] + rest)[1..] == rest;
  }

  lemma {:induction false} AndThenGenerate(m: Matcher, i: nat, input: seq<Elem>, pos: nat)
    requires m.And? && i <= |m.branches| && pos <= |input| && WellFormed(m) && Sound(m)
    ensures var r := ParseAnd(m, i, input, pos);
      r.0.Some? ==> GenerateParts(m, r.0.value, i) == input[pos..r.1]
    decreases |input| - pos, m, 0, |m.branches| - i
  {
    if i < |m.branches| {
      var o := Parse(m.branches[i], input, pos);
      ParseThenGenerate(m.branches[i], input, pos);
      AndThenGenerate(m, i + 1, input, o.next);
      var (rest, next) := ParseAnd(m, i + 1, input, o.next);
      if o.result.Some? && rest.Some? {
        GeneratePartsCons(m, o.result.value, rest.value, i);
        SliceJoin(input, pos, o.next, next);
      }
    }
  }

  lemma {:induction false} ManyThenGenerate(m: Matcher, input: seq<Elem>, pos: nat)
    requires (m.Star? || m.Plus?) && pos <= |input| && WellFormed(m) && Sound(m)
    ensures var r := ParseMany(m, input, pos);
      GenerateItems(m, r.0) == input[pos..r.1]
    decreases |input| - pos, m, 0, 0
  {
    var o := Parse(m.inner, input, pos);
    if o.result.Some? {
      ParseThenGenerate(m.inner, input, pos);
      ManyThenGenerate(m, input, o.next);
      var (items, next) := ParseMany(m, input, o.next);
      GenerateItemsCons(m, o.result.value, items);
      SliceJoin(input, pos, o.next, next);
    } else {
      FailCleanKeepsCursor(m.inner, input, pos);
    }
  }

  /** Exact round trip of the array entry point: what it accepts, generate
      rebuilds in full. */
  lemma ParseAllThenGenerate(m: Matcher, input: seq<Elem>)
    requires WellFormed(m) && Sound(m)
    ensures var r := ParseAll(m, input);
      r.Some? ==> Generate(m, r.value) == input
  {
    ParseThenGenerate(m, input, 0);
    assert input[0..|input|] == input;
  }

  /** A value a primitive matcher could itself have produced: a range value
      inside its bounds, and an index of a member list without repeats (with
      repeats, parsing reports the first occurrence). */
  predicate Canonical(m: Matcher, v: Value)
  {
    match m
    case Any => v.VElem?
    case Lit(_) => v.VUnit?
    case Range(lo, hi) => v.VElem? && lo <= v.elem <= hi
    case OneOf(members) => v.VIdx? && v.idx < |members| && Distinct(members)
    case _ => false
  }

  /** The other direction for primitives: parsing what a canonical value
      generates, followed by anything, reads back that very value and consumes
      exactly the generated elements. */
  lemma GenerateThenParse(m: Matcher, v: Value, rest: seq<Elem>)
    requires Canonical(m, v)
    ensures WellFormed(m) && Fits(m, v)
    ensures var g := Generate(m, v);
      Parse(m, g + rest, 0) == Outcome(Some(v), |g|)
  {
    var g := Generate(m, v);
    var input := g + rest;
    match m
    case Any =>
    case Lit(lit) =>
      LitParse(lit, input, 0);
      assert input[0..|lit|] == lit;
    case Range(lo, hi) =>
    case OneOf(members) =>
      OneOfParse(members, input, 0);
      assert input[0] == members[v.idx];
      var i := IndexOf(members, input[0]);
      assert i == v.idx;
  }
}
