/**
 The `match` factory and the `operator|` / `operator&` overload table, which
 flattens same-kind operands by appending branch lists, together with the laws
 saying that flattening changes neither what is accepted nor where the cursor
 ends up.
 */
module Algebra {
  import opened Wrappers
  import opened Matchers
  import opened Parsing
  import opened ParseLaws

  /** `match(from, to)`: the bounds are put in order. */
  function MakeRange(a: Elem, b: Elem): (m: Matcher)
    ensures m.Range? && m.lo <= m.hi
    ensures (m.lo == a && m.hi == b) || (m.lo == b && m.hi == a)
  {
    if a < b then Range(a, b) else Range(b, a)
  }

  /** Whatever order the factory got its bounds in, the range matches exactly
      the elements between them, both inclusive. */
  lemma MakeRangeMatches(a: Elem, b: Elem, e: Elem)
    ensures ParseAll(MakeRange(a, b), [e]).Some? <==>
      (a <= e <= b) || (b <= e <= a)
  {
    RangeParse(MakeRange(a, b).lo, MakeRange(a, b).hi, [e], 0);
  }

  /** The branch list an operand contributes to an `Or`. */
  function Alternatives(m: Matcher): seq<Matcher>
  {
    if m.Or? then m.branches else [m]
  }

  /** The part list an operand contributes to an `And`. */
  function Parts(m: Matcher): seq<Matcher>
  {
    if m.And? then m.branches else [m]
  }

  /** An `Or` whose last branch is `Any`: it cannot be widened on the right. */
  predicate EndsInAny(m: Matcher)
  {
    m.Or? && |m.branches| > 0 && m.branches[|m.branches| - 1].Any?
  }

  /** No `Or` sits directly inside an `Or`. */
  predicate FlatOr(m: Matcher)
  {
    m.Or? ==> forall k :: 0 <= k < |m.branches| ==> !m.branches[k].Or?
  }

  /** No `And` sits directly inside an `And`. */
  predicate FlatAnd(m: Matcher)
  {
    m.And? ==> forall k :: 0 <= k < |m.branches| ==> !m.branches[k].And?
  }

  /** `a | b` for two matchers, with the absorption the overload at
      regular.hpp:776 is meant to give: an `Or` already ending in `any` absorbs
      whatever is added on the right. Otherwise the branch lists are joined:
      `Or | Or` concatenates, `Or | b` appends, `a | Or` prepends, and two other
      matchers make a two-branch `Or`. A typed `Any` is an ordinary operand
      here; the tag `match.any` has operators of its own below. */
  function OrOf(a: Matcher, b: Matcher): (r: Matcher)
    ensures r.Or?
    ensures EndsInAny(a) ==> r == a
    ensures !EndsInAny(a) ==> Alternatives(r) == Alternatives(a) + Alternatives(b)
    ensures b.Any? ==> EndsInAny(r)
    ensures FlatOr(a) && FlatOr(b) ==> FlatOr(r)
    ensures WellFormed(a) && WellFormed(b) ==> WellFormed(r)
  {
    if EndsInAny(a) then a
    else Or(Alternatives(a) + Alternatives(b))
  }

  /** `a | b` as the overloads actually resolve: the overload meant to return
      an `Or` ending in `any` unchanged (regular.hpp:776) has a parameter pack
      that is not the last template argument, so its arguments cannot be
      deduced and it is never chosen; the general `Or | b` overload appends
      `b` instead. */
  function OrOfAsWritten(a: Matcher, b: Matcher): (r: Matcher)
    ensures r.Or?
    ensures Alternatives(r) == Alternatives(a) + Alternatives(b)
  {
    Or(Alternatives(a) + Alternatives(b))
  }

  /** The two readings differ exactly on a left operand ending in `any`: there
      the absorbing form keeps it unchanged and the as-written form grows it. */
  lemma OrOfAsWrittenAgrees(a: Matcher, b: Matcher)
    ensures !EndsInAny(a) ==> OrOfAsWritten(a, b) == OrOf(a, b)
    ensures EndsInAny(a) ==>
      OrOf(a, b) == a && OrOfAsWritten(a, b).branches == a.branches + Alternatives(b)
  {
  }

  /** The discrepancy: `("x" | any) | !"y"` as written accepts the empty input
      through its appended optional branch, which the absorbing `"x" | any`
      rejects (`any` needs an element). */
  lemma AsWrittenAbsorptionMissed()
    ensures var a := OrAnyTag(Lit(['x']));
      var b := Opt(Lit(['y']));
      && WellFormed(OrOfAsWritten(a, b)) && WellFormed(OrOf(a, b))
      && ParseAll(OrOfAsWritten(a, b), []).Some?
      && ParseAll(OrOf(a, b), []).None?
  {
    var a := OrAnyTag(Lit(['x']));
    var b := Opt(Lit(['y']));
    assert a == Or([Lit(['x']), Any]);
    var w := OrOfAsWritten(a, b);
    assert w == Or([Lit(['x']), Any, Opt(Lit(['y']))]);
    assert WellFormed(w);
    assert ParseOr(w, 3, [], 0) == Outcome(None, 0);
    assert Parse(Opt(Lit(['y'])), [], 0) == Outcome(Some(VEnv(None)), 0);
    assert ParseOr(w, 2, [], 0) == Outcome(Some(VBranch(2, VEnv(None))), 0);
    assert ParseOr(w, 0, [], 0) == ParseOr(w, 2, [], 0);
    assert OrOf(a, b) == a;
    assert ParseOr(a, 0, [], 0) == Outcome(None, 0);
  }

  /** `a & b` for two matchers: the part lists are joined (`And & And`
      concatenates, `And & b` appends, `a & And` prepends). A typed `Any` is an
      ordinary part. */
  function AndOf(a: Matcher, b: Matcher): (r: Matcher)
    ensures r.And?
    ensures Parts(r) == Parts(a) + Parts(b)
    ensures FlatAnd(a) && FlatAnd(b) ==> FlatAnd(r)
    ensures WellFormed(a) && WellFormed(b) ==> WellFormed(r)
  {
    And(Parts(a) + Parts(b))
  }

  // ----- The tag `match.any` -----
  // `match.any` is not a matcher but a tag of its own type; each operator
  // overload taking it builds a typed `any` in place and never flattens.

  /** `a | match.any` (regular.hpp:764-769): a two-branch alternation of `a`
      and a typed `any`, whatever `a` is. */
  function OrAnyTag(a: Matcher): Matcher
  {
    Or([a, Any])
  }

  /** `match.any | b` (regular.hpp:770-775): a typed `any`; `b` is dropped. */
  function AnyTagOr(b: Matcher): Matcher
  {
    Any
  }

  /** `a & match.any` (regular.hpp:811-816): `a` followed by one element. */
  function AndAnyTag(a: Matcher): Matcher
  {
    And([a, Any])
  }

  /** `match.any & b` (regular.hpp:817-822): one element followed by `b`. */
  function AnyTagAnd(b: Matcher): Matcher
  {
    And([Any, b])
  }

  /** `a | match.any` runs `a`; when `a` matches, that is branch 0 with `a`'s
      value unflattened (an `Or` operand keeps its own tag inside); otherwise
      one element is taken at the cursor `a` left, as branch 1. */
  lemma OrAnyTagTriesThenTakesOne(a: Matcher, input: seq<Elem>, pos: nat)
    requires pos <= |input| && WellFormed(a)
    ensures WellFormed(OrAnyTag(a))
    ensures var o := Parse(OrAnyTag(a), input, pos);
      var oa := Parse(a, input, pos);
      && (oa.result.Some? ==> o == Outcome(Some(VBranch(0, oa.result.value)), oa.next))
      && (oa.result.None? ==>
            && (o.result.Some? <==> oa.next < |input|)
            && (o.result.Some? ==>
                  o.result.value == VBranch(1, VElem(input[oa.next])) && o.next == oa.next + 1)
            && (o.result.None? ==> o.next == oa.next))
  {
    var m := OrAnyTag(a);
    assert WellFormed(m);
    assert m.branches[0] == a && m.branches[1] == Any;
    var oa := Parse(a, input, pos);
    var ob := Parse(Any, input, oa.next);
    AnyParse(input, oa.next);
    assert ParseOr(m, 2, input, ob.next) == Outcome(None, ob.next);
    if oa.result.None? {
      assert ParseOr(m, 0, input, pos) == ParseOr(m, 1, input, oa.next);
      if ob.result.Some? {
        assert ParseOr(m, 1, input, oa.next) == Outcome(Some(VBranch(1, ob.result.value)), ob.next);
      }
    }
  }

  /** Nesting, not flattening: `(x | y) | match.any` given `z` reports branch 1
      of a two-branch alternation, where the flattened three-branch form would
      report branch 2. */
  lemma OrAnyTagNests()
    ensures var m := OrAnyTag(OrOf(Lit(['x']), Lit(['y'])));
      && |m.branches| == 2
      && ParseAll(m, ['z']) == Some(VBranch(1, VElem('z')))
    ensures ParseAll(OrOf(OrOf(Lit(['x']), Lit(['y'])), Any), ['z']) == Some(VBranch(2, VElem('z')))
  {
    var xy := OrOf(Lit(['x']), Lit(['y']));
    assert xy == Or([Lit(['x']), Lit(['y'])]);
    NoLetterMatchesZ(xy.branches);
    OrFirstMatchWins(xy.branches, ['z'], 0);
    OrAnyTagTriesThenTakesOne(xy, ['z'], 0);
    FlattenedAnyTakesLastBranch(xy.branches);
  }

  /** Neither literal of `x | y` matches `z`, and both fail in place. */
  lemma NoLetterMatchesZ(bs: seq<Matcher>)
    requires bs == [Lit(['x']), Lit(['y'])]
    ensures forall k :: 0 <= k < |bs| ==> Parse(bs[k], ['z'], 0) == Outcome(None, 0)
  {
    assert ['z'][0..1] == ['z'];
  }

  /** The flattened `Or([x, y, Any])` takes `z` with its third branch. */
  lemma FlattenedAnyTakesLastBranch(bs: seq<Matcher>)
    requires bs == [Lit(['x']), Lit(['y'])]
    ensures ParseAll(Or(bs + [Any]), ['z']) == Some(VBranch(2, VElem('z')))
  {
    var f := Or(bs + [Any]);
    assert f.branches == [Lit(['x']), Lit(['y']), Any];
    NoLetterMatchesZ(bs);
    assert ParseOr(f, 3, ['z'], 1) == Outcome(None, 1);
    assert ParseOr(f, 2, ['z'], 0) == Outcome(Some(VBranch(2, VElem('z'))), 1);
    assert ParseOr(f, 1, ['z'], 0) == ParseOr(f, 2, ['z'], 0);
    assert ParseOr(f, 0, ['z'], 0) == ParseOr(f, 1, ['z'], 0);
  }

  /** Absorption: on a non-empty input, `a | match.any` always matches,
      provided `a` cannot fail after consuming. */
  lemma OrAnyMatchesNonEmpty(a: Matcher, input: seq<Elem>, pos: nat)
    requires pos < |input| && WellFormed(a) && FailClean(a)
    ensures WellFormed(OrAnyTag(a))
    ensures Parse(OrAnyTag(a), input, pos).result.Some?
  {
    OrAnyTagTriesThenTakesOne(a, input, pos);
    FailCleanKeepsCursor(a, input, pos);
  }

  /** `match.any | b` ignores `b`: at any cursor it takes exactly one element
      when one remains, and fails in place otherwise; read to the end of an
      input, it accepts exactly the one-element inputs. */
  lemma AnyTagOrIgnoresRight(b: Matcher, input: seq<Elem>, pos: nat)
    requires pos <= |input|
    ensures WellFormed(AnyTagOr(b))
    ensures var o := Parse(AnyTagOr(b), input, pos);
      && (o.result.Some? <==> pos < |input|)
      && (o.result.Some? ==> o.result.value == VElem(input[pos]) && o.next == pos + 1)
      && (o.result.None? ==> o.next == pos)
    ensures ParseAll(AnyTagOr(b), input).Some? <==> |input| == 1
    ensures |input| == 1 ==> ParseAll(AnyTagOr(b), input) == Some(VElem(input[0]))
  {
    AnyParse(input, 0);
    AnyParse(input, pos);
  }

  /** `a & match.any` runs `a`, then takes one element at the cursor `a` left,
      and matches iff both do; its value has exactly two slots. */
  lemma AndAnyTagRuns(a: Matcher, input: seq<Elem>, pos: nat)
    requires pos <= |input| && WellFormed(a)
    ensures WellFormed(AndAnyTag(a))
    ensures var o := Parse(AndAnyTag(a), input, pos);
      var oa := Parse(a, input, pos);
      && (o.result.Some? <==> oa.result.Some? && oa.next < |input|)
      && (o.result.Some? ==>
            o.result.value == VTuple([oa.result.value, VElem(input[oa.next])]) && o.next == oa.next + 1)
  {
    AndRunsBothParts(a, Any, input, pos);
    AnyParse(input, Parse(a, input, pos).next);
  }

  /** `match.any & b` takes one element, then runs `b` after it, and matches
      iff both do; its value has exactly two slots, even when `b` is itself a
      sequence. */
  lemma AnyTagAndRuns(b: Matcher, input: seq<Elem>, pos: nat)
    requires pos <= |input| && WellFormed(b)
    ensures WellFormed(AnyTagAnd(b))
    ensures var o := Parse(AnyTagAnd(b), input, pos);
      && (o.result.Some? <==> pos < |input| && Parse(b, input, pos + 1).result.Some?)
      && (o.result.Some? ==>
            && o.result.value == VTuple([VElem(input[pos]), Parse(b, input, pos + 1).result.value])
            && o.next == Parse(b, input, pos + 1).next)
  {
    AndRunsBothParts(Any, b, input, pos);
    AnyParse(input, pos);
  }

  /** Tag shift of an alternation outcome whose branches were moved `n` places right. */
  function Shift(n: nat, o: Outcome): Outcome
  {
    if o.result.Some? && o.result.value.VBranch? then
      Outcome(Some(VBranch(o.result.value.tag + n, o.result.value.payload)), o.next)
    else o
  }

  lemma {:induction false} OrSuffix(xs: seq<Matcher>, ys: seq<Matcher>, j: nat, input: seq<Elem>, pos: nat)
    requires j <= |ys| && pos <= |input| && WellFormed(Or(xs + ys))
    ensures WellFormed(Or(ys))
    ensures ParseOr(Or(xs + ys), |xs| + j, input, pos) == Shift(|xs|, ParseOr(Or(ys), j, input, pos))
    decreases |ys| - j
  {
    assert forall k :: 0 <= k < |ys| ==> (xs + ys)[|xs| + k] == ys[k];
    if j < |ys| {
      var o := Parse(ys[j], input, pos);
      if o.result.None? {
        OrSuffix(xs, ys, j + 1, input, o.next);
      }
    }
  }

  lemma {:induction false} OrPrefix(xs: seq<Matcher>, ys: seq<Matcher>, i: nat, input: seq<Elem>, pos: nat)
    requires i <= |xs| && pos <= |input| && WellFormed(Or(xs + ys))
    ensures WellFormed(Or(xs)) && WellFormed(Or(ys))
    ensures var o1 := ParseOr(Or(xs), i, input, pos);
      ParseOr(Or(xs + ys), i, input, pos) ==
        if o1.result.Some? then o1 else Shift(|xs|, ParseOr(Or(ys), 0, input, o1.next))
    decreases |xs| - i
  {
    assert forall k :: 0 <= k < |xs| ==> (xs + ys)[k] == xs[k];
    assert WellFormed(Or(ys)) by { OrSuffix(xs, ys, 0, input, pos); }
    if i == |xs| {
      OrSuffix(xs, ys, 0, input, pos);
    } else {
      var o := Parse(xs[i], input, pos);
      if o.result.None? {
        OrPrefix(xs, ys, i + 1, input, o.next);
      }
    }
  }

  /** Splitting an alternation's branch list: `Or(xs + ys)` tries `Or(xs)` and,
      if that fails, `Or(ys)` at the cursor it left, with the tags of the
      second half moved past the first half. */
  lemma OrConcat(xs: seq<Matcher>, ys: seq<Matcher>, input: seq<Elem>, pos: nat)
    requires pos <= |input| && WellFormed(Or(xs + ys))
    ensures WellFormed(Or(xs)) && WellFormed(Or(ys))
    ensures var o1 := Parse(Or(xs), input, pos);
      Parse(Or(xs + ys), input, pos) ==
        if o1.result.Some? then o1 else Shift(|xs|, Parse(Or(ys), input, o1.next))
  {
    OrPrefix(xs, ys, 0, input, pos);
  }

  /** The one-branch alternation an operand stands for behaves like the operand:
      same success, same cursor, value tagged with branch 0. */
  lemma OrAlternativesLikeOperand(a: Matcher, input: seq<Elem>, pos: nat)
    requires pos <= |input| && WellFormed(a)
    ensures WellFormed(Or(Alternatives(a)))
    ensures var o := Parse(Or(Alternatives(a)), input, pos);
      var oa := Parse(a, input, pos);
      && o.next == oa.next
      && (o.result.Some? <==> oa.result.Some?)
      && (o.result.Some? && !a.Or? ==> o.result.value == VBranch(0, oa.result.value))
      && (a.Or? ==> o == oa)
  {
    if !a.Or? {
      assert WellFormed(Or([a]));
      var oa := Parse(a, input, pos);
      assert ParseOr(Or([a]), 1, input, oa.next) == Outcome(None, oa.next);
    }
  }

  /** Flatten transparency for `|`: unless absorption applies, `a | b` first
      runs `a`; if `a` matches, that is the result (tagged within `a`'s
      branches); otherwise `b` runs at the cursor `a` left, and its result
      (tagged past `a`'s branches) is the result. This is what the nested,
      unflattened two-way alternation does. */
  lemma OrOfTriesLeftThenRight(a: Matcher, b: Matcher, input: seq<Elem>, pos: nat)
    requires pos <= |input| && WellFormed(a) && WellFormed(b)
    requires !EndsInAny(a)
    ensures WellFormed(OrOf(a, b))
    ensures var o := Parse(OrOf(a, b), input, pos);
      var oa := Parse(a, input, pos);
      var ob := Parse(b, input, oa.next);
      && (oa.result.Some? ==>
            o.result.Some? && o.next == oa.next && o.result.value.tag < |Alternatives(a)|)
      && (oa.result.None? ==>
            && o.next == ob.next
            && (o.result.Some? <==> ob.result.Some?)
            && (o.result.Some? ==> o.result.value.tag >= |Alternatives(a)|))
  {
    var xs := Alternatives(a);
    var ys := Alternatives(b);
    OrConcat(xs, ys, input, pos);
    OrAlternativesLikeOperand(a, input, pos);
    var oa := Parse(a, input, pos);
    OrAlternativesLikeOperand(b, input, oa.next);
  }

  /** Combining the part results of two halves of an `And`. */
  function JoinParts(r1: (Option<seq<Value>>, nat), r2: (Option<seq<Value>>, nat)): (Option<seq<Value>>, nat)
  {
    if r1.0.Some? && r2.0.Some? then (Some(r1.0.value + r2.0.value), r2.1) else (None, r2.1)
  }

  /** Two part loops that run the same part at the same cursor and agree from
      the next part on agree. */
  lemma AndStepAgree(m: Matcher, i: nat, n: Matcher, j: nat, input: seq<Elem>, pos: nat)
    requires m.And? && WellFormed(m) && i < |m.branches|
    requires n.And? && WellFormed(n) && j < |n.branches|
    requires pos <= |input| && m.branches[i] == n.branches[j]
    requires var o := Parse(m.branches[i], input, pos);
      ParseAnd(m, i + 1, input, o.next) == ParseAnd(n, j + 1, input, o.next)
    ensures ParseAnd(m, i, input, pos) == ParseAnd(n, j, input, pos)
  {
  }

  lemma {:induction false} AndSuffix(xs: seq<Matcher>, ys: seq<Matcher>, j: nat, input: seq<Elem>, pos: nat)
    requires j <= |ys| && pos <= |input| && WellFormed(And(xs + ys))
    ensures WellFormed(And(ys))
    ensures ParseAnd(And(xs + ys), |xs| + j, input, pos) == ParseAnd(And(ys), j, input, pos)
    decreases |ys| - j
  {
    assert forall k :: 0 <= k < |ys| ==> (xs + ys)[|xs| + k] == ys[k];
    if j < |ys| {
      var o := Parse(ys[j], input, pos);
      AndSuffix(xs, ys, j + 1, input, o.next);
      AndStepAgree(And(xs + ys), |xs| + j, And(ys), j, input, pos);
    }
  }

  /** One step of the part loop of a sequence whose later parts are known to
      split into a prefix loop followed by a loop over `k`. */
  lemma AndStepSplit(m: Matcher, n: Matcher, k: Matcher, i: nat, input: seq<Elem>, pos: nat)
    requires m.And? && WellFormed(m) && i < |m.branches|
    requires n.And? && WellFormed(n) && i < |n.branches|
    requires k.And? && WellFormed(k)
    requires pos <= |input| && m.branches[i] == n.branches[i]
    requires var o := Parse(n.branches[i], input, pos);
      var r1 := ParseAnd(n, i + 1, input, o.next);
      ParseAnd(m, i + 1, input, o.next) == JoinParts(r1, ParseAnd(k, 0, input, r1.1))
    ensures var r1 := ParseAnd(n, i, input, pos);
      ParseAnd(m, i, input, pos) == JoinParts(r1, ParseAnd(k, 0, input, r1.1))
  {
    var o := Parse(n.branches[i], input, pos);
    var r1 := ParseAnd(n, i + 1, input, o.next);
    var r2 := ParseAnd(k, 0, input, r1.1);
    if o.result.Some? && r1.0.Some? && r2.0.Some? {
      assert [o.result.value] + (r1.0.value + r2.0.value) == ([o.result.value] + r1.0.value) + r2.0.value;
    }
  }

  /** The halves of a well-formed flattened part list are well formed. */
  lemma AndHalvesWellFormed(xs: seq<Matcher>, ys: seq<Matcher>)
    requires WellFormed(And(xs + ys))
    ensures WellFormed(And(xs)) && WellFormed(And(ys))
  {
    assert forall k :: 0 <= k < |xs| ==> (xs + ys)[k] == xs[k];
    assert forall k :: 0 <= k < |ys| ==> (xs + ys)[|xs| + k] == ys[k];
  }

  lemma {:induction false} AndPrefix(xs: seq<Matcher>, ys: seq<Matcher>, i: nat, input: seq<Elem>, pos: nat)
    requires i <= |xs| && pos <= |input| && WellFormed(And(xs + ys))
    ensures WellFormed(And(xs)) && WellFormed(And(ys))
    ensures var r1 := ParseAnd(And(xs), i, input, pos);
      ParseAnd(And(xs + ys), i, input, pos) == JoinParts(r1, ParseAnd(And(ys), 0, input, r1.1))
    decreases |xs| - i
  {
    AndHalvesWellFormed(xs, ys);
    if i == |xs| {
      AndSuffix(xs, ys, 0, input, pos);
      var r2 := ParseAnd(And(ys), 0, input, pos);
      if r2.0.Some? {
        assert [] + r2.0.value == r2.0.value;
      }
    } else {
      var o := Parse(xs[i], input, pos);
      AndPrefix(xs, ys, i + 1, input, o.next);
      assert (xs + ys)[i] == xs[i];
      AndStepSplit(And(xs + ys), And(xs), And(ys), i, input, pos);
    }
  }

  /** Splitting a sequence's part list: `And(xs + ys)` runs `And(xs)`, then
      `And(ys)` at the cursor it left (even if `And(xs)` failed); it matches iff
      both halves do, with the halves' values side by side. */
  lemma AndConcat(xs: seq<Matcher>, ys: seq<Matcher>, input: seq<Elem>, pos: nat)
    requires pos <= |input| && WellFormed(And(xs + ys))
    ensures WellFormed(And(xs)) && WellFormed(And(ys))
    ensures var o1 := Parse(And(xs), input, pos);
      var o2 := Parse(And(ys), input, o1.next);
      var o := Parse(And(xs + ys), input, pos);
      && o.next == o2.next
      && (o.result.Some? <==> o1.result.Some? && o2.result.Some?)
      && (o.result.Some? ==> o.result.value.slots == o1.result.value.slots + o2.result.value.slots)
  {
    AndPrefix(xs, ys, 0, input, pos);
  }

  /** The value slots an operand contributes to an `And`. */
  function SlotsOf(a: Matcher, v: Value): seq<Value>
  {
    if a.And? && v.VTuple? then v.slots else [v]
  }

  /** The one-part sequence an operand stands for behaves like the operand. */
  lemma AndPartsLikeOperand(a: Matcher, input: seq<Elem>, pos: nat)
    requires pos <= |input| && WellFormed(a)
    ensures WellFormed(And(Parts(a)))
    ensures var o := Parse(And(Parts(a)), input, pos);
      var oa := Parse(a, input, pos);
      && o.next == oa.next
      && (o.result.Some? <==> oa.result.Some?)
      && (o.result.Some? ==> o.result.value.slots == SlotsOf(a, oa.result.value))
  {
    if !a.And? {
      assert WellFormed(And([a]));
      var oa := Parse(a, input, pos);
      assert ParseAnd(And([a]), 1, input, oa.next) == (Some([]), oa.next);
      if oa.result.Some? {
        assert [oa.result.value] + [] == [oa.result.value];
      }
    }
  }

  /** Flatten transparency for `&`: `a & b` runs `a`, then `b` at the cursor
      `a` left, matches iff both matched, and its slots are `a`'s followed by
      `b`'s, just as the nested two-part sequence would. */
  lemma AndOfRunsLeftThenRight(a: Matcher, b: Matcher, input: seq<Elem>, pos: nat)
    requires pos <= |input| && WellFormed(a) && WellFormed(b)
    ensures WellFormed(AndOf(a, b))
    ensures var o := Parse(AndOf(a, b), input, pos);
      var oa := Parse(a, input, pos);
      var ob := Parse(b, input, oa.next);
      && o.next == ob.next
      && (o.result.Some? <==> oa.result.Some? && ob.result.Some?)
      && (o.result.Some? ==>
            o.result.value.slots == SlotsOf(a, oa.result.value) + SlotsOf(b, ob.result.value))
  {
    AndConcat(Parts(a), Parts(b), input, pos);
    AndPartsLikeOperand(a, input, pos);
    var oa := Parse(a, input, pos);
    AndPartsLikeOperand(b, input, oa.next);
  }
}
