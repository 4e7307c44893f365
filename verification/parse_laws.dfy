/**
 What each matcher's cursor call promises: exact consumption of the primitives,
 ordered choice, the non-rolling-back sequence, totality of `Star`/`Opt`, and
 when a failure leaves the cursor untouched.
 */
module ParseLaws {
  import opened Wrappers
  import opened Matchers
  import opened Parsing
  import opened Generation

  /** `Any` takes the next element whenever there is one. */
  lemma AnyParse(input: seq<Elem>, pos: nat)
    requires pos <= |input|
    ensures var o := Parse(Any, input, pos);
      && (o.result.Some? <==> pos < |input|)
      && (o.result.Some? ==> o.result.value == VElem(input[pos]) && o.next == pos + 1)
      && (o.result.None? ==> o.next == pos)
  {
  }

  /** A literal matches iff the next `|lit|` elements are the literal, and then
      advances by exactly `|lit|`; a mismatch or running out of input fails
      without moving. It generates itself. */
  lemma LitParse(lit: seq<Elem>, input: seq<Elem>, pos: nat)
    requires pos <= |input|
    ensures var o := Parse(Lit(lit), input, pos);
      && (o.result.Some? <==> pos + |lit| <= |input| && input[pos..pos + |lit|] == lit)
      && (o.result.Some? ==> o.result.value == VUnit && o.next == pos + |lit|)
      && (o.result.None? ==> o.next == pos)
    ensures Generate(Lit(lit), VUnit) == lit
  {
  }

  /** The array entry point of a literal accepts exactly the literal itself:
      trailing input is rejected. */
  lemma LitParseAll(lit: seq<Elem>, input: seq<Elem>)
    ensures ParseAll(Lit(lit), input).Some? <==> input == lit
  {
    LitParse(lit, input, 0);
    if input == lit {
      assert input[0..|lit|] == input;
    }
  }

  /** A member list matches one element that occurs in it and yields the first
      index holding that element; otherwise (also at end of input) it yields the
      sentinel, i.e. no match, without moving. */
  lemma OneOfParse(members: seq<Elem>, input: seq<Elem>, pos: nat)
    requires pos <= |input|
    ensures var o := Parse(OneOf(members), input, pos);
      && (o.result.Some? <==> pos < |input| && input[pos] in members)
      && (o.result.Some? ==>
            && o.next == pos + 1
            && o.result.value.VIdx?
            && members[o.result.value.idx] == input[pos]
            && (forall j :: 0 <= j < o.result.value.idx ==> members[j] != input[pos]))
      && (o.result.None? ==> o.next == pos)
  {
    if pos < |input| {
      var i := IndexOf(members, input[pos]);
      if i == |members| {
        assert input[pos] !in members;
      }
    }
  }

  /** The array entry point of a member list accepts exactly the one-element
      inputs whose element is a member. */
  lemma OneOfParseAll(members: seq<Elem>, input: seq<Elem>)
    ensures ParseAll(OneOf(members), input).Some? <==> |input| == 1 && input[0] in members
  {
    OneOfParse(members, input, 0);
  }

  /** A range matches one element between its bounds, both inclusive. */
  lemma RangeParse(lo: Elem, hi: Elem, input: seq<Elem>, pos: nat)
    requires pos <= |input|
    ensures var o := Parse(Range(lo, hi), input, pos);
      && (o.result.Some? <==> pos < |input| && lo <= input[pos] <= hi)
      && (o.result.Some? ==> o.result.value == VElem(input[pos]) && o.next == pos + 1)
      && (o.result.None? ==> o.next == pos)
  {
  }

  /** When no branch can fail after consuming, branch `i` on fails without
      moving, or the first branch from `i` on that matches at `pos` wins. */
  lemma {:induction false} ParseOrFirstMatch(m: Matcher, i: nat, input: seq<Elem>, pos: nat)
    requires m.Or? && i <= |m.branches| && pos <= |input| && WellFormed(m)
    requires forall k :: 0 <= k < |m.branches| ==> FailClean(m.branches[k])
    ensures var o := ParseOr(m, i, input, pos);
      && (o.result.Some? <==>
            exists k :: i <= k < |m.branches| && Parse(m.branches[k], input, pos).result.Some?)
      && (o.result.Some? ==>
            var t := o.result.value.tag;
            && Parse(m.branches[t], input, pos) == Outcome(Some(o.result.value.payload), o.next)
            && (forall j :: i <= j < t ==> Parse(m.branches[j], input, pos).result.None?))
      && (o.result.None? ==> o.next == pos)
    decreases |m.branches| - i
  {
    if i < |m.branches| {
      var o := Parse(m.branches[i], input, pos);
      if o.result.None? {
        FailCleanKeepsCursor(m.branches[i], input, pos);
        ParseOrFirstMatch(m, i + 1, input, pos);
      }
    }
  }

  /** Ordered choice: an `Or` whose branches fail cleanly matches iff some
      branch matches at the cursor, and then the first such branch wins, tagged
      with its index. */
  lemma OrFirstMatchWins(bs: seq<Matcher>, input: seq<Elem>, pos: nat)
    requires pos <= |input| && WellFormed(Or(bs))
    requires forall k :: 0 <= k < |bs| ==> FailClean(bs[k])
    ensures var o := Parse(Or(bs), input, pos);
      && (o.result.Some? <==> exists k :: 0 <= k < |bs| && Parse(bs[k], input, pos).result.Some?)
      && (o.result.Some? ==>
            var t := o.result.value.tag;
            && t < |bs|
            && Parse(bs[t], input, pos) == Outcome(Some(o.result.value.payload), o.next)
            && (forall j :: 0 <= j < t ==> Parse(bs[j], input, pos).result.None?))
      && (o.result.None? ==> o.next == pos)
  {
    ParseOrFirstMatch(Or(bs), 0, input, pos);
  }

  /** A failed parse of a fail-clean matcher leaves the cursor where it was.
      Without `FailClean` this is false: `Or([And(["a", "b"])])` and
      `Plus(And(["a", "b"]))` on `ac` both fail with the cursor after `a`. */
  lemma {:induction false} FailCleanKeepsCursor(m: Matcher, input: seq<Elem>, pos: nat)
    requires pos <= |input| && WellFormed(m) && FailClean(m)
    ensures Parse(m, input, pos).result.None? ==> Parse(m, input, pos).next == pos
    decreases m, 1
  {
    match m
    case Or(bs) =>
      ParseOrFailsClean(m, 0, input, pos);
    case And(bs) =>
      if |bs| == 1 {
        FailCleanKeepsCursor(bs[0], input, pos);
        var o := Parse(bs[0], input, pos);
        assert ParseAnd(m, 1, input, o.next) == (Some([]), o.next);
      } else {
        assert ParseAnd(m, 0, input, pos) == (Some([]), pos);
      }
    case Plus(inner) =>
      FailCleanKeepsCursor(inner, input, pos);
    case _ =>
  }

  lemma {:induction false} ParseOrFailsClean(m: Matcher, i: nat, input: seq<Elem>, pos: nat)
    requires m.Or? && i <= |m.branches| && pos <= |input| && WellFormed(m) && FailClean(m)
    ensures ParseOr(m, i, input, pos).result.None? ==> ParseOr(m, i, input, pos).next == pos
    decreases m, 0, |m.branches| - i
  {
    if i < |m.branches| {
      FailCleanKeepsCursor(m.branches[i], input, pos);
      ParseOrFailsClean(m, i + 1, input, pos);
    }
  }

  /** A two-part `And` runs both parts, the second at the cursor the first left
      (whether or not the first matched), and matches iff both did. */
  lemma AndRunsBothParts(a: Matcher, b: Matcher, input: seq<Elem>, pos: nat)
    requires pos <= |input| && WellFormed(a) && WellFormed(b)
    ensures WellFormed(And([a, b]))
    ensures var oa := Parse(a, input, pos);
      var ob := Parse(b, input, oa.next);
      var o := Parse(And([a, b]), input, pos);
      && o.next == ob.next
      && (o.result.Some? <==> oa.result.Some? && ob.result.Some?)
      && (o.result.Some? ==> o.result.value == VTuple([oa.result.value, ob.result.value]))
  {
    var m := And([a, b]);
    assert WellFormed(m);
    assert m.branches[0] == a && m.branches[1] == b;
    var oa := Parse(a, input, pos);
    var ob := Parse(b, input, oa.next);
    assert ParseAnd(m, 2, input, ob.next) == (Some([]), ob.next);
    var r1 := ParseAnd(m, 1, input, oa.next);
    assert Parse(m.branches[1], input, oa.next) == ob;
    assert r1.1 == ob.next;
    assert r1.0.Some? <==> ob.result.Some?;
    assert r1.0.Some? ==> r1.0.value == [ob.result.value] + [];
    assert ParseAnd(m, 0, input, pos).1 == ob.next;
  }

  /** `And` is the combinator whose failure can leave the cursor advanced:
      `"a" & "b"` on `"ac"` fails with the cursor past the `a`. */
  lemma AndFailureMayAdvance()
    ensures WellFormed(And([Lit(['a']), Lit(['b'])]))
    ensures Parse(And([Lit(['a']), Lit(['b'])]), ['a', 'c'], 0) == Outcome(None, 1)
  {
    AndRunsBothParts(Lit(['a']), Lit(['b']), ['a', 'c'], 0);
    LitParse(['a'], ['a', 'c'], 0);
    LitParse(['b'], ['a', 'c'], 1);
    assert ['a', 'c'][1..2] != ['b'];
  }

  /** The advanced cursor of a failing `And` is kept by an `Or` or a `Plus`
      that fails through it, which is why `FailClean` looks inside both. */
  lemma FailThroughAndMayAdvance()
    ensures var ab := And([Lit(['a']), Lit(['b'])]);
      && WellFormed(Or([ab])) && WellFormed(Plus(ab))
      && Parse(Or([ab]), ['a', 'c'], 0) == Outcome(None, 1)
      && Parse(Plus(ab), ['a', 'c'], 0) == Outcome(None, 1)
  {
    AndFailureMayAdvance();
    var ab := And([Lit(['a']), Lit(['b'])]);
    assert ParseOr(Or([ab]), 1, ['a', 'c'], 1) == Outcome(None, 1);
  }

  /** `*m` always matches, whatever `m` is: the loop collects items until an
      attempt fails and never reports a failure itself. */
  lemma StarIsTotal(inner: Matcher, input: seq<Elem>, pos: nat)
    requires pos <= |input| && WellFormed(Star(inner))
    ensures Parse(Star(inner), input, pos).result.Some?
  {
  }

  /** `Star` always matches, and stops only where one more attempt of the inner
      matcher fails: when that attempt cannot consume before failing, the cursor
      it stops at admits no further match. */
  lemma {:induction false} StarIsTotalAndMaximal(inner: Matcher, input: seq<Elem>, pos: nat)
    requires pos <= |input| && WellFormed(Star(inner)) && FailClean(inner)
    ensures var o := Parse(Star(inner), input, pos);
      o.result.Some? && Parse(inner, input, o.next).result.None?
  {
    ManyStopsAtFailure(Star(inner), input, pos);
  }

  lemma {:induction false} ManyStopsAtFailure(m: Matcher, input: seq<Elem>, pos: nat)
    requires (m.Star? || m.Plus?) && pos <= |input| && WellFormed(m) && FailClean(m.inner)
    ensures Parse(m.inner, input, ParseMany(m, input, pos).1).result.None?
    decreases |input| - pos
  {
    var o := Parse(m.inner, input, pos);
    if o.result.Some? {
      ManyStopsAtFailure(m, input, o.next);
    } else {
      FailCleanKeepsCursor(m.inner, input, pos);
    }
  }

  /** `Plus` fails iff its first inner attempt fails; once that attempt
      matched, it collects exactly what `Star` collects at the same cursor. */
  lemma PlusIsFirstThenStar(inner: Matcher, input: seq<Elem>, pos: nat)
    requires pos <= |input| && WellFormed(Plus(inner))
    ensures WellFormed(Star(inner))
    ensures var o := Parse(Plus(inner), input, pos);
      && (o.result.None? <==> Parse(inner, input, pos).result.None?)
      && (o.result.Some? ==> o == Parse(Star(inner), input, pos))
  {
    var o := Parse(inner, input, pos);
    if o.result.Some? {
      assert ParseMany(Plus(inner), input, o.next) == ParseMany(Star(inner), input, o.next) by {
        ManySameForStarAndPlus(inner, input, o.next);
      }
    }
  }

  lemma {:induction false} ManySameForStarAndPlus(inner: Matcher, input: seq<Elem>, pos: nat)
    requires pos <= |input| && WellFormed(Plus(inner))
    ensures WellFormed(Star(inner))
    ensures ParseMany(Plus(inner), input, pos) == ParseMany(Star(inner), input, pos)
    decreases |input| - pos
  {
    var o := Parse(inner, input, pos);
    if o.result.Some? {
      ManySameForStarAndPlus(inner, input, o.next);
    }
  }

  /** `Opt` always matches and carries the inner attempt's envelope; it
      generates the inner elements, or nothing when the inner attempt failed. */
  lemma OptCarriesEnvelope(inner: Matcher, input: seq<Elem>, pos: nat)
    requires pos <= |input| && WellFormed(Opt(inner))
    ensures var o := Parse(Opt(inner), input, pos);
      var oi := Parse(inner, input, pos);
      o.result == Some(VEnv(oi.result)) && o.next == oi.next
    ensures Generate(Opt(inner), VEnv(None)) == []
  {
  }
}
