/**
 Laws of the type-directed re-match: a sub-rule of the value's own type gives
 back its elements, an `Or` value is restricted to the branch that produced it,
 an unrelated sub-rule yields nothing, and re-matching distributes over the
 branch and part lists that flattening concatenates.
 */
module ReMatchLaws {
  import opened Wrappers
  import opened Matchers
  import opened Parsing
  import opened Generation
  import opened ReMatching

  /** Re-matching against the producing matcher itself regenerates the value. */
  lemma ReMatchSelf(m: Matcher, v: Value)
    requires Fits(m, v)
    ensures ReMatch(m, v, m) == Generate(m, v)
  {
    EqReflexive(m);
  }

  /** An `Or` value asked about a sub-rule that is not an `Or` is handed to the
      branch that produced it. */
  lemma OrDelegatesToProducer(bs: seq<Matcher>, i: nat, w: Value, s: Matcher)
    requires i < |bs| && Fits(bs[i], w) && !s.Or?
    ensures Fits(Or(bs), VBranch(i, w))
    ensures ReMatch(Or(bs), VBranch(i, w), s) == ReMatch(bs[i], w, s)
  {
  }

  /** Branch restriction: a sub-rule equal to the producing branch gives that
      branch's decomposition of the value. */
  lemma BranchRestriction(bs: seq<Matcher>, i: nat, w: Value, s: Matcher)
    requires i < |bs| && Fits(bs[i], w) && !s.Or? && Eq(s, bs[i])
    ensures Fits(Or(bs), VBranch(i, w)) && Fits(s, w)
    ensures ReMatch(Or(bs), VBranch(i, w), s) == Generate(s, w)
  {
    EqSameShape(s, bs[i]);
    EqFits(s, bs[i], w);
  }

  /** The other side of branch restriction: when the producing branch is
      itself an alternation, a sub-rule equal to it is an alternation too, and
      the Or-against-Or visitor looks among the sub-rule's own branches for
      one of the producing branch's type. When there is none, the re-match is
      empty, although the sub-rule equals the producing branch. */
  lemma NestedBranchYieldsNothing(bs: seq<Matcher>, i: nat, w: Value, s: Matcher)
    requires i < |bs| && Fits(bs[i], w) && s.Or? && ShapeOf(s) != ShapeOf(Or(bs))
    requires forall k :: 0 <= k < |s.branches| ==> ShapeOf(s.branches[k]) != ShapeOf(bs[i])
    ensures Fits(Or(bs), VBranch(i, w))
    ensures ReMatch(Or(bs), VBranch(i, w), s) == []
  {
    CandidatesOfNoShape(bs[i], w, s.branches, 0);
  }

  lemma {:induction false} CandidatesOfNoShape(b: Matcher, w: Value, ss: seq<Matcher>, j: nat)
    requires Fits(b, w) && j <= |ss|
    requires forall k :: 0 <= k < |ss| ==> ShapeOf(ss[k]) != ShapeOf(b)
    ensures Candidates(b, w, ss, j) == []
    decreases |ss| - j
  {
    if j < |ss| {
      CandidatesOfNoShape(b, w, ss, j + 1);
    }
  }

  /** `("a" | "b") | match.any` parsing `a` and asked about the equal sub-rule
      `"a" | "b"` gives nothing, while that branch's own elements are `a`. */
  lemma NestedBranchExample()
    ensures var inner := Or([Lit("a"), Lit("b")]);
      var v := VBranch(0, VBranch(0, VUnit));
      && Fits(Or([inner, Any]), v)
      && Eq(inner, inner)
      && ReMatch(Or([inner, Any]), v, inner) == []
      && Generate(inner, VBranch(0, VUnit)) == "a"
  {
    var inner := Or([Lit("a"), Lit("b")]);
    EqReflexive(inner);
    assert ShapeOf(inner) != ShapeOf(Or([inner, Any])) by {
      assert ShapeOf(Or([inner, Any])).branchShapes[1] == SAny;
      assert ShapeOf(inner).branchShapes[1] == SLit(1);
    }
    NestedBranchYieldsNothing([inner, Any], 0, VBranch(0, VUnit), inner);
  }

  /** A sub-rule that nothing in the producing branch mentions yields the empty
      decomposition, even if it is another branch of the same alternation. */
  lemma UnrelatedBranchYieldsNothing(bs: seq<Matcher>, i: nat, w: Value, s: Matcher)
    requires i < |bs| && Fits(bs[i], w) && !s.Or? && !Mentions(bs[i], s)
    ensures Fits(Or(bs), VBranch(i, w))
    ensures ReMatch(Or(bs), VBranch(i, w), s) == []
  {
    ReMatchNeedsMention(bs[i], w, s);
  }

  /** Two walks over sub-rule branch lists that agree on the current branch
      and on everything after it agree. */
  lemma CandidatesStepAgree(b: Matcher, w: Value, ss: seq<Matcher>, j: nat, ts: seq<Matcher>, k: nat)
    requires Fits(b, w) && j < |ss| && k < |ts| && ss[j] == ts[k]
    requires Candidates(b, w, ss, j + 1) == Candidates(b, w, ts, k + 1)
    ensures Candidates(b, w, ss, j) == Candidates(b, w, ts, k)
  {
  }

  /** One step of a walk whose later branches are known to split into a walk
      over `ts` followed by `tail`. */
  lemma CandidatesStepSplit(b: Matcher, w: Value, ss: seq<Matcher>, ts: seq<Matcher>, j: nat, tail: seq<Elem>)
    requires Fits(b, w) && j < |ss| && j < |ts| && ss[j] == ts[j]
    requires Candidates(b, w, ss, j + 1) == Candidates(b, w, ts, j + 1) + tail
    ensures Candidates(b, w, ss, j) == Candidates(b, w, ts, j) + tail
  {
    var head := if ShapeOf(ts[j]) == ShapeOf(b) then SameRule(b, w, ts[j]) else [];
    assert head + (Candidates(b, w, ts, j + 1) + tail) == (head + Candidates(b, w, ts, j + 1)) + tail;
  }

  lemma {:induction false} CandidatesConcat(b: Matcher, w: Value, xs: seq<Matcher>, ys: seq<Matcher>, j: nat)
    requires Fits(b, w) && j <= |xs|
    ensures Candidates(b, w, xs + ys, j) == Candidates(b, w, xs, j) + Candidates(b, w, ys, 0)
    decreases |xs| - j
  {
    if j == |xs| {
      CandidatesShift(b, w, xs, ys, 0);
    } else {
      CandidatesConcat(b, w, xs, ys, j + 1);
      assert (xs + ys)[j] == xs[j];
      CandidatesStepSplit(b, w, xs + ys, xs, j, Candidates(b, w, ys, 0));
    }
  }

  lemma {:induction false} CandidatesShift(b: Matcher, w: Value, xs: seq<Matcher>, ys: seq<Matcher>, j: nat)
    requires Fits(b, w) && j <= |ys|
    ensures Candidates(b, w, xs + ys, |xs| + j) == Candidates(b, w, ys, j)
    decreases |ys| - j
  {
    if j < |ys| {
      CandidatesShift(b, w, xs, ys, j + 1);
      assert (xs + ys)[|xs| + j] == ys[j];
      CandidatesStepAgree(b, w, xs + ys, |xs| + j, ys, j);
    }
  }

  /** Or-against-Or re-matching distributes over a sub-rule built by flattening
      two alternations together: asking `Or(xs + ys)` is asking `Or(xs)` and
      then `Or(ys)`, results concatenated. */
  lemma OrAgainstOrSplits(bs: seq<Matcher>, v: Value, xs: seq<Matcher>, ys: seq<Matcher>)
    requires Fits(Or(bs), v)
    requires ShapeOf(Or(xs + ys)) != ShapeOf(Or(bs))
    requires ShapeOf(Or(xs)) != ShapeOf(Or(bs)) && ShapeOf(Or(ys)) != ShapeOf(Or(bs))
    ensures ReMatch(Or(bs), v, Or(xs + ys)) == ReMatch(Or(bs), v, Or(xs)) + ReMatch(Or(bs), v, Or(ys))
  {
    CandidatesConcat(bs[v.tag], v.payload, xs, ys, 0);
  }

  lemma {:induction false} CandidatesSingle(b: Matcher, w: Value, ss: seq<Matcher>, j: nat, t: nat)
    requires Fits(b, w) && j <= |ss| && t < |ss|
    requires Eq(ss[t], b)
    requires forall k :: 0 <= k < |ss| && k != t ==> ShapeOf(ss[k]) != ShapeOf(b)
    ensures Fits(ss[t], w)
    ensures Candidates(b, w, ss, j) == if j <= t then Generate(ss[t], w) else []
    decreases |ss| - j
  {
    EqSameShape(ss[t], b);
    EqFits(ss[t], b, w);
    if j < |ss| {
      CandidatesSingle(b, w, ss, j + 1, t);
    }
  }

  /** When exactly one branch of the sub-rule has the producing branch's static
      type and equals it, Or-against-Or re-matching yields that branch's
      decomposition. */
  lemma OrAgainstOrFindsProducer(bs: seq<Matcher>, i: nat, w: Value, ss: seq<Matcher>, t: nat)
    requires i < |bs| && Fits(bs[i], w) && t < |ss|
    requires ShapeOf(Or(ss)) != ShapeOf(Or(bs))
    requires Eq(ss[t], bs[i])
    requires forall k :: 0 <= k < |ss| && k != t ==> ShapeOf(ss[k]) != ShapeOf(bs[i])
    ensures Fits(Or(bs), VBranch(i, w)) && Fits(ss[t], w)
    ensures ReMatch(Or(bs), VBranch(i, w), Or(ss)) == Generate(ss[t], w)
  {
    CandidatesSingle(bs[i], w, ss, 0, t);
  }

  /** Two sequence values that fit their part lists give a sequence value that
      fits the flattened part list. */
  lemma TupleFitsConcat(xs: seq<Matcher>, ys: seq<Matcher>, us: seq<Value>, ws: seq<Value>)
    requires Fits(And(xs), VTuple(us)) && Fits(And(ys), VTuple(ws))
    ensures Fits(And(xs + ys), VTuple(us + ws))
  {
    forall k | 0 <= k < |xs + ys|
      ensures Fits((xs + ys)[k], (us + ws)[k])
    {
      if k < |xs| {
        assert (xs + ys)[k] == xs[k] && (us + ws)[k] == us[k];
      } else {
        assert (xs + ys)[k] == ys[k - |xs|] && (us + ws)[k] == ws[k - |xs|];
      }
    }
  }

  /** Two part-by-part re-matches that agree on their current part and on
      everything after it agree. */
  lemma PartsStepAgree(m: Matcher, slots: seq<Value>, i: nat, n: Matcher, others: seq<Value>, j: nat, s: Matcher)
    requires m.And? && Fits(m, VTuple(slots)) && i < |slots|
    requires n.And? && Fits(n, VTuple(others)) && j < |others|
    requires m.branches[i] == n.branches[j] && slots[i] == others[j]
    requires ReMatchParts(m, slots, s, i + 1) == ReMatchParts(n, others, s, j + 1)
    ensures ReMatchParts(m, slots, s, i) == ReMatchParts(n, others, s, j)
  {
  }

  lemma {:induction false} PartsShift(xs: seq<Matcher>, ys: seq<Matcher>, us: seq<Value>, ws: seq<Value>, s: Matcher, j: nat)
    requires Fits(And(xs + ys), VTuple(us + ws)) && Fits(And(ys), VTuple(ws))
    requires |us| == |xs| && j <= |ws|
    ensures ReMatchParts(And(xs + ys), us + ws, s, |xs| + j) == ReMatchParts(And(ys), ws, s, j)
    decreases |ws| - j
  {
    if j < |ws| {
      PartsShift(xs, ys, us, ws, s, j + 1);
      assert (xs + ys)[|xs| + j] == ys[j] && (us + ws)[|xs| + j] == ws[j];
      PartsStepAgree(And(xs + ys), us + ws, |xs| + j, And(ys), ws, j, s);
    }
  }

  /** One unfolding of a part-by-part re-match whose tail is known to split. */
  lemma PartsStepSplit(m: Matcher, slots: seq<Value>, i: nat, n: Matcher, others: seq<Value>, tail: seq<Elem>, s: Matcher)
    requires m.And? && Fits(m, VTuple(slots)) && i < |slots|
    requires n.And? && Fits(n, VTuple(others)) && i < |others|
    requires m.branches[i] == n.branches[i] && slots[i] == others[i]
    requires ReMatchParts(m, slots, s, i + 1) == ReMatchParts(n, others, s, i + 1) + tail
    ensures ReMatchParts(m, slots, s, i) == ReMatchParts(n, others, s, i) + tail
  {
    var head := ReMatch(m.branches[i], slots[i], s);
    assert head + (ReMatchParts(n, others, s, i + 1) + tail) == (head + ReMatchParts(n, others, s, i + 1)) + tail;
  }

  /** The split at the operand boundary itself: nothing of the first operand
      is left. */
  lemma PartsConcatAtBoundary(xs: seq<Matcher>, ys: seq<Matcher>, us: seq<Value>, ws: seq<Value>, s: Matcher)
    requires Fits(And(xs + ys), VTuple(us + ws))
    requires Fits(And(xs), VTuple(us)) && Fits(And(ys), VTuple(ws))
    ensures ReMatchParts(And(xs + ys), us + ws, s, |us|) ==
      ReMatchParts(And(xs), us, s, |us|) + ReMatchParts(And(ys), ws, s, 0)
  {
    PartsShift(xs, ys, us, ws, s, 0);
  }

  lemma {:induction false} PartsConcat(xs: seq<Matcher>, ys: seq<Matcher>, us: seq<Value>, ws: seq<Value>, s: Matcher, i: nat)
    requires Fits(And(xs + ys), VTuple(us + ws))
    requires Fits(And(xs), VTuple(us)) && Fits(And(ys), VTuple(ws)) && i <= |us|
    ensures ReMatchParts(And(xs + ys), us + ws, s, i) ==
      ReMatchParts(And(xs), us, s, i) + ReMatchParts(And(ys), ws, s, 0)
    decreases |us| - i
  {
    if i == |us| {
      PartsConcatAtBoundary(xs, ys, us, ws, s);
    } else {
      PartsConcat(xs, ys, us, ws, s, i + 1);
      assert (xs + ys)[i] == xs[i] && (us + ws)[i] == us[i];
      PartsStepSplit(And(xs + ys), us + ws, i, And(xs), us, ReMatchParts(And(ys), ws, s, 0), s);
    }
  }

  /** Re-matching a sequence value distributes over a part list built by
      flattening two sequences together. */
  lemma AndSplits(xs: seq<Matcher>, ys: seq<Matcher>, us: seq<Value>, ws: seq<Value>, s: Matcher)
    requires Fits(And(xs), VTuple(us)) && Fits(And(ys), VTuple(ws))
    requires ShapeOf(s) != ShapeOf(And(xs + ys))
    requires ShapeOf(s) != ShapeOf(And(xs)) && ShapeOf(s) != ShapeOf(And(ys))
    ensures Fits(And(xs + ys), VTuple(us + ws))
    ensures ReMatch(And(xs + ys), VTuple(us + ws), s) ==
      ReMatch(And(xs), VTuple(us), s) + ReMatch(And(ys), VTuple(ws), s)
  {
    TupleFitsConcat(xs, ys, us, ws);
    PartsConcat(xs, ys, us, ws, s, 0);
  }

  /** `OneOf` equality ignores order, so re-matching against a reordered member
      list reports the sub-rule's member at the parsed index: the element read
      was `a`, the decomposition says `b`. */
  lemma ReorderedMembersReportOtherElement()
    ensures Parse(OneOf(['a', 'b']), ['a'], 0).result == Some(VIdx(0))
    ensures Fits(OneOf(['a', 'b']), VIdx(0))
    ensures ReMatch(OneOf(['a', 'b']), VIdx(0), OneOf(['b', 'a'])) == ['b']
  {
    assert Eq(OneOf(['b', 'a']), OneOf(['a', 'b'])) by {
      assert ['a', 'b'][1] == 'b';
    }
  }
}
