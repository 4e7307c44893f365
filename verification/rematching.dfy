/**
 The type-directed re-match `operator()(value, subrule)`: given a value produced
 by matcher `m`, ask what a sub-rule `s` of a (possibly widened) grammar makes
 of it. It is a query: an unrelated sub-rule yields the empty sequence.
 */
module ReMatching {
  import opened Wrappers
  import opened Matchers
  import opened Generation

  /** The overload for a sub-rule of the very same static type:
      `subrule == *this ? subrule(value) : {}`. */
  function SameRule(m: Matcher, v: Value, s: Matcher): (r: seq<Elem>)
    requires Fits(m, v) && ShapeOf(s) == ShapeOf(m)
    ensures Eq(s, m) ==> Fits(s, v) && r == Generate(s, v)
    ensures !Eq(s, m) ==> r == []
  {
    if Eq(s, m) then
      EqFits(s, m, v);
      Generate(s, v)
    else []
  }

  /** Some part of `m` that re-matching can reach is structurally equal to `s`
      or to one of `s`'s branches. */
  predicate Mentions(m: Matcher, s: Matcher)
  {
    || Eq(s, m)
    || (s.Or? && exists j :: 0 <= j < |s.branches| && Eq(s.branches[j], m))
    || match m
       case Or(bs) => exists k :: 0 <= k < |bs| && Mentions(bs[k], s)
       case And(bs) => exists k :: 0 <= k < |bs| && Mentions(bs[k], s)
       case Star(i) => Mentions(i, s)
       case _ => false
  }

  /** Re-match `v` (produced by `m`) against the sub-rule `s`:
      - `s` of `m`'s own static type: `m`'s elements if `s` equals `m`, else empty;
      - `m` an `Or`, `s` another `Or`: every branch of `s` with the static type
        of the branch that produced `v`, in `s`'s order, concatenated;
      - `m` an `Or`, `s` anything else: delegate to the branch that produced `v`;
      - `m` an `And` or a `Star`: concatenate the re-matches of its parts or items;
      - otherwise (primitives, and `Plus`/`Opt`, which have no such overload): empty. */
  function ReMatch(m: Matcher, v: Value, s: Matcher): (r: seq<Elem>)
    requires Fits(m, v)
    decreases m, 1, 0
  {
    if ShapeOf(s) == ShapeOf(m) then SameRule(m, v, s)
    else
      match m
      case Or(bs) =>
        if s.Or? then Candidates(bs[v.tag], v.payload, s.branches, 0)
        else ReMatch(bs[v.tag], v.payload, s)
      case And(_) => ReMatchParts(m, v.slots, s, 0)
      case Star(_) => ReMatchItems(m, v.items, s)
      case _ => []
  }

  /** The Or-against-Or visitor: the branches of the sub-rule, from `j` on, that
      share the producing branch `b`'s static type, each asked as a same-type
      sub-rule, results concatenated in order. */
  function Candidates(b: Matcher, w: Value, ss: seq<Matcher>, j: nat): (r: seq<Elem>)
    requires Fits(b, w) && j <= |ss|
    decreases |ss| - j
  {
    if j == |ss| then []
    else
      (if ShapeOf(ss[j]) == ShapeOf(b) then SameRule(b, w, ss[j]) else [])
      + Candidates(b, w, ss, j + 1)
  }

  /** Re-match of the values `slots` of the parts of an `And`, from part `i`
      on, concatenated. */
  function ReMatchParts(m: Matcher, slots: seq<Value>, s: Matcher, i: nat): (r: seq<Elem>)
    requires m.And? && Fits(m, VTuple(slots)) && i <= |slots|
    decreases m, 0, |slots| - i
  {
    if i == |slots| then []
    else ReMatch(m.branches[i], slots[i], s) + ReMatchParts(m, slots, s, i + 1)
  }

  /** Re-match of the items of a `Star` value, concatenated. */
  function ReMatchItems(m: Matcher, items: seq<Value>, s: Matcher): (r: seq<Elem>)
    requires m.Star?
    requires forall k :: 0 <= k < |items| ==> Fits(m.inner, items[k])
    decreases m, 0, |items|
  {
    if |items| == 0 then []
    else ReMatch(m.inner, items[0], s) + ReMatchItems(m, items[1..], s)
  }

  /** A non-empty re-match always comes from a part of `m` that equals `s` or
      one of its branches. */
  lemma {:induction false} ReMatchNeedsMention(m: Matcher, v: Value, s: Matcher)
    requires Fits(m, v)
    ensures ReMatch(m, v, s) != [] ==> Mentions(m, s)
    decreases m, 1, 0
  {
    if ShapeOf(s) != ShapeOf(m) {
      match m
      case Or(bs) =>
        if s.Or? {
          CandidatesNeedEqual(bs[v.tag], v.payload, s.branches, 0);
          if ReMatch(m, v, s) != [] {
            assert Mentions(bs[v.tag], s);
          }
        } else {
          ReMatchNeedsMention(bs[v.tag], v.payload, s);
          if ReMatch(m, v, s) != [] {
            assert Mentions(bs[v.tag], s);
          }
        }
      case And(bs) =>
        PartsNeedMention(m, v.slots, s, 0);
      case Star(i) =>
        ItemsNeedMention(m, v.items, s);
      case _ =>
    }
  }

  /** The Or-against-Or walk yields something only when some sub-rule branch
      from `j` on equals the producing branch. */
  lemma {:induction false} CandidatesNeedEqual(b: Matcher, w: Value, ss: seq<Matcher>, j: nat)
    requires Fits(b, w) && j <= |ss|
    ensures Candidates(b, w, ss, j) != [] ==> exists k :: j <= k < |ss| && Eq(ss[k], b)
    decreases |ss| - j
  {
    if j < |ss| {
      CandidatesNeedEqual(b, w, ss, j + 1);
    }
  }

  /** The part-by-part re-match from part `i` on is non-empty only when one of
      those parts mentions the sub-rule. */
  lemma {:induction false} PartsNeedMention(m: Matcher, slots: seq<Value>, s: Matcher, i: nat)
    requires m.And? && Fits(m, VTuple(slots)) && i <= |slots|
    ensures ReMatchParts(m, slots, s, i) != [] ==>
      exists k :: i <= k < |m.branches| && Mentions(m.branches[k], s)
    decreases m, 0, |slots| - i
  {
    if i < |slots| {
      ReMatchNeedsMention(m.branches[i], slots[i], s);
      PartsNeedMention(m, slots, s, i + 1);
    }
  }

  /** The re-match of a repetition's items is non-empty only when the inner
      matcher mentions the sub-rule. */
  lemma {:induction false} ItemsNeedMention(m: Matcher, items: seq<Value>, s: Matcher)
    requires m.Star?
    requires forall k :: 0 <= k < |items| ==> Fits(m.inner, items[k])
    ensures ReMatchItems(m, items, s) != [] ==> Mentions(m.inner, s)
    decreases m, 0, |items|
  {
    if |items| > 0 {
      ReMatchNeedsMention(m.inner, items[0], s);
      ItemsNeedMention(m, items[1..], s);
    }
  }
}
