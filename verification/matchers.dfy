/**
 The matcher family of the combinator engine as one closed datatype, the universal
 result `Value` that replaces the per-matcher C++ result types, the `Shape` that
 stands in for a matcher's static C++ type, and structural equality.
 */
module Matchers {
  import opened Wrappers

  /** The element type the engine runs over (the tests use `char`). */
  type Elem = char

  /** One grammar rule. Primitives: `Any`, `Lit`, `OneOf`, `Range`; combinators:
      `Or` (ordered choice), `And` (sequence), `Star` (zero or more),
      `Plus` (one or more), `Opt` (optional). */
  datatype Matcher =
    | Any
    | Lit(lit: seq<Elem>)
    | OneOf(members: seq<Elem>)
    | Range(lo: Elem, hi: Elem)
    | Or(branches: seq<Matcher>)
    | And(branches: seq<Matcher>)
    | Star(inner: Matcher)
    | Plus(inner: Matcher)
    | Opt(inner: Matcher)

  /** The value a successful parse produces:
      `VElem` for `Any` and `Range` (the element itself), `VUnit` for `Lit`,
      `VIdx` for `OneOf` (index into the member list), `VBranch` for `Or` (branch
      index and that branch's value), `VTuple` for `And` (one slot per branch),
      `VList` for `Star`/`Plus`, `VEnv` for `Opt` (the inner attempt's envelope). */
  datatype Value =
    | VElem(elem: Elem)
    | VUnit
    | VIdx(idx: nat)
    | VBranch(tag: nat, payload: Value)
    | VTuple(slots: seq<Value>)
    | VList(items: seq<Value>)
    | VEnv(env: Option<Value>)

  /** The static type of a matcher: payloads erased, but literal and member-list
      sizes kept, since those are template parameters of the C++ classes. */
  datatype Shape =
    | SAny
    | SLit(litSize: nat)
    | SOneOf(memberCount: nat)
    | SRange
    | SOr(branchShapes: seq<Shape>)
    | SAnd(branchShapes: seq<Shape>)
    | SStar(innerShape: Shape)
    | SPlus(innerShape: Shape)
    | SOpt(innerShape: Shape)

  function ShapeOf(m: Matcher): Shape
  {
    match m
    case Any => SAny
    case Lit(lit) => SLit(|lit|)
    case OneOf(members) => SOneOf(|members|)
    case Range(_, _) => SRange
    case Or(bs) => SOr(seq(|bs|, k requires 0 <= k < |bs| => ShapeOf(bs[k])))
    case And(bs) => SAnd(seq(|bs|, k requires 0 <= k < |bs| => ShapeOf(bs[k])))
    case Star(i) => SStar(ShapeOf(i))
    case Plus(i) => SPlus(ShapeOf(i))
    case Opt(i) => SOpt(ShapeOf(i))
  }

  /** `v` has the type of `m`'s C++ `value_type` (and a `OneOf` index is in range,
      since `generate` indexes the member array with it). */
  predicate Fits(m: Matcher, v: Value)
  {
    match m
    case Any => v.VElem?
    case Lit(_) => v.VUnit?
    case OneOf(members) => v.VIdx? && v.idx < |members|
    case Range(_, _) => v.VElem?
    case Or(bs) => v.VBranch? && v.tag < |bs| && Fits(bs[v.tag], v.payload)
    case And(bs) =>
      v.VTuple? && |v.slots| == |bs| &&
      forall k :: 0 <= k < |bs| ==> Fits(bs[k], v.slots[k])
    case Star(i) => v.VList? && forall k :: 0 <= k < |v.items| ==> Fits(i, v.items[k])
    case Plus(i) => v.VList? && forall k :: 0 <= k < |v.items| ==> Fits(i, v.items[k])
    case Opt(i) => v.VEnv? && (v.env.Some? ==> Fits(i, v.env.value))
  }

  /** Syntactic guarantee that every successful parse of `m` moves the cursor. */
  predicate Consuming(m: Matcher)
  {
    match m
    case Any => true
    case Lit(lit) => |lit| > 0
    case OneOf(_) => true
    case Range(_, _) => true
    case Or(bs) => forall k :: 0 <= k < |bs| ==> Consuming(bs[k])
    case And(bs) => exists k :: 0 <= k < |bs| && Consuming(bs[k])
    case Star(_) => false
    case Plus(i) => Consuming(i)
    case Opt(_) => false
  }

  /** The repetition loops of the source have no progress guard, so a repeated
      matcher that can succeed without consuming would loop forever; a matcher
      is well formed when every `Star`/`Plus` repeats a consuming matcher. */
  predicate WellFormed(m: Matcher)
  {
    match m
    case Any => true
    case Lit(_) => true
    case OneOf(_) => true
    case Range(_, _) => true
    case Or(bs) => forall k :: 0 <= k < |bs| ==> WellFormed(bs[k])
    case And(bs) => forall k :: 0 <= k < |bs| ==> WellFormed(bs[k])
    case Star(i) => Consuming(i) && WellFormed(i)
    case Plus(i) => Consuming(i) && WellFormed(i)
    case Opt(i) => WellFormed(i)
  }

  /** Syntactic guarantee that a failed parse of `m` leaves the cursor where it
      was: no `And` of two or more parts is reachable through `Or` branches,
      one-part `And`s or the inner matcher of `Plus`. Such an `And` can fail
      after consuming, and an `Or` or a `Plus` that fails through it keeps the
      cursor it left. */
  predicate FailClean(m: Matcher)
  {
    match m
    case Any => true
    case Lit(_) => true
    case OneOf(_) => true
    case Range(_, _) => true
    case Or(bs) => forall k :: 0 <= k < |bs| ==> FailClean(bs[k])
    case And(bs) => |bs| <= 1 && forall k :: 0 <= k < |bs| ==> FailClean(bs[k])
    case Star(_) => true
    case Plus(i) => FailClean(i)
    case Opt(_) => true
  }

  /** No failing sub-parse whose failure is absorbed (an `Or` branch, the inner
      matcher of `Star`/`Plus`/`Opt`) can move the cursor. */
  predicate Sound(m: Matcher)
  {
    match m
    case Any => true
    case Lit(_) => true
    case OneOf(_) => true
    case Range(_, _) => true
    case Or(bs) => forall k :: 0 <= k < |bs| ==> FailClean(bs[k]) && Sound(bs[k])
    case And(bs) => forall k :: 0 <= k < |bs| ==> Sound(bs[k])
    case Star(i) => FailClean(i) && Sound(i)
    case Plus(i) => FailClean(i) && Sound(i)
    case Opt(i) => FailClean(i) && Sound(i)
  }

  /** Membership test of `std::find` over a member list. */
  predicate Contains(s: seq<Elem>, e: Elem)
  {
    e in s
  }

  /** Structural equality `a == b` of the source. Matchers of different kinds or
      sizes never compare equal (the C++ does not even compile such a
      comparison). `OneOf` equality is "same size, and every member of `a`
      occurs in `b`": it ignores order and is not symmetric. */
  predicate Eq(a: Matcher, b: Matcher)
  {
    match a
    case Any => b.Any?
    case Lit(x) => b.Lit? && x == b.lit
    case OneOf(x) =>
      b.OneOf? && |x| == |b.members| && forall k :: 0 <= k < |x| ==> Contains(b.members, x[k])
    case Range(lo, hi) => b.Range? && lo == b.lo && hi == b.hi
    case Or(xs) =>
      b.Or? && |xs| == |b.branches| && forall k :: 0 <= k < |xs| ==> Eq(xs[k], b.branches[k])
    case And(xs) =>
      b.And? && |xs| == |b.branches| && forall k :: 0 <= k < |xs| ==> Eq(xs[k], b.branches[k])
    case Star(x) => b.Star? && Eq(x, b.inner)
    case Plus(x) => b.Plus? && Eq(x, b.inner)
    case Opt(x) => b.Opt? && Eq(x, b.inner)
  }

  /** Every matcher equals itself. */
  lemma {:induction false} EqReflexive(m: Matcher)
    ensures Eq(m, m)
  {
    match m
    case Any =>
    case Lit(_) =>
    case OneOf(x) =>
      forall k | 0 <= k < |x| ensures Contains(x, x[k]) { }
    case Range(_, _) =>
    case Or(bs) =>
      forall k | 0 <= k < |bs| ensures Eq(bs[k], bs[k]) { EqReflexive(bs[k]); }
    case And(bs) =>
      forall k | 0 <= k < |bs| ensures Eq(bs[k], bs[k]) { EqReflexive(bs[k]); }
    case Star(i) => EqReflexive(i);
    case Plus(i) => EqReflexive(i);
    case Opt(i) => EqReflexive(i);
  }

  /** Equal matchers have the same static type. */
  lemma {:induction false} EqSameShape(a: Matcher, b: Matcher)
    requires Eq(a, b)
    ensures ShapeOf(a) == ShapeOf(b)
  {
    match a
    case Any =>
    case Lit(_) =>
    case OneOf(_) =>
    case Range(_, _) =>
    case Or(xs) =>
      forall k | 0 <= k < |xs| ensures ShapeOf(xs[k]) == ShapeOf(b.branches[k]) {
        EqSameShape(xs[k], b.branches[k]);
      }
    case And(xs) =>
      forall k | 0 <= k < |xs| ensures ShapeOf(xs[k]) == ShapeOf(b.branches[k]) {
        EqSameShape(xs[k], b.branches[k]);
      }
    case Star(x) => EqSameShape(x, b.inner);
    case Plus(x) => EqSameShape(x, b.inner);
    case Opt(x) => EqSameShape(x, b.inner);
  }

  /** A value of `b`'s type is a value of any matcher `b` equals: equality
      carries the type (and the `OneOf` size) across. */
  lemma {:induction false} EqFits(a: Matcher, b: Matcher, v: Value)
    requires Eq(a, b) && Fits(b, v)
    ensures Fits(a, v)
  {
    match a
    case Any =>
    case Lit(_) =>
    case OneOf(_) =>
    case Range(_, _) =>
    case Or(xs) => EqFits(xs[v.tag], b.branches[v.tag], v.payload);
    case And(xs) =>
      forall k | 0 <= k < |xs| ensures Fits(xs[k], v.slots[k]) {
        EqFits(xs[k], b.branches[k], v.slots[k]);
      }
    case Star(x) =>
      forall k | 0 <= k < |v.items| ensures Fits(x, v.items[k]) {
        EqFits(x, b.inner, v.items[k]);
      }
    case Plus(x) =>
      forall k | 0 <= k < |v.items| ensures Fits(x, v.items[k]) {
        EqFits(x, b.inner, v.items[k]);
      }
    case Opt(x) =>
      if v.env.Some? {
        EqFits(x, b.inner, v.env.value);
      }
  }

  /** `OneOf` equality is not symmetric: `{a, a}` equals `{a, b}` but not
      the other way round. */
  lemma OneOfEqualityAsymmetric()
    ensures Eq(OneOf(['a', 'a']), OneOf(['a', 'b']))
    ensures !Eq(OneOf(['a', 'b']), OneOf(['a', 'a']))
  {
    assert ['a', 'a'][1] == 'a';
    assert ['a', 'b'][1] == 'b' && 'b' !in ['a', 'a'];
    assert !Contains(['a', 'a'], ['a', 'b'][1]);
  }

  /** No repeated element. */
  predicate Distinct(s: seq<Elem>)
  {
    forall i, j :: 0 <= i < j < |s| ==> s[i] != s[j]
  }

  function Elems(s: seq<Elem>): set<Elem>
  {
    set k | 0 <= k < |s| :: s[k]
  }

  lemma {:induction false} ElemsBound(s: seq<Elem>)
    ensures |Elems(s)| <= |s|
    ensures Distinct(s) ==> |Elems(s)| == |s|
    decreases |s|
  {
    if |s| > 0 {
      var t := s[..|s| - 1];
      ElemsBound(t);
      assert Elems(s) == Elems(t) + {s[|s| - 1]};
      if Distinct(s) {
        assert s[|s| - 1] !in Elems(t);
      }
    } else {
      assert Elems(s) == {};
    }
  }

  /** Without repeated members in the left list, `OneOf` equality is symmetric:
      same size plus inclusion of a duplicate-free list forces the same member sets. */
  lemma OneOfEqualitySymmetricWhenDistinct(a: seq<Elem>, b: seq<Elem>)
    requires Distinct(a)
    requires Eq(OneOf(a), OneOf(b))
    ensures Eq(OneOf(b), OneOf(a))
  {
    assert Elems(a) <= Elems(b) by {
      forall e | e in Elems(a) ensures e in Elems(b) {
        var k :| 0 <= k < |a| && a[k] == e;
        assert Contains(b, a[k]);
      }
    }
    ElemsBound(a);
    ElemsBound(b);
    assert Elems(a) == Elems(b) by {
      var extra := Elems(b) - Elems(a);
      assert Elems(b) == Elems(a) + extra;
      assert |Elems(b)| == |Elems(a)| + |extra|;
      assert extra == {};
    }
    forall k | 0 <= k < |b| ensures Contains(a, b[k]) {
      assert b[k] in Elems(b);
    }
  }
}
