/**
 The parse direction: the cursor overloads `operator()(Begin& it, End end)` of
 every matcher, the array entry points that demand full consumption, and the
 prefix-only free `parse`. The C++ cursor is passed by reference and threaded
 through every sub-matcher, so here each call takes a position and returns the
 position it leaves behind, whether it matched or not.
 */
module Parsing {
  import opened Wrappers
  import opened Matchers

  /** What a cursor call leaves: the result envelope (`None` is "no match")
      and the cursor position afterwards. */
  datatype Outcome = Outcome(result: Option<Value>, next: nat)

  /** The literal scan: walk the input from `pos + k` and the literal from `k`
      together, give up at the first mismatch, and succeed only when the literal
      is exhausted (running out of input first is a failure). */
  function ScanLit(lit: seq<Elem>, input: seq<Elem>, pos: nat, k: nat): (ok: bool)
    requires k <= |lit| && pos + k <= |input|
    ensures ok <==> pos + |lit| <= |input| && input[pos + k..pos + |lit|] == lit[k..]
    decreases |lit| - k
  {
    if pos + k < |input| && k < |lit| then
      if input[pos + k] != lit[k] then
        assert pos + |lit| <= |input| ==> input[pos + k..pos + |lit|][0] != lit[k..][0];
        false
      else
        var ok := ScanLit(lit, input, pos, k + 1);
        assert ok ==> input[pos + k..pos + |lit|] == [lit[k]] + input[pos + k + 1..pos + |lit|];
        assert lit[k..] == [lit[k]] + lit[k + 1..];
        ok
    else
      k == |lit|
  }

  /** The `OneOf` search: the first index whose member equals `e`, or the
      sentinel `|members|` when none does. */
  function IndexOf(members: seq<Elem>, e: Elem): (i: nat)
    ensures i <= |members|
    ensures i < |members| ==> members[i] == e
    ensures forall j :: 0 <= j < i ==> members[j] != e
  {
    if |members| == 0 then 0
    else if members[0] == e then 0
    else 1 + IndexOf(members[1..], e)
  }

  /** Run `m` at cursor `pos`. On success the value has `m`'s type and a
      consuming matcher has moved the cursor; in every case the cursor only
      moves forward and stays inside the input. */
  function Parse(m: Matcher, input: seq<Elem>, pos: nat): (o: Outcome)
    requires pos <= |input| && WellFormed(m)
    ensures pos <= o.next <= |input|
    ensures o.result.Some? ==> Fits(m, o.result.value)
    ensures o.result.Some? && Consuming(m) ==> pos < o.next
    decreases |input| - pos, m, 1, 0
  {
    match m
    case Any =>
      if pos < |input| then Outcome(Some(VElem(input[pos])), pos + 1) else Outcome(None, pos)
    case Lit(lit) =>
      if ScanLit(lit, input, pos, 0) then Outcome(Some(VUnit), pos + |lit|) else Outcome(None, pos)
    case OneOf(members) =>
      if pos < |input| then
        var i := IndexOf(members, input[pos]);
        if i < |members| then Outcome(Some(VIdx(i)), pos + 1) else Outcome(None, pos)
      else Outcome(None, pos)
    case Range(lo, hi) =>
      if pos < |input| && lo <= input[pos] <= hi then Outcome(Some(VElem(input[pos])), pos + 1)
      else Outcome(None, pos)
    case Or(bs) =>
      ParseOr(m, 0, input, pos)
    case And(bs) =>
      var (parts, next) := ParseAnd(m, 0, input, pos);
      if parts.Some? then Outcome(Some(VTuple(parts.value)), next) else Outcome(None, next)
    case Star(_) =>
      var (items, next) := ParseMany(m, input, pos);
      Outcome(Some(VList(items)), next)
    case Plus(inner) =>
      var first := Parse(inner, input, pos);
      if first.result.Some? then
        var (items, next) := ParseMany(m, input, first.next);
        Outcome(Some(VList([first.result.value] + items)), next)
      else Outcome(None, first.next)
    case Opt(inner) =>
      var o := Parse(inner, input, pos);
      Outcome(Some(VEnv(o.result)), o.next)
  }

  /** Ordered choice from branch `i` on: the first branch that matches wins and
      is tagged with its index; a failing branch hands the cursor it left to the
      next one. */
  function ParseOr(m: Matcher, i: nat, input: seq<Elem>, pos: nat): (o: Outcome)
    requires m.Or? && i <= |m.branches| && pos <= |input| && WellFormed(m)
    ensures pos <= o.next <= |input|
    ensures o.result.Some? ==>
      o.result.value.VBranch? && i <= o.result.value.tag < |m.branches| &&
      Fits(m.branches[o.result.value.tag], o.result.value.payload)
    ensures o.result.Some? && Consuming(m) ==> pos < o.next
    decreases |input| - pos, m, 0, |m.branches| - i
  {
    if i == |m.branches| then Outcome(None, pos)
    else
      var o := Parse(m.branches[i], input, pos);
      if o.result.Some? then Outcome(Some(VBranch(i, o.result.value)), o.next)
      else ParseOr(m, i + 1, input, o.next)
  }

  /** Sequence from part `i` on: every part runs, left to right, even after an
      earlier one failed, and the cursor is never rolled back; the parts'
      values are collected only when all of them matched. */
  function ParseAnd(m: Matcher, i: nat, input: seq<Elem>, pos: nat): (r: (Option<seq<Value>>, nat))
    requires m.And? && i <= |m.branches| && pos <= |input| && WellFormed(m)
    ensures pos <= r.1 <= |input|
    ensures r.0.Some? ==>
      |r.0.value| == |m.branches| - i &&
      forall k :: 0 <= k < |r.0.value| ==> Fits(m.branches[i + k], r.0.value[k])
    ensures r.0.Some? && (exists k :: i <= k < |m.branches| && Consuming(m.branches[k])) ==> pos < r.1
    decreases |input| - pos, m, 0, |m.branches| - i
  {
    if i == |m.branches| then (Some([]), pos)
    else
      var o := Parse(m.branches[i], input, pos);
      var (rest, next) := ParseAnd(m, i + 1, input, o.next);
      if o.result.Some? && rest.Some? then (Some([o.result.value] + rest.value), next)
      else (None, next)
  }

  /** The repetition loop shared by `Star` and `Plus`: apply the inner matcher
      until it fails, collecting values; the cursor is where the failing
      attempt left it. */
  function ParseMany(m: Matcher, input: seq<Elem>, pos: nat): (r: (seq<Value>, nat))
    requires (m.Star? || m.Plus?) && pos <= |input| && WellFormed(m)
    ensures pos <= r.1 <= |input|
    ensures forall k :: 0 <= k < |r.0| ==> Fits(m.inner, r.0[k])
    decreases |input| - pos, m, 0, 0
  {
    var o := Parse(m.inner, input, pos);
    if o.result.Some? then
      var (items, next) := ParseMany(m, input, o.next);
      ([o.result.value] + items, next)
    else ([], o.next)
  }

  /** The free `parse`: run at the start of the input, trailing input allowed. */
  function ParsePrefix(m: Matcher, input: seq<Elem>): (o: Outcome)
    requires WellFormed(m)
    ensures o.next <= |input|
    ensures o.result.Some? ==> Fits(m, o.result.value)
  {
    Parse(m, input, 0)
  }

  /** The array entry points: the match must consume the input to its end. */
  function ParseAll(m: Matcher, input: seq<Elem>): (r: Option<Value>)
    requires WellFormed(m)
    ensures r.Some? ==> Fits(m, r.value)
  {
    var o := Parse(m, input, 0);
    if o.result.Some? && o.next == |input| then o.result else None
  }
}
