/**
 How an alternation stores its outcome: a variant whose slot 0 is the empty
 state ("no match") and whose slot `k + 1` holds the value of branch `k`,
 read as true exactly when it holds a branch value. The source departs from
 this in two places, each modelled here as written next to the corrected
 reading the rest of the model uses (`Parse` yields `None` or
 `Some(VBranch(k, w))` directly).
 */
module OrResult {
  import opened Wrappers
  import opened Matchers
  import opened Parsing
  import opened ParseLaws

  /** An outcome of an alternation: no match, or a branch value. */
  predicate IsOrOutcome(r: Option<Value>)
  {
    r.Some? ==> r.value.VBranch?
  }

  // ----- Corrected reading -----

  /** The variant slot an outcome occupies: 0 for no match, `k + 1` for
      branch `k`. */
  function Slot(r: Option<Value>): (slot: nat)
    requires IsOrOutcome(r)
    ensures slot == 0 <==> r.None?
  {
    if r.None? then 0 else r.value.tag + 1
  }

  /** The branch a slot stands for, if any. */
  function BranchOf(slot: nat): (b: Option<nat>)
    ensures b.None? <==> slot == 0
  {
    if slot == 0 then None else Some(slot - 1)
  }

  /** Truth of an outcome: it holds a branch value. */
  predicate Truth(slot: nat)
  {
    slot != 0
  }

  /** The slot encoding loses nothing: the branch index comes back out, and
      distinct outcomes never share a slot unless they agree on the branch. */
  lemma SlotRoundTrip(r: Option<Value>)
    requires IsOrOutcome(r)
    ensures BranchOf(Slot(r)) == if r.Some? then Some(r.value.tag) else None
    ensures Truth(Slot(r)) <==> r.Some?
  {
  }

  /** With the corrected reading, an alternation's outcome is true exactly when
      it matched, and its slot names the branch that matched. */
  lemma OrTruthIsMatch(bs: seq<Matcher>, input: seq<Elem>, pos: nat)
    requires pos <= |input| && WellFormed(Or(bs))
    ensures var r := Parse(Or(bs), input, pos).result;
      && IsOrOutcome(r)
      && (Truth(Slot(r)) <==> r.Some?)
      && (r.Some? ==> BranchOf(Slot(r)) == Some(r.value.tag) && r.value.tag < |bs|)
  {
  }

  // ----- As written -----

  /** The slot as written: branch `k` is placed with the variant index `k`,
      which for branch 0 is the empty state's own slot. */
  function SlotAsWritten(r: Option<Value>): (slot: nat)
    requires IsOrOutcome(r)
    ensures r.Some? ==> slot + 1 == Slot(r)
    ensures slot == 0 <==> r.None? || r.value.tag == 0
    ensures r.None? ==> slot == Slot(r)
  {
    if r.None? then 0 else r.value.tag
  }

  /** Truth as written: the variant index equals 0. */
  predicate TruthAsWritten(slot: nat)
  {
    slot == 0
  }

  /** As written, a match of branch 0 and no match occupy the same slot, so
      the stored outcome cannot tell them apart. */
  lemma AsWrittenBranchZeroIsNoMatch()
    ensures Parse(Or([Lit(['a'])]), ['a'], 0).result == Some(VBranch(0, VUnit))
    ensures Parse(Or([Lit(['a'])]), ['b'], 0).result == None
    ensures SlotAsWritten(Some(VBranch(0, VUnit))) == SlotAsWritten(None)
    ensures Slot(Some(VBranch(0, VUnit))) != Slot(None)
  {
    assert ['b'][0..1][0] == 'b' != ['a'][0];
  }

  /** As written, truth is the negation of the corrected truth: every match
      reads as false and no match reads as true. */
  lemma AsWrittenTruthInverted(r: Option<Value>)
    requires IsOrOutcome(r)
    ensures TruthAsWritten(Slot(r)) <==> !Truth(Slot(r))
    ensures TruthAsWritten(Slot(r)) <==> r.None?
  {
  }

  /** The array entry point of an alternation as written: it keeps the
      outcome only when that outcome reads as true and the input is used up;
      otherwise it returns the empty state. */
  function ParseAllOrAsWritten(bs: seq<Matcher>, input: seq<Elem>): (slot: nat)
    requires WellFormed(Or(bs))
    ensures slot == 0
    ensures TruthAsWritten(slot)
  {
    var o := Parse(Or(bs), input, 0);
    if TruthAsWritten(Slot(o.result)) && o.next == |input| then Slot(o.result) else 0
  }

  /** The corrected array entry point: a full match is kept, anything else is
      the empty state, and the outcome is true exactly when the whole input
      matched. */
  function ParseAllOr(bs: seq<Matcher>, input: seq<Elem>): (slot: nat)
    requires WellFormed(Or(bs))
    ensures Truth(slot) <==> ParseAll(Or(bs), input).Some?
    ensures Truth(slot) ==> BranchOf(slot) == Some(ParseAll(Or(bs), input).value.tag)
  {
    var o := Parse(Or(bs), input, 0);
    if Truth(Slot(o.result)) && o.next == |input| then Slot(o.result) else 0
  }

  /** As written, the array entry point never reports a match: an alternation
      of `a` and `b` given exactly `b` returns the empty state, while the
      corrected entry point reports branch 1. */
  lemma AsWrittenArrayEntryRejectsMatch()
    ensures WellFormed(Or([Lit(['a']), Lit(['b'])]))
    ensures ParseAll(Or([Lit(['a']), Lit(['b'])]), ['b']) == Some(VBranch(1, VUnit))
    ensures ParseAllOrAsWritten([Lit(['a']), Lit(['b'])], ['b']) == 0
    ensures BranchOf(ParseAllOr([Lit(['a']), Lit(['b'])], ['b'])) == Some(1)
  {
    assert ['b'][0..1][0] == 'b' != ['a'][0];
    assert ['b'][0..1] == ['b'];
  }

  /** As written, the array entry point always returns the empty state, and
      the caller's `operator bool` reads that state as true: every input,
      matching or not, is reported as a match. So `("abc" | "cba")` given
      `def`, which the corrected entry point rejects, reads as a match. */
  lemma AsWrittenArrayEntryAlwaysTrue(bs: seq<Matcher>, input: seq<Elem>)
    requires WellFormed(Or(bs))
    ensures ParseAllOrAsWritten(bs, input) == 0
    ensures TruthAsWritten(ParseAllOrAsWritten(bs, input))
    ensures bs == [Lit("abc"), Lit("cba")] && input == "def" ==>
      !Truth(ParseAllOr(bs, input))
  {
    if bs == [Lit("abc"), Lit("cba")] && input == "def" {
      OrFirstMatchWins(bs, input, 0);
      LitParse("abc", input, 0);
      LitParse("cba", input, 0);
      assert input[0..3] != "abc" && input[0..3] != "cba";
    }
  }
}
