/**
 Grammars built with the operators, on short inputs: a literal with an
 optional and with a repeated middle part, and the identifier grammar
 `symbol & *(symbol | number)`.
 */
module Scenarios {
  import opened Wrappers
  import opened Matchers
  import opened Parsing
  import opened ParseLaws
  import opened Algebra

  /** `ab & !c & d`: the optional part flattens into one three-part sequence. */
  function OptionalMiddle(): (m: Matcher)
    ensures WellFormed(m)
    ensures m == And([Lit(['a', 'b']), Opt(Lit(['c'])), Lit(['d'])])
  {
    AndOf(AndOf(Lit(['a', 'b']), Opt(Lit(['c']))), Lit(['d']))
  }

  /** The array entry point of `a & b & c`: the three parts run one after the
      other, each at the cursor the previous one left, and the input is
      accepted iff all three match and the last one ends at the end. */
  lemma ThreePartsAll(a: Matcher, b: Matcher, c: Matcher, input: seq<Elem>)
    requires WellFormed(a) && WellFormed(b) && WellFormed(c)
    ensures WellFormed(AndOf(AndOf(a, b), c))
    ensures var oa := Parse(a, input, 0);
      var ob := Parse(b, input, oa.next);
      var oc := Parse(c, input, ob.next);
      ParseAll(AndOf(AndOf(a, b), c), input).Some? <==>
        oa.result.Some? && ob.result.Some? && oc.result.Some? && oc.next == |input|
  {
    AndOfRunsLeftThenRight(AndOf(a, b), c, input, 0);
    AndOfRunsLeftThenRight(a, b, input, 0);
  }

  /** `ab & !c & d` accepts exactly `abd` and `abcd`. */
  lemma OptionalMiddleAcceptsExactly(input: seq<Elem>)
    ensures ParseAll(OptionalMiddle(), input).Some? <==>
      input == ['a', 'b', 'd'] || input == ['a', 'b', 'c', 'd']
  {
    var ab, c, d := Lit(['a', 'b']), Lit(['c']), Lit(['d']);
    ThreePartsAll(ab, Opt(c), d, input);
    LitParse(ab.lit, input, 0);
    var p1 := Parse(ab, input, 0).next;
    OptCarriesEnvelope(c, input, p1);
    LitParse(c.lit, input, p1);
    var p2 := Parse(Opt(c), input, p1).next;
    LitParse(d.lit, input, p2);
    if input == ['a', 'b', 'd'] {
      assert input[0..2] == ['a', 'b'] && input[2..3] == ['d'];
    } else if input == ['a', 'b', 'c', 'd'] {
      assert input[0..2] == ['a', 'b'] && input[2..3] == ['c'] && input[3..4] == ['d'];
    }
  }

  lemma OptionalMiddleAccepts()
    ensures ParseAll(OptionalMiddle(), ['a', 'b', 'd']).Some?
    ensures ParseAll(OptionalMiddle(), ['a', 'b', 'c', 'd']).Some?
  {
    OptionalMiddleAcceptsExactly(['a', 'b', 'd']);
    OptionalMiddleAcceptsExactly(['a', 'b', 'c', 'd']);
  }

  lemma OptionalMiddleRejects()
    ensures ParseAll(OptionalMiddle(), ['a', 'b', 'e', 'd']).None?
  {
    OptionalMiddleAcceptsExactly(['a', 'b', 'e', 'd']);
    assert ['a', 'b', 'e', 'd'][2] != ['a', 'b', 'c', 'd'][2];
  }

  /** `ab & +c & d`: the repeated middle part needs at least one `c`. */
  function RepeatedMiddle(): (m: Matcher)
    ensures WellFormed(m)
    ensures m == And([Lit(['a', 'b']), Plus(Lit(['c'])), Lit(['d'])])
  {
    AndOf(AndOf(Lit(['a', 'b']), Plus(Lit(['c']))), Lit(['d']))
  }

  /** A repetition of `c` runs over the longest stretch of `c`s from `pos`. */
  lemma {:induction false} RunOfC(input: seq<Elem>, pos: nat)
    requires pos <= |input|
    ensures WellFormed(Plus(Lit(['c'])))
    ensures var n := ParseMany(Plus(Lit(['c'])), input, pos).1;
      && (forall k :: pos <= k < n ==> input[k] == 'c')
      && (n < |input| ==> input[n] != 'c')
    decreases |input| - pos
  {
    SingleStepParse(Lit(['c']), input, pos);
    ManyCursorStep(Plus(Lit(['c'])), input, pos);
    if pos < |input| && input[pos] == 'c' {
      RunOfC(input, pos + 1);
    }
  }

  /** `+c` at `pos`: it matches iff a `c` is there, and then stops exactly at
      the end of the stretch of `c`s; otherwise it fails in place. */
  lemma PlusOfCParse(input: seq<Elem>, pos: nat)
    requires pos <= |input|
    ensures WellFormed(Plus(Lit(['c'])))
    ensures var o := Parse(Plus(Lit(['c'])), input, pos);
      && (o.result.Some? <==> pos < |input| && input[pos] == 'c')
      && (o.result.None? ==> o.next == pos)
      && (o.result.Some? ==>
            && pos < o.next
            && (forall k :: pos <= k < o.next ==> input[k] == 'c')
            && (o.next < |input| ==> input[o.next] != 'c'))
  {
    SingleStepParse(Lit(['c']), input, pos);
    if pos < |input| && input[pos] == 'c' {
      RunOfC(input, pos + 1);
    }
  }

  /** `ab & +c & d` accepts exactly `ab`, then one or more `c`, then `d`. */
  lemma RepeatedMiddleAcceptsExactly(input: seq<Elem>)
    ensures ParseAll(RepeatedMiddle(), input).Some? <==>
      && |input| >= 4 && input[0] == 'a' && input[1] == 'b' && input[|input| - 1] == 'd'
      && forall k :: 2 <= k < |input| - 1 ==> input[k] == 'c'
  {
    var ab, c, d := Lit(['a', 'b']), Lit(['c']), Lit(['d']);
    ThreePartsAll(ab, Plus(c), d, input);
    LitParse(ab.lit, input, 0);
    if 2 <= |input| {
      assert input[0..2] == ['a', 'b'] <==> input[0] == 'a' && input[1] == 'b';
    }
    var p1 := Parse(ab, input, 0).next;
    PlusOfCParse(input, p1);
    var p2 := Parse(Plus(c), input, p1).next;
    SingleStepParse(d, input, p2);
  }

  lemma RepeatedMiddleAccepts()
    ensures ParseAll(RepeatedMiddle(), ['a', 'b', 'c', 'd']).Some?
  {
    var s := ['a', 'b', 'c', 'd'];
    assert forall k :: 2 <= k < |s| - 1 ==> s[k] == 'c';
    RepeatedMiddleAcceptsExactly(s);
  }

  lemma RepeatedMiddleAcceptsTwice()
    ensures ParseAll(RepeatedMiddle(), ['a', 'b', 'c', 'c', 'd']).Some?
  {
    var s := ['a', 'b', 'c', 'c', 'd'];
    assert forall k :: 2 <= k < |s| - 1 ==> s[k] == 'c';
    RepeatedMiddleAcceptsExactly(s);
  }

  lemma RepeatedMiddleRejects()
    ensures ParseAll(RepeatedMiddle(), ['a', 'b', 'd']).None?
    ensures ParseAll(RepeatedMiddle(), ['a', 'b', 'c', 'e']).None?
  {
    RepeatedMiddleAcceptsExactly(['a', 'b', 'd']);
    RepeatedMiddleAcceptsExactly(['a', 'b', 'c', 'e']);
  }

  /** The array entry point demands that the whole input be used: a literal
      followed by more input is rejected, though the cursor call matches the
      literal at the start. */
  lemma ArrayEntryRejectsTrailingInput()
    ensures ParsePrefix(Lit(['a', 'b']), ['a', 'b', '1']).result.Some?
    ensures ParseAll(Lit(['a', 'b']), ['a', 'b', '1']).None?
  {
    assert ['a', 'b', '1'][0..2] == ['a', 'b'];
  }

  /** Alternation is ordered: when both branches match, the first one wins,
      even though the second would consume less. */
  lemma AlternationPrefersFirstBranch()
    ensures WellFormed(OrOf(Lit(['a', 'b']), Lit(['a'])))
    ensures Parse(OrOf(Lit(['a', 'b']), Lit(['a'])), ['a', 'b'], 0) == Outcome(Some(VBranch(0, VUnit)), 2)
    ensures Parse(OrOf(Lit(['a', 'b']), Lit(['a'])), ['a', 'c'], 0) == Outcome(Some(VBranch(1, VUnit)), 1)
  {
    assert ['a', 'b'][0..2] == ['a', 'b'];
    assert ['a', 'c'][0..2][1] == 'c';
    assert ['a', 'c'][0..1] == ['a'];
  }

  /** A letter of either case or an underscore. */
  function Symbol(): (m: Matcher)
    ensures WellFormed(m) && FailClean(m)
    ensures m == Or([Range('a', 'z'), Range('A', 'Z'), Lit(['_'])])
  {
    OrOf(OrOf(MakeRange('a', 'z'), MakeRange('A', 'Z')), Lit(['_']))
  }

  /** `symbol | number`, with `number` the member list of digits. */
  function SymbolOrDigit(): (m: Matcher)
    ensures WellFormed(m) && Consuming(m) && FailClean(m)
    ensures m == Or([Range('a', 'z'), Range('A', 'Z'), Lit(['_']), OneOf(Digits)])
  {
    OrOf(Symbol(), OneOf(Digits))
  }

  const Digits: seq<Elem> := ['1', '2', '3', '4', '5', '6', '7', '8', '9', '0']

  /** `symbol & *(symbol | number)`. */
  function Identifier(): (m: Matcher)
    ensures WellFormed(m)
    ensures m == And([Symbol(), Star(SymbolOrDigit())])
  {
    AndOf(Symbol(), Star(SymbolOrDigit()))
  }

  /** The elements `symbol` accepts. */
  predicate IsSymbol(c: Elem)
  {
    ('a' <= c <= 'z') || ('A' <= c <= 'Z') || c == '_'
  }

  /** The elements `symbol | number` accepts. */
  predicate IsWordElem(c: Elem)
  {
    IsSymbol(c) || c in Digits
  }

  /** One element of the input decides `symbol`: it matches exactly a letter
      or an underscore, and then moves one step. */
  lemma SymbolParse(input: seq<Elem>, pos: nat)
    requires pos <= |input|
    ensures var o := Parse(Symbol(), input, pos);
      && (o.result.Some? <==> pos < |input| && IsSymbol(input[pos]))
      && o.next == (if o.result.Some? then pos + 1 else pos)
  {
    var bs := Symbol().branches;
    SingleStepBranches(bs, input, pos);
    if pos < |input| {
      var c := input[pos];
      if exists k :: 0 <= k < |bs| && Accepts(bs[k], c) {
        var k :| 0 <= k < |bs| && Accepts(bs[k], c);
        assert k == 0 || k == 1 || k == 2;
      }
      if IsSymbol(c) {
        assert Accepts(bs[0], c) || Accepts(bs[1], c) || Accepts(bs[2], c);
      }
    }
  }

  /** One element of the input decides `symbol | number`. */
  lemma SymbolOrDigitParse(input: seq<Elem>, pos: nat)
    requires pos <= |input|
    ensures var o := Parse(SymbolOrDigit(), input, pos);
      && (o.result.Some? <==> pos < |input| && IsWordElem(input[pos]))
      && o.next == (if o.result.Some? then pos + 1 else pos)
  {
    var bs := SymbolOrDigit().branches;
    SingleStepBranches(bs, input, pos);
    if pos < |input| {
      var c := input[pos];
      if exists k :: 0 <= k < |bs| && Accepts(bs[k], c) {
        var k :| 0 <= k < |bs| && Accepts(bs[k], c);
        assert k == 0 || k == 1 || k == 2 || k == 3;
      }
      if IsWordElem(c) {
        assert Accepts(bs[0], c) || Accepts(bs[1], c) || Accepts(bs[2], c) || Accepts(bs[3], c);
      }
    }
  }

  /** The element-wide matchers used as branches here. */
  predicate SingleStep(m: Matcher)
  {
    m.Range? || (m.Lit? && |m.lit| == 1) || m.OneOf?
  }

  /** What a single-step matcher accepts. */
  predicate Accepts(m: Matcher, c: Elem)
    requires SingleStep(m)
  {
    match m
    case Range(lo, hi) => lo <= c <= hi
    case Lit(lit) => c == lit[0]
    case OneOf(members) => c in members
  }

  lemma SingleStepParse(m: Matcher, input: seq<Elem>, pos: nat)
    requires pos <= |input| && SingleStep(m)
    ensures WellFormed(m) && FailClean(m)
    ensures var o := Parse(m, input, pos);
      && (o.result.Some? <==> pos < |input| && Accepts(m, input[pos]))
      && o.next == (if o.result.Some? then pos + 1 else pos)
  {
    match m
    case Range(lo, hi) => RangeParse(lo, hi, input, pos);
    case OneOf(members) => OneOfParse(members, input, pos);
    case Lit(lit) =>
      LitParse(lit, input, pos);
      if pos < |input| {
        assert input[pos..pos + 1] == lit <==> input[pos] == lit[0];
      }
  }

  /** An alternation of single-step matchers matches one element that some
      branch accepts. */
  lemma SingleStepBranches(bs: seq<Matcher>, input: seq<Elem>, pos: nat)
    requires pos <= |input| && forall k :: 0 <= k < |bs| ==> SingleStep(bs[k])
    ensures WellFormed(Or(bs))
    ensures var o := Parse(Or(bs), input, pos);
      && (o.result.Some? <==> pos < |input| && exists k :: 0 <= k < |bs| && Accepts(bs[k], input[pos]))
      && o.next == (if o.result.Some? then pos + 1 else pos)
  {
    forall k | 0 <= k < |bs|
      ensures WellFormed(bs[k]) && FailClean(bs[k])
      ensures var o := Parse(bs[k], input, pos);
        && (o.result.Some? <==> pos < |input| && Accepts(bs[k], input[pos]))
        && o.next == (if o.result.Some? then pos + 1 else pos)
    {
      SingleStepParse(bs[k], input, pos);
    }
    OrFirstMatchWins(bs, input, pos);
  }

  /** Where a repetition stops, one inner attempt at a time. */
  lemma ManyCursorStep(m: Matcher, input: seq<Elem>, pos: nat)
    requires (m.Star? || m.Plus?) && pos <= |input| && WellFormed(m)
    ensures var o := Parse(m.inner, input, pos);
      ParseMany(m, input, pos).1 == if o.result.Some? then ParseMany(m, input, o.next).1 else o.next
  {
  }

  /** The repetition of `symbol | number` runs over the longest stretch of
      word elements from `pos`. */
  lemma {:induction false} WordRun(input: seq<Elem>, pos: nat)
    requires pos <= |input|
    ensures WellFormed(Star(SymbolOrDigit()))
    ensures var n := ParseMany(Star(SymbolOrDigit()), input, pos).1;
      && (forall k :: pos <= k < n ==> IsWordElem(input[k]))
      && (n < |input| ==> !IsWordElem(input[n]))
    decreases |input| - pos
  {
    SymbolOrDigitParse(input, pos);
    ManyCursorStep(Star(SymbolOrDigit()), input, pos);
    if pos < |input| && IsWordElem(input[pos]) {
      WordRun(input, pos + 1);
    }
  }

  /** The identifier grammar accepts exactly the non-empty inputs that start
      with a letter or underscore and continue with letters, underscores and
      digits. */
  lemma IdentifierAcceptsExactly(input: seq<Elem>)
    ensures ParseAll(Identifier(), input).Some? <==>
      |input| > 0 && IsSymbol(input[0]) && forall k :: 1 <= k < |input| ==> IsWordElem(input[k])
  {
    var sym := Symbol();
    var rest := Star(SymbolOrDigit());
    AndRunsBothParts(sym, rest, input, 0);
    SymbolParse(input, 0);
    var o := Parse(sym, input, 0);
    WordRun(input, o.next);
  }

  lemma IdentifierExamplesAccepted()
    ensures ParseAll(Identifier(), "some_value").Some?
  {
    var s := "some_value";
    assert forall k :: 1 <= k < |s| ==> IsSymbol(s[k]);
    IdentifierAcceptsExactly(s);
  }

  lemma IdentifierMixedCaseAccepted()
    ensures ParseAll(Identifier(), "LegalIdentifier").Some?
  {
    var s := "LegalIdentifier";
    assert forall k :: 1 <= k < |s| ==> IsSymbol(s[k]);
    IdentifierAcceptsExactly(s);
  }

  lemma IdentifierUnderscoreAccepted()
    ensures ParseAll(Identifier(), "_").Some?
  {
    IdentifierAcceptsExactly("_");
  }

  lemma IdentifierExamplesRejected()
    ensures ParseAll(Identifier(), "122_bytes").None?
    ensures ParseAll(Identifier(), " value").None?
    ensures ParseAll(Identifier(), "").None?
  {
    IdentifierAcceptsExactly("122_bytes");
    IdentifierAcceptsExactly(" value");
    IdentifierAcceptsExactly("");
  }
}
