/** The decision logic of the Buchi inclusion checker L(A) <= L(B): the early
    exits on empty automata, the search for a counterexample among random
    lassos drawn from A, and the learning loop that follows when sampling
    finds none. Dead-state removal, emptiness checking, the sampler, Buchi
    acceptance, the teacher, the learner and the translator are not modelled:
    they enter as values and functions. */
module InclusionCheck {
  import opened Words

  /** One draw of the sampler: a lasso, and whether the sampler already knows
      that A accepts it. */
  datatype Sample = Sample(word: Lasso, flagged: bool)

  /** What the checker concludes before learning starts. */
  datatype Verdict = Included | NotIncluded(word: Lasso) | PossiblyIncluded

  /** A sample is checked against B when the sampler flagged it or A accepts it. */
  predicate NeedsCheck(s: Sample, acceptsA: (Word, Word) -> bool)
  {
    s.flagged || acceptsA(s.word.prefix, s.word.suffix)
  }

  /** A sample proves non-inclusion: it is checked and B rejects it. */
  predicate Refutes(s: Sample, acceptsA: (Word, Word) -> bool, acceptsB: (Word, Word) -> bool)
  {
    NeedsCheck(s, acceptsA) && !acceptsB(s.word.prefix, s.word.suffix)
  }

  /** Draws up to num samples (draw(i) is the i-th one) and stops at the first
      that refutes inclusion. Reports how many samples were drawn and at which
      of them B was consulted. */
  method SampleSearch(num: int, draw: nat -> Sample,
                      acceptsA: (Word, Word) -> bool, acceptsB: (Word, Word) -> bool)
    returns (v: Verdict, drawn: nat, checkedB: seq<nat>)
    ensures v.NotIncluded? || v.PossiblyIncluded?
    ensures drawn <= (if num < 0 then 0 else num)
    ensures forall k :: 0 <= k < |checkedB| ==> checkedB[k] < drawn && NeedsCheck(draw(checkedB[k]), acceptsA)
    ensures forall i: nat :: i < drawn && NeedsCheck(draw(i), acceptsA) ==> i in checkedB
    ensures v.NotIncluded? ==>
              && 0 < drawn
              && v.word == draw(drawn - 1).word
              && Refutes(draw(drawn - 1), acceptsA, acceptsB)
              && forall i: nat :: i < drawn - 1 ==> !Refutes(draw(i), acceptsA, acceptsB)
    ensures v.PossiblyIncluded? ==>
              && drawn == (if num < 0 then 0 else num)
              && forall i: nat :: i < drawn ==> !Refutes(draw(i), acceptsA, acceptsB)
  {
    v, drawn, checkedB := PossiblyIncluded, 0, [];
    var i: nat := 0;
    while i < num
      invariant i <= (if num < 0 then 0 else num)
      invariant drawn == i
      invariant forall k :: 0 <= k < |checkedB| ==> checkedB[k] < i && NeedsCheck(draw(checkedB[k]), acceptsA)
      invariant forall j: nat :: j < i && NeedsCheck(draw(j), acceptsA) ==> j in checkedB
      invariant forall j: nat :: j < i ==> !Refutes(draw(j), acceptsA, acceptsB)
    {
      var sample := draw(i);
      drawn := drawn + 1;
      var needCheck := false;
      if sample.flagged {
        needCheck := true;
      } else {
        needCheck := acceptsA(sample.word.prefix, sample.word.suffix);
      }
      if needCheck {
        checkedB := checkedB + [i];
        var acc := acceptsB(sample.word.prefix, sample.word.suffix);
        if !acc {
          v := NotIncluded(sample.word);
          return;
        }
      }
      i := i + 1;
    }
  }

  /** Everything the checker decides before learning. emptyA and emptyB say
      whether dead-state removal left A or B empty; witnessA is what the
      emptiness check of A finds (consulted only when B is empty). */
  method DecideBeforeLearning(emptyA: bool, emptyB: bool, witnessA: Option<Lasso>,
                              num: int, draw: nat -> Sample,
                              acceptsA: (Word, Word) -> bool, acceptsB: (Word, Word) -> bool)
    returns (v: Verdict)
    ensures emptyA <==> v.Included?
    ensures !emptyA && emptyB && witnessA.Some? ==> v == NotIncluded(witnessA.value)
    ensures v.NotIncluded? && !(emptyB && witnessA.Some?) ==>
              exists i: nat :: i < num && draw(i).word == v.word && Refutes(draw(i), acceptsA, acceptsB)
    ensures v.PossiblyIncluded? <==>
              && !emptyA && !(emptyB && witnessA.Some?)
              && forall i: nat :: i < num ==> !Refutes(draw(i), acceptsA, acceptsB)
  {
    if emptyA {
      return Included;
    }
    if emptyB && !emptyA {
      if witnessA.Some? {
        return NotIncluded(witnessA.value);
      }
    }
    var drawn, checkedB;
    v, drawn, checkedB := SampleSearch(num, draw, acceptsA, acceptsB);
    if v.NotIncluded? {
      assert drawn - 1 < num && draw(drawn - 1).word == v.word;
    }
  }

  /** The counter of the sampling loop as written: an int, incremented with
      wrap-around, compared with a long bound. */
  const INT_MIN: int := -0x8000_0000
  const INT_MAX: int := 0x7fff_ffff

  predicate IsInt(i: int)
  {
    INT_MIN <= i <= INT_MAX
  }

  /** Java's ++ on an int. */
  function IntIncrement(i: int): (r: int)
    requires IsInt(i)
    ensures IsInt(r)
    ensures i < INT_MAX ==> r == i + 1
  {
    if i == INT_MAX then INT_MIN else i + 1
  }

  /** The value of the int counter after n passes through the loop body. */
  function CounterAfter(n: nat): (i: int)
    ensures IsInt(i)
  {
    if n == 0 then 0 else IntIncrement(CounterAfter(n - 1))
  }

  /** With a bound above the largest int, the guard `i < num` holds after any
      number of passes: without a refuting sample, the loop never ends. */
  lemma {:induction false} IntCounterNeverReachesLongBound(num: int, n: nat)
    requires num > INT_MAX
    ensures CounterAfter(n) < num
  {
    if n > 0 {
      IntCounterNeverReachesLongBound(num, n - 1);
    }
  }

  /** An answer to an equivalence query: left says the hypothesis is correct;
      otherwise the counterexample and its membership right go to the translator. */
  datatype Answer<C> = Answer(left: bool, right: bool, counterexample: C)

  /** The collaborators of the learning loop, over hypotheses H, translator
      states T, refinement queries Q and counterexamples C. */
  datatype Collaborators<!H, !T, !Q, !C> = Collaborators(
    equivalence: H -> Answer<C>,      // the teacher's equivalence query
    translator: (H, C, bool) -> T,    // a fresh translator given the answered counterexample
    canRefine: (T, H) -> bool,
    translate: (T, H) -> (T, Q),      // the next refinement query, and the translator's new state
    refine: (H, Q) -> H)              // the learner's refinement of its hypothesis

  /** The hypothesis and translator state after n translate-and-refine steps. */
  function Refined<H, T, Q, C>(c: Collaborators<H, T, Q, C>, h: H, t: T, n: nat): (H, T)
  {
    if n == 0 then (h, t)
    else
      var (h1, t1) := Refined(c, h, t, n - 1);
      var (t2, q) := c.translate(t1, h1);
      (c.refine(h1, q), t2)
  }

  /** The translator could refine before each of the first n steps. */
  ghost predicate RefinableFor<H, T, Q, C>(c: Collaborators<H, T, Q, C>, h: H, t: T, n: nat)
  {
    forall k: nat :: k < n ==> c.canRefine(Refined(c, h, t, k).1, Refined(c, h, t, k).0)
  }

  /** The inner loop's promise for one counterexample with translator t, when
      it refined n times: each refinement was allowed, at most one unless the
      equivalence check is lazy, and it stopped early only because the
      translator could not refine any more. */
  ghost predicate RefinementRound<H, T, Q, C>(c: Collaborators<H, T, Q, C>, h: H, t: T, n: nat,
                                             lazyEq: bool, fuel: nat)
  {
    && RefinableFor(c, h, t, n)
    && (lazyEq ==> n <= fuel)
    && (!lazyEq ==> n <= 1)
    && ((lazyEq ==> n < fuel) && (lazyEq || n == 0) ==> !c.canRefine(Refined(c, h, t, n).1, Refined(c, h, t, n).0))
  }

  /** Refines the hypothesis with one counterexample: once, or, when the
      equivalence check is lazy, for as long as the translator can refine
      (then at most fuel times). */
  method RefineCounterexample<H, T, Q, C>(c: Collaborators<H, T, Q, C>, h: H, t: T,
                                          lazyEq: bool, fuel: nat)
    returns (h': H, t': T, count: nat)
    ensures (h', t') == Refined(c, h, t, count)
    ensures RefinementRound(c, h, t, count, lazyEq, fuel)
  {
    h', t', count := h, t, 0;
    while (!lazyEq || count < fuel) && c.canRefine(t', h')
      invariant lazyEq ==> count <= fuel
      invariant (h', t') == Refined(c, h, t, count)
      invariant RefinableFor(c, h, t, count)
      invariant !lazyEq ==> count == 0
      decreases if lazyEq then fuel - count else 0
    {
      var (t1, q) := c.translate(t', h');
      h' := c.refine(h', q);
      t' := t1;
      count := count + 1;
      if !lazyEq {
        break;
      }
    }
  }

  /** The hypothesis that a round starting from h produces with n refinements. */
  /** Without lazy equivalence, a counterexample the translator can refine is
      refined exactly once, whatever the fuel. */
  lemma NonLazyRefinesOnce<H, T, Q, C>(c: Collaborators<H, T, Q, C>, h: H, t: T, n: nat, fuel: nat)
    requires RefinementRound(c, h, t, n, false, fuel) && c.canRefine(t, h)
    ensures n == 1
  {
  }

  function NextHypothesis<H, T, Q, C>(c: Collaborators<H, T, Q, C>, h: H, n: nat): H
  {
    var a := c.equivalence(h);
    Refined(c, h, c.translator(h, a.counterexample, a.right), n).0
  }

  ghost predicate RoundOf<H, T, Q, C>(c: Collaborators<H, T, Q, C>, h: H, n: nat, lazyEq: bool, fuel: nat)
  {
    var a := c.equivalence(h);
    RefinementRound(c, h, c.translator(h, a.counterexample, a.right), n, lazyEq, fuel)
  }

  /** The learning loop: asks equivalence queries until one is answered
      positively, refining after each counterexample; at most `rounds` queries
      are asked. `asked` lists the hypotheses queried, `refinements` how often
      each counterexample refined the hypothesis. */
  method Learn<H, T, Q, C>(c: Collaborators<H, T, Q, C>, h0: H, lazyEq: bool, rounds: nat, fuel: nat)
    returns (h: H, learned: bool, asked: seq<H>, refinements: seq<nat>)
    ensures |asked| <= rounds && (!learned ==> |asked| == rounds)
    ensures 0 < |asked| ==> asked[0] == h0
    ensures learned ==> 0 < |asked| && asked[|asked| - 1] == h && c.equivalence(h).left
    ensures forall i :: 0 <= i < |asked| && (i < |asked| - 1 || !learned) ==> !c.equivalence(asked[i]).left
    ensures |refinements| == |asked| - (if learned then 1 else 0)
    ensures forall i :: 0 <= i < |refinements| ==> RoundOf(c, asked[i], refinements[i], lazyEq, fuel)
    ensures forall i :: 0 <= i < |asked| - 1 ==> asked[i + 1] == NextHypothesis(c, asked[i], refinements[i])
    ensures !learned && 0 < |asked| ==>
              h == NextHypothesis(c, asked[|asked| - 1], refinements[|asked| - 1])
    ensures !learned && |asked| == 0 ==> h == h0
  {
    h, learned, asked, refinements := h0, false, [], [];
    while |asked| < rounds
      invariant |refinements| == |asked| <= rounds
      invariant 0 < |asked| ==> asked[0] == h0
      invariant forall i :: 0 <= i < |asked| ==> !c.equivalence(asked[i]).left
      invariant forall i :: 0 <= i < |refinements| ==> RoundOf(c, asked[i], refinements[i], lazyEq, fuel)
      invariant forall i :: 0 <= i < |asked| - 1 ==> asked[i + 1] == NextHypothesis(c, asked[i], refinements[i])
      invariant 0 < |asked| ==> h == NextHypothesis(c, asked[|asked| - 1], refinements[|asked| - 1])
      invariant |asked| == 0 ==> h == h0
    {
      asked := asked + [h];
      var answer := c.equivalence(h);
      if answer.left {
        learned := true;
        break;
      }
      var translator := c.translator(h, answer.counterexample, answer.right);
      var h', t', count := RefineCounterexample(c, h, translator, lazyEq, fuel);
      refinements := refinements + [count];
      h := h';
    }
  }
}
