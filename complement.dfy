/** The teacher of the complement-learning loop: it answers membership and
    equivalence queries about the complement of a fixed Buchi automaton B.
    The decision procedures it calls (intersection emptiness, the sampler,
    the exact inclusion check, Buchi acceptance of a lasso) are not modelled:
    their outcomes are given to it as values. */
module Complement {
  import opened Words

  /** The query counters of the run-wide statistics object. */
  class Statistics {
    var numOfMembershipQuery: nat
    var numOfEquivalenceQuery: nat

    constructor ()
      ensures numOfMembershipQuery == 0 && numOfEquivalenceQuery == 0
    {
      numOfMembershipQuery := 0;
      numOfEquivalenceQuery := 0;
    }
  }

  /** Outcome of an intersection emptiness check: empty, or nonempty with an
      accepting path whose letters are given as strings. */
  datatype Emptiness = Empty | NonEmpty(prefix: seq<string>, suffix: seq<string>)

  /** Outcome of the exact check L(B(F^c)) <= L(B): included, or a lasso
      accepted by B(F^c) and rejected by B. */
  datatype Inclusion = Included | NotIncluded(word: Lasso)

  /** What the foreign procedures answer about one hypothesis F, with B(F) its
      under-approximating Buchi automaton and B(F^c) the one for its complement. */
  datatype Procedures = Procedures(
    interBandBF: Emptiness,     // L(B(F)) and L(B)
    interBFCandBF: Emptiness,   // L(B(F^c)) and L(B(F))
    sampled: Option<Lasso>,     // the sampler's counterexample to L(B(F^c)) <= L(B)
    inclusion: Inclusion)       // the exact inclusion check

  /** An answered equivalence query: the counterexample word and the answer
      pair (left: the hypothesis is correct, right: the word's membership in
      the learned language, the complement of L(B)). */
  datatype EqQuery = EqQuery(prefix: Word, suffix: Word, left: bool, right: bool)

  /** Every letter string has a first character to look up. */
  predicate LettersNonEmpty(strs: seq<string>)
  {
    forall i :: 0 <= i < |strs| ==> |strs[i]| > 0
  }

  predicate WellFormedPath(e: Emptiness)
  {
    e.NonEmpty? ==> LettersNonEmpty(e.prefix) && LettersNonEmpty(e.suffix)
  }

  predicate WellFormed(p: Procedures)
  {
    WellFormedPath(p.interBandBF) && WellFormedPath(p.interBFCandBF)
  }

  /** The word whose i-th letter is the index of the first character of strs[i]. */
  function ToWord(alphabet: seq<char>, strs: seq<string>): Word
    requires LettersNonEmpty(strs)
  {
    seq(|strs|, i requires 0 <= i < |strs| => IndexOf(alphabet, strs[i][0]))
  }

  function PathLasso(alphabet: seq<char>, e: Emptiness): Lasso
    requires e.NonEmpty? && WellFormedPath(e)
  {
    Lasso(ToWord(alphabet, e.prefix), ToWord(alphabet, e.suffix))
  }

  /** The membership answer for lasso w: a lasso with an empty suffix is never
      in the learned language; otherwise w is in it iff B rejects w. */
  function MembershipAnswer(accepts: (Word, Word) -> bool, w: Lasso): (r: bool)
    ensures r ==> |w.suffix| > 0
    ensures |w.suffix| > 0 ==> (r <==> !accepts(w.prefix, w.suffix))
  {
    if |w.suffix| == 0 then false else !accepts(w.prefix, w.suffix)
  }

  /** The answer to an equivalence query, stage by stage: the first stage that
      produces a word decides, and only an inclusion proved by the exact check
      confirms the hypothesis. */
  function EquivalenceAnswer(alphabet: seq<char>, accepts: (Word, Word) -> bool,
                             sampling: bool, p: Procedures): (q: EqQuery)
    requires WellFormed(p)
    ensures q.left <==> p.interBandBF.Empty? && p.interBFCandBF.Empty?
                        && !(sampling && p.sampled.Some?) && p.inclusion.Included?
    ensures q.left ==> q == EqQuery([], [], true, true)
    ensures !q.left && !p.interBandBF.NonEmpty? && !p.interBFCandBF.NonEmpty? ==> q.right
  {
    if p.interBandBF.NonEmpty? then
      // a word of L(B(F)) that B accepts: it is not in the complement
      var w := PathLasso(alphabet, p.interBandBF);
      EqQuery(w.prefix, w.suffix, false, false)
    else if p.interBFCandBF.NonEmpty? then
      // a word in both B(F) and B(F^c): its membership is asked of B
      var w := PathLasso(alphabet, p.interBFCandBF);
      EqQuery(w.prefix, w.suffix, false, !accepts(w.prefix, w.suffix))
    else if sampling && p.sampled.Some? then
      // a word of L(B(F^c)) that B rejects: it is in the complement
      EqQuery(p.sampled.value.prefix, p.sampled.value.suffix, false, true)
    else
      match p.inclusion
      case Included => EqQuery([], [], true, true)
      case NotIncluded(w) => EqQuery(w.prefix, w.suffix, false, true)
  }

  /** The procedures keep their promises: an intersection witness lies in both
      automata, the sampler's and the exact check's witnesses lie in B(F^c)
      and not in L(B), and every witness is a proper lasso. */
  ghost predicate Sound(alphabet: seq<char>, accepts: (Word, Word) -> bool, p: Procedures)
    requires WellFormed(p)
  {
    && (p.interBandBF.NonEmpty? ==>
          var w := PathLasso(alphabet, p.interBandBF);
          |w.suffix| > 0 && accepts(w.prefix, w.suffix))
    && (p.interBFCandBF.NonEmpty? ==> |p.interBFCandBF.suffix| > 0)
    && (p.sampled.Some? ==>
          |p.sampled.value.suffix| > 0 && !accepts(p.sampled.value.prefix, p.sampled.value.suffix))
    && (p.inclusion.NotIncluded? ==>
          |p.inclusion.word.suffix| > 0
          && !accepts(p.inclusion.word.prefix, p.inclusion.word.suffix))
  }

  /** Every counterexample carries the membership answer that a membership query
      on the same word would give: the polarity is inverted exactly once. */
  lemma CounterexampleAgreesWithMembership(alphabet: seq<char>, accepts: (Word, Word) -> bool,
                                           sampling: bool, p: Procedures)
    requires WellFormed(p) && Sound(alphabet, accepts, p)
    ensures var q := EquivalenceAnswer(alphabet, accepts, sampling, p);
            !q.left ==> q.right == MembershipAnswer(accepts, Lasso(q.prefix, q.suffix))
  {
  }

  /** A nonempty L(B(F)) and L(B) decides the query with the intersection's
      witness, whatever the later procedures would say. */
  lemma FirstStageShortCircuits(alphabet: seq<char>, accepts: (Word, Word) -> bool,
                                sampling: bool, p: Procedures, p': Procedures)
    requires WellFormed(p) && WellFormed(p')
    requires p.interBandBF.NonEmpty? && p'.interBandBF == p.interBandBF
    ensures EquivalenceAnswer(alphabet, accepts, sampling, p)
         == EquivalenceAnswer(alphabet, accepts, sampling, p')
         == EqQuery(PathLasso(alphabet, p.interBandBF).prefix,
                    PathLasso(alphabet, p.interBandBF).suffix, false, false)
  {
  }

  /** With the first intersection empty and the second nonempty, the query is
      decided by the second witness and B's verdict on it. */
  lemma SecondStageShortCircuits(alphabet: seq<char>, accepts: (Word, Word) -> bool,
                                 sampling: bool, p: Procedures, p': Procedures)
    requires WellFormed(p) && WellFormed(p')
    requires p.interBandBF.Empty? && p.interBFCandBF.NonEmpty?
    requires p'.interBandBF.Empty? && p'.interBFCandBF == p.interBFCandBF
    ensures var w := PathLasso(alphabet, p.interBFCandBF);
            && EquivalenceAnswer(alphabet, accepts, sampling, p)
               == EquivalenceAnswer(alphabet, accepts, sampling, p')
            && EquivalenceAnswer(alphabet, accepts, sampling, p)
               == EqQuery(w.prefix, w.suffix, false, !accepts(w.prefix, w.suffix))
  {
  }

  /** The sampler's outcome matters only when sampling is switched on. */
  lemma SamplerIgnoredUnlessSampling(alphabet: seq<char>, accepts: (Word, Word) -> bool,
                                     p: Procedures, s: Option<Lasso>)
    requires WellFormed(p)
    ensures EquivalenceAnswer(alphabet, accepts, false, p)
         == EquivalenceAnswer(alphabet, accepts, false, p.(sampled := s))
  {
  }

  /** A sampler counterexample decides the query as (false, true) and the exact
      inclusion check is not consulted. */
  lemma SamplerCounterexampleSkipsInclusion(alphabet: seq<char>, accepts: (Word, Word) -> bool,
                                            p: Procedures, i: Inclusion)
    requires WellFormed(p)
    requires p.interBandBF.Empty? && p.interBFCandBF.Empty? && p.sampled.Some?
    ensures EquivalenceAnswer(alphabet, accepts, true, p)
         == EquivalenceAnswer(alphabet, accepts, true, p.(inclusion := i))
         == EqQuery(p.sampled.value.prefix, p.sampled.value.suffix, false, true)
  {
  }

  /** When every earlier stage passes, the exact check decides: "included" gives
      the empty word with (true, true), "not included" its witness with (false, true). */
  lemma InclusionDecidesLast(alphabet: seq<char>, accepts: (Word, Word) -> bool,
                             sampling: bool, p: Procedures)
    requires WellFormed(p)
    requires p.interBandBF.Empty? && p.interBFCandBF.Empty? && !(sampling && p.sampled.Some?)
    ensures var q := EquivalenceAnswer(alphabet, accepts, sampling, p);
            match p.inclusion
            case Included => q == EqQuery([], [], true, true)
            case NotIncluded(w) => q == EqQuery(w.prefix, w.suffix, false, true)
  {
  }

  class TeacherNBAComplement {
    const alphabet: seq<char>
    /** Buchi acceptance of a lasso by the target automaton B. */
    const accepts: (Word, Word) -> bool
    const stats: Statistics

    var sampling: bool
    var numInterBandBF: nat
    var numInterBFCandBF: nat
    var numBFCLessB: nat

    constructor (alphabet: seq<char>, accepts: (Word, Word) -> bool, stats: Statistics)
      ensures this.alphabet == alphabet && this.accepts == accepts && this.stats == stats
      ensures !sampling && numInterBandBF == 0 && numInterBFCandBF == 0 && numBFCLessB == 0
    {
      this.alphabet := alphabet;
      this.accepts := accepts;
      this.stats := stats;
      sampling := false;
      numInterBandBF, numInterBFCandBF, numBFCLessB := 0, 0, 0;
    }

    /** Answers whether w is in the complement of L(B); a degenerate lasso is
        answered false before any statistics are touched. */
    method AnswerMembershipQuery(w: Lasso) returns (r: bool)
      modifies stats
      ensures r == MembershipAnswer(accepts, w)
      ensures |w.suffix| == 0 ==> !r && stats.numOfMembershipQuery == old(stats.numOfMembershipQuery)
      ensures |w.suffix| > 0 ==>
                r == !accepts(w.prefix, w.suffix)
                && stats.numOfMembershipQuery == old(stats.numOfMembershipQuery) + 1
      ensures stats.numOfEquivalenceQuery == old(stats.numOfEquivalenceQuery)
    {
      if |w.suffix| == 0 {
        return false;
      }
      var result := accepts(w.prefix, w.suffix);
      stats.numOfMembershipQuery := stats.numOfMembershipQuery + 1;
      r := !result;  // B accepts the complement of the learned language
    }

    /** Turns an accepting path given as letter strings into a lasso, letter by letter. */
    method GetCounterexample(prefix: seq<string>, suffix: seq<string>) returns (w: Lasso)
      requires LettersNonEmpty(prefix) && LettersNonEmpty(suffix)
      ensures |w.prefix| == |prefix| && |w.suffix| == |suffix|
      ensures forall i :: 0 <= i < |prefix| ==> w.prefix[i] == IndexOf(alphabet, prefix[i][0])
      ensures forall i :: 0 <= i < |suffix| ==> w.suffix[i] == IndexOf(alphabet, suffix[i][0])
    {
      var pre := new int[|prefix|];
      for i := 0 to pre.Length
        invariant forall k :: 0 <= k < i ==> pre[k] == IndexOf(alphabet, prefix[k][0])
      {
        pre[i] := IndexOf(alphabet, prefix[i][0]);
      }
      var prefixWord := pre[..];
      var suf := new int[|suffix|];
      for i := 0 to suf.Length
        invariant forall k :: 0 <= k < i ==> suf[k] == IndexOf(alphabet, suffix[k][0])
      {
        suf[i] := IndexOf(alphabet, suffix[i][0]);
      }
      w := Lasso(prefixWord, suf[..]);
    }

    /** Answers an equivalence query for the hypothesis whose procedures'
        outcomes are p, counting the stages it reaches. */
    method AnswerEquivalenceQuery(p: Procedures) returns (q: EqQuery)
      requires WellFormed(p)
      modifies this`numInterBandBF, this`numInterBFCandBF, this`numBFCLessB, stats
      ensures q == EquivalenceAnswer(alphabet, accepts, sampling, p)
      ensures numInterBandBF == old(numInterBandBF) + 1
      ensures numInterBFCandBF == old(numInterBFCandBF) + (if p.interBandBF.Empty? then 1 else 0)
      ensures numBFCLessB == old(numBFCLessB)
                             + (if p.interBandBF.Empty? && p.interBFCandBF.Empty? then 1 else 0)
      ensures stats.numOfEquivalenceQuery == old(stats.numOfEquivalenceQuery) + 1
      ensures stats.numOfMembershipQuery == old(stats.numOfMembershipQuery)
    {
      numInterBandBF := numInterBandBF + 1;
      var prefix: Word, suffix: Word := [], [];
      var isEq, isInTarget := false, false;
      if p.interBandBF.NonEmpty? {
        var w := GetCounterexample(p.interBandBF.prefix, p.interBandBF.suffix);
        assert w == PathLasso(alphabet, p.interBandBF);
        prefix, suffix := w.prefix, w.suffix;
        isEq := false;
        isInTarget := true;
      } else {
        numInterBFCandBF := numInterBFCandBF + 1;
        if p.interBFCandBF.NonEmpty? {
          var w := GetCounterexample(p.interBFCandBF.prefix, p.interBFCandBF.suffix);
          assert w == PathLasso(alphabet, p.interBFCandBF);
          prefix, suffix := w.prefix, w.suffix;
          isEq := false;
          isInTarget := accepts(prefix, suffix);
        } else {
          numBFCLessB := numBFCLessB + 1;
          var hasCE := false;
          if sampling {
            if p.sampled.Some? {
              prefix, suffix := p.sampled.value.prefix, p.sampled.value.suffix;
              isInTarget := false;
              isEq := false;
              hasCE := true;
            }
          }
          if !hasCE {
            if p.inclusion.Included? {
              isEq := true;
            } else {
              isInTarget := false;
              prefix, suffix := p.inclusion.word.prefix, p.inclusion.word.suffix;
              isEq := false;
            }
          }
        }
      }
      isInTarget := !isInTarget;
      if isEq {
        q := EqQuery([], [], true, true);
      } else {
        q := EqQuery(prefix, suffix, false, isInTarget);
      }
      stats.numOfEquivalenceQuery := stats.numOfEquivalenceQuery + 1;
    }
  }
}
