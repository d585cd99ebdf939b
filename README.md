# ROLL learning core, modelled in Dafny

This project models three parts of ROLL, a library that learns ω-regular languages. They are:

- **The complement teacher** (`TeacherNBAComplement`). It answers the learner's queries about the complement of a fixed Büchi automaton B.
  - A membership query asks whether B rejects a lasso `prefix·suffix^ω`. A lasso with an empty suffix is always answered `false`.
  - An equivalence query runs up to four stages on the hypothesis's under-approximation B(F) and its complement automaton B(F^c):
    1. emptiness of L(B(F)) ∩ L(B);
    2. emptiness of L(B(F^c)) ∩ L(B(F));
    3. the sampler, only when `sampling` is on;
    4. the exact inclusion check L(B(F^c)) ⊆ L(B).

    The first stage that yields a word decides the answer, and the per-stage counters are updated in place.
  - The answer pair is (isEq, ¬isInTarget): `isInTarget` is set by the deciding stage and inverted once at the end. A witness of L(B(F)) ∩ L(B) is therefore answered (false, false).
  - The sampler stage runs only when the `sampling` field is set, and that field is false on a new teacher.
- **The inclusion checker's decision logic** (`NBAInclusionCheck.main`). This covers:
  - the early exits when A or B is empty after dead-state removal;
  - the bounded search for a sampled lasso that A accepts (or the sampler flags) and B rejects;
  - the learning loop. Its inner loop refines once per counterexample, or as long as the translator can refine when lazy equivalence is on.
- **The automaton container** (`FASimple`). It holds a growing list of states, an initial state, and a final-state set that is updated in place. It also has validity checks and its BA and dot renderings.

The external decision procedures enter the model as values:
- intersection emptiness;
- Büchi acceptance of a lasso;
- the sampler and RABIT's exact inclusion;
- the FDFA-to-NBA constructions;
- the learner and the translator.

`Complement.Procedures` holds the outcomes of the procedures for one hypothesis; there the sampler is its outcome `sampled: Option<Lasso>`. Acceptance is a function `(Word, Word) -> bool`. In `InclusionCheck` the sampler is a function `nat -> Sample` (the i-th draw). The learner and the translator are functions on abstract hypothesis and translator states.

Files:
- `words.dfy`: words, lassos, alphabet index lookup.
- `complement.dfy`: the teacher.
- `inclusion.dfy`: the inclusion checker.
- `automata.dfy`: FASimple.

## Model

| member | source | states |
|---|---|---|
| `Words.IndexOf` | src/main/java/roll/main/complement/TeacherNBAComplement.java:102 | the letter index of a character is its first position in the alphabet, or -1 exactly when the alphabet lacks it |
| `Complement.MembershipAnswer` | src/main/java/roll/main/complement/TeacherNBAComplement.java:76-85 | a lasso with an empty suffix is never a member; otherwise it is a member iff B does not accept it |
| `Complement.TeacherNBAComplement.AnswerMembershipQuery` | src/main/java/roll/main/complement/TeacherNBAComplement.java:68-86 | empty suffix: answers false and leaves the membership counter unchanged; otherwise answers the negation of B's acceptance and increments the counter by exactly one |
| `Complement.TeacherNBAComplement.GetCounterexample` | src/main/java/roll/main/complement/TeacherNBAComplement.java:99-109 | the two words have the lengths of the two string lists, and letter i is the alphabet index of the first character of string i |
| `Complement.EquivalenceAnswer` | src/main/java/roll/main/complement/TeacherNBAComplement.java:134-223 | the hypothesis is confirmed iff both intersections are empty, no sampler counterexample is used and the exact check reports inclusion; a confirmation carries empty words and (true, true); past stage two a counterexample is always answered "in the complement" |
| `Complement.TeacherNBAComplement.AnswerEquivalenceQuery` | src/main/java/roll/main/complement/TeacherNBAComplement.java:112-232 | the imperative stage logic with its single final inversion returns exactly the stage-table answer; numInterBandBF always grows by one, numInterBFCandBF only when the first intersection is empty, numBFCLessB only when both are empty; the equivalence counter grows by one |
| `Complement.CounterexampleAgreesWithMembership` | src/main/java/roll/main/complement/TeacherNBAComplement.java:137-222 | when the procedures keep their promises, every counterexample's right component equals the membership answer for the same lasso: the polarity is inverted exactly once |
| `Complement.FirstStageShortCircuits` | src/main/java/roll/main/complement/TeacherNBAComplement.java:137-145 | a nonempty L(B(F)) ∩ L(B) decides the answer as the decoded witness with (false, false), whatever later stages would say |
| `Complement.SecondStageShortCircuits` | src/main/java/roll/main/complement/TeacherNBAComplement.java:158-165 | with the first intersection empty and the second nonempty, the answer is the decoded witness with (false, not accepted by B), independent of the sampler and the exact check |
| `Complement.SamplerIgnoredUnlessSampling` | src/main/java/roll/main/complement/TeacherNBAComplement.java:177-189 | with sampling off, the sampler's outcome never changes the answer |
| `Complement.SamplerCounterexampleSkipsInclusion` | src/main/java/roll/main/complement/TeacherNBAComplement.java:177-197 | a sampler counterexample yields (false, true) with its word, and the exact inclusion outcome does not matter |
| `Complement.InclusionDecidesLast` | src/main/java/roll/main/complement/TeacherNBAComplement.java:191-223 | when earlier stages pass, "included" yields empty words with (true, true) and "not included" yields its witness with (false, true) |
| `Complement.Statistics.constructor` | src/main/java/roll/main/complement/TeacherNBAComplement.java:84 | the run-wide membership and equivalence counters start at zero; the two query methods each raise one of them (lines 84 and 227) |
| `Complement.TeacherNBAComplement.constructor` | src/main/java/roll/main/complement/TeacherNBAComplement.java:59-97 | a new teacher keeps the target's alphabet and acceptance and the statistics object, and has all three stage counters at zero and sampling off (field initialisers at 88-97) |
| `InclusionCheck.SampleSearch` | src/main/java/roll/main/inclusion/NBAInclusionCheck.java:154-181 | draws at most num samples; B is consulted exactly at the drawn samples the sampler flagged or A accepts; "not included" carries the last drawn sample, which passed the A-side check, is rejected by B, and is the first such; "possibly included" means all num samples were drawn and none refutes |
| `InclusionCheck.DecideBeforeLearning` | src/main/java/roll/main/inclusion/NBAInclusionCheck.java:113-186 | "included" iff A is empty after dead-state removal (B unexamined); B empty with a witness of A gives "not included" with that witness; otherwise the verdict is "not included" with a refuting sample, or "possibly included" exactly when no sample among the first num refutes |
| `InclusionCheck.IntCounterNeverReachesLongBound` | src/main/java/roll/main/inclusion/NBAInclusionCheck.java:154 | as written, with a sample size above the largest int, the wrapping int counter stays below the bound after any number of iterations |
| `InclusionCheck.RefineCounterexample` | src/main/java/roll/main/inclusion/NBAInclusionCheck.java:206-218 | each refinement was preceded by canRefine; exactly one refinement without lazy equivalence when the translator can refine, none when it cannot; under lazy equivalence the loop stops before the bound only because the translator cannot refine; the result is the hypothesis after that many translate-and-refine steps |
| `InclusionCheck.NonLazyRefinesOnce` | src/main/java/roll/main/inclusion/NBAInclusionCheck.java:209-217 | without lazy equivalence a refinable counterexample is refined exactly once, independent of the lazy-mode bound |
| `InclusionCheck.Learn` | src/main/java/roll/main/inclusion/NBAInclusionCheck.java:196-219 | the loop ends exactly at the first hypothesis whose equivalence answer has left component true; every earlier answer was false, and each next hypothesis is the previous one refined by its counterexample round |
| `Automata.FASimple.constructor` | src/main/java/roll/automata/FASimple.java:52-56 | a new automaton has no states, no final states and a fresh final-state set |
| `Automata.FASimple.StateSize` | src/main/java/roll/automata/FASimple.java:62-64 | the valid state numbers are exactly those below the state count |
| `Automata.FASimple.AlphabetSize` | src/main/java/roll/automata/FASimple.java:66-68 | the letter count equals the length of the dot rendering's letter list |
| `Automata.FASimple.CheckValidState` | src/main/java/roll/automata/FASimple.java:117-119 | with states numbered by index, a number is valid iff some state has it as its number |
| `Automata.FASimple.CheckValidLetter` | src/main/java/roll/automata/FASimple.java:121-123 | a letter is valid iff it is below the alphabet size, and then its character's first index is at most the letter |
| `Automata.FASimple.GetInitialState` | src/main/java/roll/automata/FASimple.java:93-95 | the returned number is initial, and it is the only initial number |
| `Automata.FASimple.IsInitial` | src/main/java/roll/automata/FASimple.java:80-82 | a number is initial iff the start node's rendering with that number as edge target equals the automaton's own start node rendering |
| `Automata.StartNodeTarget` | src/main/java/roll/automata/FASimple.java:138-139 | two start-node renderings for the same state count are equal iff their edge targets are equal: the rendering names the initial state unambiguously |
| `Automata.FASimple.IsFinal` | src/main/java/roll/automata/FASimple.java:110-113 | for a valid automaton, a valid state is final iff the BA rendering's final-state listing contains it |
| `Automata.FASimple.CreateState` | src/main/java/roll/automata/FASimple.java:70-74 | the new state's index is the previous state count, the count grows by one, and the valid states are the old ones plus the new index |
| `Automata.FASimple.GetState` | src/main/java/roll/automata/FASimple.java:88-91 | a valid index yields the state with that index |
| `Automata.FASimple.SetInitial` | src/main/java/roll/automata/FASimple.java:76-82 | afterwards a state is initial iff it equals the value given |
| `Automata.FASimple.SetInitialOf` | src/main/java/roll/automata/FASimple.java:84-86 | setting the initial state by state behaves as setting it by the state's index |
| `Automata.FASimple.SetFinal` | src/main/java/roll/automata/FASimple.java:97-100 | a valid state becomes final and every other state's finality is unchanged |
| `Automata.FASimple.SetFinalOf` | src/main/java/roll/automata/FASimple.java:102-104 | setting a final state by state adds its index to the final states |
| `Automata.FASimple.GetFinalStates` | src/main/java/roll/automata/FASimple.java:106-108 | returns a freshly allocated set with the same members |
| `Automata.ChangeFinalStatesCopy` | src/main/java/roll/automata/FASimple.java:106-108 | changing the copy returned by GetFinalStates leaves the automaton's final states unchanged |
| `Automata.ISet.Set` | src/main/java/roll/automata/FASimple.java:99 | adds exactly the given non-negative number to the set |
| `Automata.ISet.Clone` | src/main/java/roll/automata/FASimple.java:107 | the clone is a new object with the same members |
| `Automata.NatToString` | src/main/java/roll/automata/FASimple.java:188 | the decimal rendering is a nonempty digit string without leading zeros that denotes the number |
| `Automata.IntToString` | src/main/java/roll/automata/FASimple.java:188 | the rendering of an int is a minus sign exactly when it is negative, followed by digits without leading zeros, and reads back as that int |
| `Automata.BelowLists` | src/main/java/roll/automata/FASimple.java:192-194 | the iteration order of the final states lists exactly the final states, strictly ascending |
| `Automata.BelowCount` | src/main/java/roll/automata/FASimple.java:192-194 | that listing has exactly as many entries as there are final states |
| `Automata.FinalLinesBelow` | src/main/java/roll/automata/FASimple.java:192-194 | the loop produces one "[f]" line per final state, in iteration order |
| `Automata.FASimple.ToBA` | src/main/java/roll/automata/FASimple.java:186-196 | the output is the "[initial]" line, then each state's text in index order, then one "[f]" line per final state in ascending order |
| `Automata.ToBAListsEachFinalOnce` | src/main/java/roll/automata/FASimple.java:192-194 | the final lines of the BA output name each final state exactly once and nothing else |
| `Automata.FASimple.ToString` | src/main/java/roll/automata/FASimple.java:131-142 | "digraph {", each state's text in order, the pseudo start node numbered with the state count with its edge to the initial state, and "}" |
| `Automata.FASimple.ToDot` | src/main/java/roll/automata/FASimple.java:157-184 | as ToString, plus the title line when there is a title, with each state rendered with the alphabet's letters and its fill colour |
| `Automata.FillColor` | src/main/java/roll/automata/FASimple.java:172-177 | orangered iff the node is stateToSplit; skyblue iff otherwise node ≥ stateToAdd > 0; no colour in every other case |
| `Automata.SkyblueIsUpwardClosed` | src/main/java/roll/automata/FASimple.java:172-177 | sky-blue nodes form an upward-closed range, broken only by the state to split |
| `Automata.StartNodeIsNotAState` | src/main/java/roll/automata/FASimple.java:134-139 | the pseudo start node's number is not a valid state, and the rendering of its number differs from the rendering of every state's number |
| `Automata.DecodedLetterValid` | src/main/java/roll/automata/FASimple.java:121-123 | a letter decoded from a character passes checkValidLetter iff the character is in the alphabet |

## Left out

- Timers and the `time*` fields are left out. They hold wall-clock durations. The same goes for `options.stats.timeOfMembershipQuery`, `timeOfEquivalenceQuery`, `timeOfLastEquivalenceQuery` and `timeOfLearner`.
- Logging and verbose printing are left out. This covers the printed counterexample symbols (`symbol.getSymbol`), `System.exit`, `print()` and the record of the last hypothesis automaton in `options.stats.hypothesis`.
- The foreign procedures are not modelled; only their outcomes are:
  - `IntersectionCheck`, `EmptinessChecker`, `RABIT.isIncludedPar`;
  - `FDFAOperations.buildUnderNBA`/`buildNegNBA`, `NBAOperations.accepts`/`fromDkNBA`;
  - `UtilInclusion.removeDeadStates`/`toRABITNBA`;
  - the sampler (`SamplerIndexedMonteCarlo`, `NBAInclusionSampler`), its random walk and its sample-size formula over the doubles epsilon and delta;
  - the learner, the translator, and the `Symbol` alphabet merging and relabelling.

  They are external, randomised or floating-point code. The model states what the protocol does with their answers.
- `Alphabet` is not part of this model.
  - `indexOf` is taken to be `List.indexOf`: the first position, or -1.
  - Turning RABIT's prefix and suffix strings into words (`getWordFromString`) is counted as part of the exact check's outcome, which therefore carries words.
- Argument parsing, `helper`, `ROLL.java` and `NBAUnivTest.java` are left out. They are command-line dispatch, file I/O, or comparisons of external checkers.
- `Complement.TeacherNBAComplement.AnswerEquivalenceQuery`: the counters are unbounded `nat`s and do not model Java's 32-bit `int` wrap-around. The counts would first have to pass 2^31.
- `Complement.TeacherNBAComplement.AnswerMembershipQuery`: the membership counter is unbounded, for the same reason.
- `InclusionCheck.Learn`: the outer loop has no bound in the source and may not terminate. The model asks at most `rounds` equivalence queries, and `learned` is false when that bound is reached.
- `InclusionCheck.RefineCounterexample`: under lazy equivalence the inner loop has no bound in the source. The model refines at most `fuel` times in that case. Without lazy equivalence the bound plays no part.
- `InclusionCheck.Learn` and `InclusionCheck.RefineCounterexample`: the learner object and the translator are modelled as values passed from step to step. Aliasing between the translator and the learner it holds is not modelled.
- `Automata.FASimple.SetFinal`, `Automata.FASimple.GetState` and `Automata.FASimple.IsFinal`: they require a valid state, following the `assert` in the source (lines 89, 98 and 111). Their behaviour with assertions disabled and an invalid state is not modelled. That behaviour is an out-of-range exception from the state list, or a set or read of a bit outside the states.
- `Complement.TeacherNBAComplement.GetCounterexample`, `Complement.EquivalenceAnswer` and `Complement.TeacherNBAComplement.AnswerEquivalenceQuery`: they require every letter string of an intersection path to be nonempty (`LettersNonEmpty`, through `WellFormed`). On an empty letter string the source's `charAt(0)` (TeacherNBAComplement.java lines 102 and 106) throws `StringIndexOutOfBoundsException`, and that exception path is not modelled.
- `Automata.FinalLinesBelow`: the source iterates the final-state set. The model walks the state indices in ascending order and emits those that are final. That is the iteration order of a bit set or a sorted set of ints.
- Some parts of FASimple are left out:
  - `makeState` is abstract, so a state is modelled only by its index;
  - each state's own rendering (`StateFA.toString`/`toBA`/`toDot`) is given as a function parameter;
  - `toString(List<String>)` is `ToString` with a renderer that closes over the list;
  - `toSVG` and `register` are native-tool calls and notebook display plumbing;
  - `getAcc` and the `acceptance` field are not used by the modelled operations.

## Findings

| source | as written | input that shows it | evidently intended | confidence | as-written member | corrected member |
|---|---|---|---|---|---|---|
| src/main/java/roll/main/inclusion/NBAInclusionCheck.java:154 | the sampling loop counts with an `int` `i` against the `long` sample size `num`, and `i++` wraps from 2^31-1 to -2^31 | a sample size num = 2^31 (reached with small enough epsilon and delta) and no refuting sample: the guard `i < num` holds after any number of iterations, so the loop never ends | draw exactly num samples and then go on to learning ("Possibly Included") | high that the guard never fails for such num; not executed | `InclusionCheck.IntCounterNeverReachesLongBound` | `InclusionCheck.SampleSearch` |
