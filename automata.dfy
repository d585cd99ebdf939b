/** The simple automaton container shared by DFAs, NFAs and NBAs: a growing
    list of states numbered from 0, an initial state, a set of final states,
    and its textual renderings (the BA format and Graphviz dot). How a single
    state renders itself is not modelled: it is given as a function. */
module Automata {
  import opened Words

  /** A state of the automaton; only its index is modelled. */
  datatype StateFA = StateFA(id: int)

  /** A mutable set of non-negative integers, iterated in ascending order. */
  class ISet {
    var elems: set<int>

    constructor ()
      ensures elems == {}
    {
      elems := {};
    }

    method Set(i: int)
      requires 0 <= i
      modifies this
      ensures elems == old(elems) + {i}
    {
      elems := elems + {i};
    }

    method Clone() returns (c: ISet)
      ensures fresh(c) && c.elems == elems
    {
      c := new ISet();
      c.elems := elems;
    }
  }

  // ---- decimal rendering of integers ----

  predicate IsDigits(s: string)
  {
    forall i :: 0 <= i < |s| ==> '0' <= s[i] <= '9'
  }

  /** The number a string of decimal digits denotes. */
  function DecimalValue(s: string): int
  {
    if s == [] then 0 else DecimalValue(s[..|s| - 1]) * 10 + (s[|s| - 1] as int - '0' as int)
  }

  /** The number a decimal string with an optional leading minus denotes. */
  function IntValue(s: string): int
  {
    if 0 < |s| && s[0] == '-' then -DecimalValue(s[1..]) else DecimalValue(s)
  }

  function DigitChar(d: int): char
    requires 0 <= d < 10
  {
    ('0' as int + d) as char
  }

  /** Decimal digits of n, without leading zeros. */
  function NatToString(n: nat): (s: string)
    ensures 0 < |s| && IsDigits(s)
    ensures s[0] == '0' ==> s == "0"
    ensures DecimalValue(s) == n
    decreases n
  {
    if n < 10 then [DigitChar(n)]
    else
      var s := NatToString(n / 10) + [DigitChar(n % 10)];
      assert s[..|s| - 1] == NatToString(n / 10);
      s
  }

  /** The decimal rendering of an int, as string concatenation gives it: a
      minus sign exactly for negative numbers, then digits without leading
      zeros. */
  function IntToString(i: int): (s: string)
    ensures 0 < |s|
    ensures i < 0 ==> 2 <= |s| && s[0] == '-' && IsDigits(s[1..]) && s[1] != '0'
    ensures 0 <= i ==> IsDigits(s) && (s[0] == '0' ==> s == "0")
    ensures IntValue(s) == i
  {
    if i < 0 then
      var s := "-" + NatToString(-i);
      assert s[1..] == NatToString(-i);
      s
    else NatToString(i)
  }

  // ---- the pieces of the renderings ----

  /** One line "[i]" of the BA format. */
  function BALine(i: int): string
  {
    "[" + IntToString(i) + "]\n"
  }

  /** The BA lines of the given final states, in order. */
  function FinalLines(fs: seq<int>): string
  {
    if fs == [] then "" else FinalLines(fs[..|fs| - 1]) + BALine(fs[|fs| - 1])
  }

  /** The renderings of the given states, in order. */
  function StateTexts(sts: seq<StateFA>, render: StateFA -> string): string
  {
    if sts == [] then "" else StateTexts(sts[..|sts| - 1], render) + render(sts[|sts| - 1])
  }

  /** The members of fs below n, in ascending order: the order in which the
      final-state set is iterated. */
  function Below(fs: set<int>, n: nat): seq<int>
  {
    if n == 0 then [] else Below(fs, n - 1) + (if n - 1 in fs then [n - 1] else [])
  }

  /** Below lists exactly the members of fs in [0, n), strictly ascending. */
  lemma {:induction false} BelowLists(fs: set<int>, n: nat)
    ensures var r := Below(fs, n);
            && (forall i :: 0 <= i < |r| ==> r[i] in fs && 0 <= r[i] < n)
            && (forall x :: x in fs && 0 <= x < n ==> x in r)
            && (forall i, j :: 0 <= i < j < |r| ==> r[i] < r[j])
  {
    if n > 0 {
      BelowLists(fs, n - 1);
    }
  }

  lemma {:induction false} BelowAgrees(fs: set<int>, gs: set<int>, n: nat)
    requires forall x :: 0 <= x < n ==> (x in fs <==> x in gs)
    ensures Below(fs, n) == Below(gs, n)
  {
    if n > 0 {
      BelowAgrees(fs, gs, n - 1);
    }
  }

  /** Every final state below n is listed exactly once: as many entries as
      states in the set. */
  lemma {:induction false} BelowCount(fs: set<int>, n: nat)
    requires forall x :: x in fs ==> 0 <= x < n
    ensures |Below(fs, n)| == |fs|
  {
    if n > 0 {
      var rest := fs - {n - 1};
      BelowCount(rest, n - 1);
      BelowAgrees(fs, rest, n - 1);
      assert Below(fs, n - 1) == Below(rest, n - 1);
      if n - 1 in fs {
        assert fs == rest + {n - 1} && n - 1 !in rest;
        assert |fs| == |rest| + 1;
        assert Below(fs, n) == Below(fs, n - 1) + [n - 1];
      } else {
        assert fs == rest;
        assert Below(fs, n) == Below(fs, n - 1) + [];
      }
    } else {
      assert forall x :: x !in fs;
      assert fs == {};
    }
  }

  /** The BA lines of the members of fs below n, one per member, ascending. */
  method FinalLinesBelow(fs: set<int>, n: nat) returns (lines: string)
    ensures lines == FinalLines(Below(fs, n))
  {
    lines := "";
    for node := 0 to n
      invariant lines == FinalLines(Below(fs, node))
    {
      if node in fs {
        LastOfBelow(fs, node);
        lines := lines + BALine(node);
      } else {
        assert Below(fs, node + 1) == Below(fs, node) + [];
        assert Below(fs, node) + [] == Below(fs, node);
      }
    }
  }

  lemma LastOfBelow(fs: set<int>, node: nat)
    requires node in fs
    ensures FinalLines(Below(fs, node + 1)) == FinalLines(Below(fs, node)) + BALine(node)
  {
    var r := Below(fs, node + 1);
    assert r == Below(fs, node) + [node];
    assert r[..|r| - 1] == Below(fs, node);
  }

  /** The fill colour of a node in the dot rendering: the state to split is
      orange-red; from a positive stateToAdd on, states are sky-blue; others
      have none. */
  function FillColor(node: int, stateToSplit: int, stateToAdd: int): (c: Option<string>)
    ensures c == Some("orangered") <==> node == stateToSplit
    ensures c == Some("skyblue") <==> node != stateToSplit && node >= stateToAdd && stateToAdd > 0
    ensures c == None <==> node != stateToSplit && !(node >= stateToAdd && stateToAdd > 0)
  {
    if node == stateToSplit then Some("orangered")
    else if node >= stateToAdd && stateToAdd > 0 then Some("skyblue")
    else None
  }

  /** Sky-blue nodes form a suffix of the numbering, interrupted only by the
      state to split. */
  lemma SkyblueIsUpwardClosed(node: int, other: int, stateToSplit: int, stateToAdd: int)
    requires FillColor(node, stateToSplit, stateToAdd) == Some("skyblue")
    requires node <= other && other != stateToSplit
    ensures FillColor(other, stateToSplit, stateToAdd) == Some("skyblue")
  {
  }

  /** The dot renderings of the given states, each with its fill colour. */
  function DotNodes(sts: seq<StateFA>, apList: seq<string>, stateToSplit: int, stateToAdd: int,
                    render: (StateFA, seq<string>, Option<string>) -> string): string
  {
    if sts == [] then ""
    else
      DotNodes(sts[..|sts| - 1], apList, stateToSplit, stateToAdd, render)
      + render(sts[|sts| - 1], apList, FillColor(|sts| - 1, stateToSplit, stateToAdd))
  }

  /** The letters of the alphabet, each as a one-character string. */
  function LetterStrings(alphabet: seq<char>): seq<string>
  {
    seq(|alphabet|, i requires 0 <= i < |alphabet| => [alphabet[i]])
  }

  function TitleLine(title: Option<string>): string
  {
    match title
    case None => ""
    case Some(t) => "  label=\"" + t + "\";\n"
  }

  /** The invisible pseudo start node, numbered `size`, and its edge to the
      initial state. */
  function StartNode(size: int, initial: int): string
  {
    "  " + IntToString(size) + " [label=\"\", shape = plaintext];\n"
    + "  " + IntToString(size) + " -> " + IntToString(initial) + " [label=\"\"];\n"
  }

  /** Two renderings of the start node for the same automaton size are equal
      exactly when they point at the same initial state. */
  lemma {:induction false} StartNodeTarget(size: int, a: int, b: int)
    ensures StartNode(size, a) == StartNode(size, b) <==> a == b
  {
    var p := "  " + IntToString(size) + " [label=\"\", shape = plaintext];\n" + "  " + IntToString(size) + " -> ";
    var tail := " [label=\"\"];\n";
    var x, y := IntToString(a), IntToString(b);
    assert StartNode(size, a) == p + x + tail;
    assert StartNode(size, b) == p + y + tail;
    if StartNode(size, a) == StartNode(size, b) {
      assert |x| == |y|;
      assert x == (p + x + tail)[|p|..|p| + |x|];
      assert y == (p + y + tail)[|p|..|p| + |y|];
      assert IntValue(x) == IntValue(y);
    }
  }

  /** With states numbered by index, the valid numbers are those of the states. */
  lemma NumberedIds(states: seq<StateFA>, state: int)
    ensures (forall i :: 0 <= i < |states| ==> states[i].id == i) ==>
              (0 <= state < |states| <==> exists k :: 0 <= k < |states| && states[k].id == state)
  {
    if (forall i :: 0 <= i < |states| ==> states[i].id == i) && 0 <= state < |states| {
      assert states[state].id == state;
    }
  }

  class FASimple {
    var states: seq<StateFA>
    const alphabet: seq<char>
    var initialState: int
    const finalStates: ISet
    var stateToSplit: int
    var stateToAdd: int
    var title: Option<string>

    /** State i has index i. */
    ghost predicate Numbered()
      reads this
    {
      forall i :: 0 <= i < |states| ==> states[i].id == i
    }

    /** States are numbered by index, and only existing states are final. */
    ghost predicate Valid()
      reads this, finalStates
    {
      && Numbered()
      && (forall s :: s in finalStates.elems ==> 0 <= s < |states|)
    }

    constructor (alphabet: seq<char>)
      ensures Valid() && fresh(finalStates)
      ensures this.alphabet == alphabet && states == [] && finalStates.elems == {}
      ensures initialState == 0 && stateToSplit == -1 && stateToAdd == -1 && title == None
    {
      this.alphabet := alphabet;
      states := [];
      finalStates := new ISet();
      initialState := 0;
      stateToSplit, stateToAdd := -1, -1;
      title := None;
    }

    /** The number of states: exactly the numbers below it are valid. */
    function StateSize(): (n: nat)
      reads this
      ensures forall i :: CheckValidState(i) <==> 0 <= i < n
    {
      |states|
    }

    /** The number of letters: one per entry of the dot letter list. */
    function AlphabetSize(): (n: nat)
      ensures n == |LetterStrings(alphabet)|
    {
      |alphabet|
    }

    /** A valid state number is the number of one of the states. */
    function CheckValidState(state: int): (b: bool)
      reads this
      ensures Numbered() ==> (b <==> exists k :: 0 <= k < |states| && states[k].id == state)
    {
      NumberedIds(states, state);
      0 <= state < |states|
    }

    /** A valid letter indexes the alphabet. */
    function CheckValidLetter(letter: int): (b: bool)
      ensures b <==> 0 <= letter < AlphabetSize()
      ensures b ==> IndexOf(alphabet, alphabet[letter]) <= letter
    {
      0 <= letter < |alphabet|
    }

    /** Appends a state whose index is the previous number of states. */
    method CreateState() returns (s: StateFA)
      requires Valid()
      modifies this`states
      ensures Valid()
      ensures s.id == old(StateSize()) && StateSize() == old(StateSize()) + 1
      ensures states == old(states) + [s]
      ensures forall x :: CheckValidState(x) <==> old(CheckValidState(x)) || x == s.id
    {
      s := StateFA(|states|);
      states := states + [s];
    }

    function GetState(state: int): (s: StateFA)
      reads this, finalStates
      requires Valid() && CheckValidState(state)
      ensures s.id == state
    {
      states[state]
    }

    /** The initial state: the one state IsInitial accepts. */
    function GetInitialState(): (i: int)
      reads this
      ensures IsInitial(i) && forall s :: IsInitial(s) ==> s == i
    {
      initialState
    }

    /** Whether a number is the initial state; it names the start node's edge
        target in the renderings. */
    function IsInitial(state: int): (b: bool)
      reads this
      ensures b <==> StartNode(|states|, state) == StartNode(|states|, initialState)
    {
      StartNodeTarget(|states|, state, initialState);
      state == initialState
    }

    method SetInitial(state: int)
      modifies this`initialState
      ensures forall s :: IsInitial(s) <==> s == state
    {
      initialState := state;
    }

    method SetInitialOf(state: StateFA)
      modifies this`initialState
      ensures forall s :: IsInitial(s) <==> s == state.id
    {
      SetInitial(state.id);
    }

    /** Whether a valid state is final: exactly the states the BA rendering
        lists as final. */
    function IsFinal(state: int): (b: bool)
      reads this, finalStates
      requires CheckValidState(state)
      ensures Valid() ==> (b <==> state in Below(finalStates.elems, |states|))
    {
      BelowLists(finalStates.elems, |states|);
      state in finalStates.elems
    }

    /** Makes a valid state final and leaves every other state as it was. */
    method SetFinal(state: int)
      requires Valid() && CheckValidState(state)
      modifies finalStates
      ensures Valid()
      ensures finalStates.elems == old(finalStates.elems) + {state}
      ensures IsFinal(state)
      ensures forall s :: CheckValidState(s) && s != state ==> (IsFinal(s) <==> old(IsFinal(s)))
    {
      finalStates.Set(state);
    }

    method SetFinalOf(state: StateFA)
      requires Valid() && CheckValidState(state.id)
      modifies finalStates
      ensures Valid()
      ensures finalStates.elems == old(finalStates.elems) + {state.id}
    {
      SetFinal(state.id);
    }

    /** A copy of the final states: a new set, so changing it cannot change
        this automaton. */
    method GetFinalStates() returns (fs: ISet)
      ensures fresh(fs) && fs.elems == finalStates.elems
    {
      fs := finalStates.Clone();
    }

    /** The BA format: the initial state, each state's transitions, then one
        line per final state in ascending order. */
    method ToBA(render: StateFA -> string) returns (s: string)
      requires Valid()
      ensures s == BALine(initialState) + StateTexts(states, render)
                   + FinalLines(Below(finalStates.elems, |states|))
    {
      var body := "";
      for node := 0 to |states|
        invariant body == StateTexts(states[..node], render)
      {
        assert states[..node + 1][..node] == states[..node];
        body := body + render(states[node]);
      }
      assert states[..|states|] == states;
      var finals := FinalLinesBelow(finalStates.elems, |states|);
      s := BALine(initialState) + body + finals;
    }

    /** The dot rendering without fill colours. */
    method ToString(render: StateFA -> string) returns (s: string)
      requires Valid()
      ensures s == "digraph {\n" + StateTexts(states, render) + StartNode(|states|, initialState) + "}\n"
    {
      var startNode := |states|;
      var body := "";
      for node := 0 to |states|
        invariant body == StateTexts(states[..node], render)
      {
        assert states[..node + 1][..node] == states[..node];
        body := body + render(states[node]);
      }
      assert states[..|states|] == states;
      s := "digraph {\n" + body + StartNode(startNode, initialState) + "}\n";
    }

    /** The dot rendering: the title, each state with its fill colour, and the
        pseudo start node. */
    method ToDot(render: (StateFA, seq<string>, Option<string>) -> string) returns (s: string)
      requires Valid()
      ensures s == "digraph {\n" + TitleLine(title)
                   + DotNodes(states, LetterStrings(alphabet), stateToSplit, stateToAdd, render)
                   + StartNode(|states|, initialState) + "}\n"
    {
      var header := "";
      if title.Some? {
        header := "  label=\"" + title.value + "\";\n";
      }
      var startNode := |states|;
      var apList: seq<string> := [];
      for i := 0 to |alphabet|
        invariant |apList| == i
        invariant forall k :: 0 <= k < i ==> apList[k] == [alphabet[k]]
      {
        apList := apList + [[alphabet[i]]];
      }
      assert apList == LetterStrings(alphabet);
      var body := "";
      for node := 0 to |states|
        invariant body == DotNodes(states[..node], apList, stateToSplit, stateToAdd, render)
      {
        assert states[..node + 1][..node] == states[..node];
        body := body + render(states[node], apList, FillColor(node, stateToSplit, stateToAdd));
      }
      assert states[..|states|] == states;
      s := "digraph {\n" + header + body + StartNode(startNode, initialState) + "}\n";
    }
  }

  /** Changing the copy that GetFinalStates returns leaves the automaton's
      final states as they were. */
  method ChangeFinalStatesCopy(fa: FASimple, s: int) returns (copy: ISet)
    requires fa.Valid() && 0 <= s
    ensures copy.elems == old(fa.finalStates.elems) + {s}
    ensures fa.finalStates.elems == old(fa.finalStates.elems)
  {
    copy := fa.GetFinalStates();
    copy.Set(s);
  }

  /** The BA output lists each final state exactly once. */
  lemma ToBAListsEachFinalOnce(fa: FASimple)
    requires fa.Valid()
    ensures var fs := Below(fa.finalStates.elems, |fa.states|);
            && |fs| == |fa.finalStates.elems|
            && (forall i :: 0 <= i < |fs| ==> fs[i] in fa.finalStates.elems)
            && (forall s :: s in fa.finalStates.elems ==> s in fs)
  {
    BelowCount(fa.finalStates.elems, |fa.states|);
    BelowLists(fa.finalStates.elems, |fa.states|);
  }

  /** The pseudo start node's number is not the number of any state. */
  lemma StartNodeIsNotAState(fa: FASimple, i: int)
    requires fa.Valid() && 0 <= i < |fa.states|
    ensures IntToString(fa.states[i].id) != IntToString(fa.StateSize())
    ensures !fa.CheckValidState(fa.StateSize())
  {
  }

  /** A letter decoded from a character is valid exactly when the character
      is in the automaton's alphabet. */
  lemma DecodedLetterValid(fa: FASimple, c: char)
    ensures fa.CheckValidLetter(IndexOf(fa.alphabet, c)) <==> c in fa.alphabet
  {
  }
}
