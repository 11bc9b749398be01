/**
 * The grammar model of the SLR table generator: symbols with an optional
 * dotted position, production rules with their precomputed direction
 * symbols, and the classifier helpers the automaton builder relies on.
 */
module Grammar {

  datatype Option<T> = None | Some(value: T)

  /** A dotted position: the rule index and the offset inside its right part. */
  datatype SymbolPosition = SymbolPosition(numOfRule: nat, numOfRightPart: nat)

  /**
   * A grammar symbol occurrence. A symbol without a position is a bare
   * transition label (the accept label "OK", a reduce marker); one with a
   * position is a dotted item. Symbol equality is structural: name and
   * position both take part.
   */
  datatype Symbol = Symbol(name: string, position: Option<SymbolPosition>)

  /** A production `nonTerminal -> rightPart`, with its direction symbols. */
  datatype Rule = Rule(nonTerminal: string, rightPart: seq<string>, directionSymbols: seq<Symbol>)

  /** The end-of-input symbol name; its value is defined outside this model. */
  const EndSymbol: string

  /** The prefix of reduce-marker names; its value is defined outside this model. */
  const EndSymbolInTable: string

  /** The label of the accept transition added to the first state. */
  const AcceptLabel: string := "OK"

  /** A position designates an existing occurrence in the grammar. */
  predicate ValidPosition(grammar: seq<Rule>, p: SymbolPosition)
  {
    p.numOfRule < |grammar| && p.numOfRightPart < |grammar[p.numOfRule].rightPart|
  }

  /** Every positioned symbol of `symbols` has a valid position. */
  predicate PositionsValid(grammar: seq<Rule>, symbols: seq<Symbol>)
  {
    forall s :: s in symbols && s.position.Some? ==> ValidPosition(grammar, s.position.value)
  }

  /** The precomputed direction symbols of every rule carry valid positions. */
  predicate ValidGrammar(grammar: seq<Rule>)
  {
    forall i :: 0 <= i < |grammar| ==> PositionsValid(grammar, grammar[i].directionSymbols)
  }

  /** `name` is the left side of some rule. */
  predicate IsNonTerminal(name: string, grammar: seq<Rule>)
  {
    exists i :: 0 <= i < |grammar| && grammar[i].nonTerminal == name
  }

  /** The rules whose left side is `name`, in grammar order. */
  function GetNonterminalRules(grammar: seq<Rule>, name: string): (rules: seq<Rule>)
    ensures forall r :: r in rules <==> r in grammar && r.nonTerminal == name
    ensures |rules| <= |grammar|
  {
    if grammar == [] then []
    else
      var rest := GetNonterminalRules(grammar[..|grammar| - 1], name);
      var last := grammar[|grammar| - 1];
      assert grammar == grammar[..|grammar| - 1] + [last];
      if last.nonTerminal == name then rest + [last] else rest
  }

  /** The indices of the rules whose left side is `name`: increasing, and exactly the matching ones. */
  function MatchingIndices(grammar: seq<Rule>, name: string): (idx: seq<nat>)
    ensures forall a, b :: 0 <= a < b < |idx| ==> idx[a] < idx[b]
    ensures forall a :: 0 <= a < |idx| ==> idx[a] < |grammar| && grammar[idx[a]].nonTerminal == name
    ensures forall i :: 0 <= i < |grammar| && grammar[i].nonTerminal == name ==> i in idx
  {
    if grammar == [] then []
    else
      var n := |grammar| - 1;
      var rest := MatchingIndices(grammar[..n], name);
      assert forall a :: 0 <= a < |rest| ==> grammar[rest[a]] == grammar[..n][rest[a]];
      if grammar[n].nonTerminal == name then rest + [n] else rest
  }

  /**
   * The rules found for `name` are the grammar's matching rules in grammar
   * order, each once: the a-th found rule is the rule at the a-th matching
   * index.
   */
  lemma {:induction false} GetNonterminalRulesInOrder(grammar: seq<Rule>, name: string)
    ensures var idx := MatchingIndices(grammar, name);
      var rules := GetNonterminalRules(grammar, name);
      |rules| == |idx| && forall a :: 0 <= a < |idx| ==> rules[a] == grammar[idx[a]]
  {
    if grammar != [] {
      var n := |grammar| - 1;
      var init := grammar[..n];
      GetNonterminalRulesInOrder(init, name);
      var idx := MatchingIndices(init, name);
      var rules := GetNonterminalRules(init, name);
      if grammar[n].nonTerminal == name {
        assert MatchingIndices(grammar, name) == idx + [n];
        assert GetNonterminalRules(grammar, name) == rules + [grammar[n]];
      } else {
        assert MatchingIndices(grammar, name) == idx;
        assert GetNonterminalRules(grammar, name) == rules;
      }
      forall a | 0 <= a < |idx| ensures rules[a] == grammar[idx[a]] {
        assert grammar[idx[a]] == init[idx[a]];
      }
    }
  }

  lemma {:induction false} NonTerminalHasRules(grammar: seq<Rule>, name: string)
    ensures IsNonTerminal(name, grammar) <==> GetNonterminalRules(grammar, name) != []
  {
    if IsNonTerminal(name, grammar) {
      var i :| 0 <= i < |grammar| && grammar[i].nonTerminal == name;
      assert grammar[i] in GetNonterminalRules(grammar, name);
    }
    if GetNonterminalRules(grammar, name) != [] {
      var r := GetNonterminalRules(grammar, name)[0];
      assert r in grammar && r.nonTerminal == name;
      var i :| 0 <= i < |grammar| && grammar[i] == r;
    }
  }

  /** The direction symbols of `rules`, concatenated in order. */
  function DirectionSymbolsOf(rules: seq<Rule>): seq<Symbol>
  {
    if rules == [] then []
    else DirectionSymbolsOf(rules[..|rules| - 1]) + rules[|rules| - 1].directionSymbols
  }

  lemma {:induction false} DirectionSymbolsOfContains(rules: seq<Rule>, r: Rule, s: Symbol)
    requires r in rules && s in r.directionSymbols
    ensures s in DirectionSymbolsOf(rules)
  {
    var last := rules[|rules| - 1];
    if r != last {
      assert rules == rules[..|rules| - 1] + [last];
      DirectionSymbolsOfContains(rules[..|rules| - 1], r, s);
    }
  }

  lemma {:induction false} DirectionSymbolsOfFrom(rules: seq<Rule>, s: Symbol)
    requires s in DirectionSymbolsOf(rules)
    ensures exists r :: r in rules && s in r.directionSymbols
  {
    var last := rules[|rules| - 1];
    if s !in last.directionSymbols {
      DirectionSymbolsOfFrom(rules[..|rules| - 1], s);
      var r :| r in rules[..|rules| - 1] && s in r.directionSymbols;
      assert r in rules;
    }
  }

  /** The decimal rendering of a natural number, as `std::to_string` gives it. */
  function NatToString(n: nat): (s: string)
    ensures |s| >= 1
    ensures forall i :: 0 <= i < |s| ==> '0' <= s[i] <= '9'
    ensures n < 10 <==> |s| == 1
  {
    if n < 10 then [Digit(n)] else NatToString(n / 10) + [Digit(n % 10)]
  }

  function Digit(d: nat): (c: char)
    requires d < 10
    ensures '0' <= c <= '9'
  {
    ('0' as int + d) as char
  }

  /** The number a string of decimal digits denotes, most significant digit first. */
  function DecimalValue(s: string): nat
    requires forall i :: 0 <= i < |s| ==> '0' <= s[i] <= '9'
  {
    if s == [] then 0 else DecimalValue(s[..|s| - 1]) * 10 + (s[|s| - 1] as int - '0' as int)
  }

  /** The rendering denotes `n`, and has no leading zero unless it is the single digit of a number below ten. */
  lemma {:induction false} NatToStringValue(n: nat)
    ensures DecimalValue(NatToString(n)) == n
    ensures n >= 10 ==> NatToString(n)[0] != '0'
  {
    var s := NatToString(n);
    if n < 10 {
      assert s[..0] == [];
    } else {
      NatToStringValue(n / 10);
      var p := NatToString(n / 10);
      assert s == p + [Digit(n % 10)];
      assert s[..|s| - 1] == p;
      assert s[0] == p[0];
    }
  }

  /** Distinct numbers have distinct decimal renderings. */
  lemma {:induction false} NatToStringInjective(a: nat, b: nat)
    requires NatToString(a) == NatToString(b)
    ensures a == b
  {
    if a >= 10 && b >= 10 {
      var sa, sb := NatToString(a), NatToString(b);
      assert sa == NatToString(a / 10) + [Digit(a % 10)];
      assert sb == NatToString(b / 10) + [Digit(b % 10)];
      assert sa[..|sa| - 1] == NatToString(a / 10);
      assert sb[..|sb| - 1] == NatToString(b / 10);
      NatToStringInjective(a / 10, b / 10);
      assert Digit(a % 10) == sa[|sa| - 1] == sb[|sb| - 1] == Digit(b % 10);
      assert a % 10 == b % 10;
    }
  }

  /** The reduce marker of the rule with index `numOfRule`: a label, no position. */
  function EndMarker(numOfRule: nat): (s: Symbol)
    ensures s.position.None?
    ensures |s.name| > |EndSymbolInTable| && s.name[..|EndSymbolInTable|] == EndSymbolInTable
  {
    Symbol(EndSymbolInTable + NatToString(numOfRule + 1), None)
  }

  /** Distinct rules get distinct reduce-marker names. */
  lemma EndMarkerInjective(a: nat, b: nat)
    requires a != b
    ensures EndMarker(a).name != EndMarker(b).name
  {
    if EndMarker(a).name == EndMarker(b).name {
      var p := |EndSymbolInTable|;
      assert EndMarker(a).name[p..] == NatToString(a + 1);
      assert EndMarker(b).name[p..] == NatToString(b + 1);
      NatToStringInjective(a + 1, b + 1);
    }
  }

  /** A grammar symbol is a left side or a name in some right part. */
  ghost predicate IsGrammarSymbol(grammar: seq<Rule>, x: string)
  {
    exists i :: 0 <= i < |grammar| && (x == grammar[i].nonTerminal || x in grammar[i].rightPart)
  }
}
