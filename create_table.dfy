/**
 * The automaton builder as the generator runs it: table strings filled in
 * place, the table grown by a worklist over its own rows. Each method is
 * proved against the specification functions of TableSpec and NextSymbols.
 */
module CreateTable {
  import opened Grammar
  import opened NextSymbols
  import opened TableSpec

  /** A table string under construction; its value is a `Row`. */
  class TableStr {
    var symbols: seq<Symbol>
    var nextSymbols: NextMap

    constructor ()
      ensures symbols == [] && nextSymbols == EmptyMap
    {
      symbols := [];
      nextSymbols := EmptyMap;
    }

    function Value(): Row
      reads this
    {
      Row(symbols, nextSymbols)
    }
  }

  /** The table: every grammar symbol and the rows, in discovery order. */
  class Table {
    var symbols: set<string>
    var strings: seq<Row>

    constructor ()
      ensures symbols == {} && strings == []
    {
      symbols := {};
      strings := [];
    }
  }

  /** Adds the names of the rule's right part to `symbols`. */
  method AddSymbolsFromRightPart(rule: Rule, symbols: set<string>) returns (result: set<string>)
    ensures forall x :: x in result <==> x in symbols || x in rule.rightPart
  {
    result := symbols;
    for i := 0 to |rule.rightPart|
      invariant forall x :: x in result <==> x in symbols || x in rule.rightPart[..i]
    {
      var str := rule.rightPart[i];
      if str !in result {
        result := result + {str};
      }
    }
    assert rule.rightPart[..|rule.rightPart|] == rule.rightPart;
  }

  /** The set of every left side and every right-part name of the grammar. */
  method GetAllSymbols(grammar: seq<Rule>) returns (symbols: set<string>)
    ensures forall x :: x in symbols <==> IsGrammarSymbol(grammar, x)
  {
    symbols := {};
    for i := 0 to |grammar|
      invariant forall x :: x in symbols <==> IsGrammarSymbol(grammar[..i], x)
    {
      var rule := grammar[i];
      if rule.nonTerminal !in symbols {
        symbols := symbols + {rule.nonTerminal};
      }
      symbols := AddSymbolsFromRightPart(rule, symbols);
      forall x ensures IsGrammarSymbol(grammar[..i + 1], x) <==> IsGrammarSymbol(grammar[..i], x) || x == rule.nonTerminal || x in rule.rightPart {
        if IsGrammarSymbol(grammar[..i + 1], x) {
          var k :| 0 <= k < i + 1 && (x == grammar[..i + 1][k].nonTerminal || x in grammar[..i + 1][k].rightPart);
          if k < i {
            assert grammar[..i][k] == grammar[..i + 1][k];
          }
        }
        if IsGrammarSymbol(grammar[..i], x) {
          var k :| 0 <= k < i && (x == grammar[..i][k].nonTerminal || x in grammar[..i][k].rightPart);
          assert grammar[..i + 1][k] == grammar[..i][k];
        }
        if x == rule.nonTerminal || x in rule.rightPart {
          assert grammar[..i + 1][i] == rule;
        }
      }
    }
    assert grammar[..|grammar|] == grammar;
  }

  /** Records each symbol under its own name, unless that list holds it already. */
  method AddDirectionSymbols(str: TableStr, directionSymbols: seq<Symbol>)
    modifies str
    ensures str.symbols == old(str.symbols)
    ensures str.nextSymbols == AddDirection(old(str.nextSymbols), directionSymbols)
    ensures WellFormed(old(str.nextSymbols)) ==> WellFormed(str.nextSymbols)
  {
    for i := 0 to |directionSymbols|
      invariant str.symbols == old(str.symbols)
      invariant str.nextSymbols == AddDirection(old(str.nextSymbols), directionSymbols[..i])
    {
      var symbol := directionSymbols[i];
      assert directionSymbols[..i + 1][..i] == directionSymbols[..i];
      var m := str.nextSymbols;
      assert AddDirection(old(str.nextSymbols), directionSymbols[..i + 1]) == Insert(m, symbol.name, symbol);
      if symbol.name in m.lists {
        if symbol !in m.lists[symbol.name] {
          str.nextSymbols := NextMap(m.keys, m.lists[symbol.name := m.lists[symbol.name] + [symbol]]);
        } else {
          assert m.lists[symbol.name := m.lists[symbol.name]] == m.lists;
        }
      } else {
        assert AppendOnce(Get(m, symbol.name), symbol) == [symbol];
        str.nextSymbols := NextMap(m.keys + [symbol.name], m.lists[symbol.name := [symbol]]);
      }
    }
    assert directionSymbols[..|directionSymbols|] == directionSymbols;
    if WellFormed(old(str.nextSymbols)) {
      AddDirectionKeys(old(str.nextSymbols), directionSymbols);
    }
  }

  /** Records the reduce marker of rule `numOfRule` under each symbol's name, at most once per list. */
  method AddEndDirectionSymbols(str: TableStr, directionSymbols: seq<Symbol>, numOfRule: nat)
    modifies str
    ensures str.symbols == old(str.symbols)
    ensures str.nextSymbols == AddEndDirection(old(str.nextSymbols), directionSymbols, numOfRule)
    ensures WellFormed(old(str.nextSymbols)) ==> WellFormed(str.nextSymbols)
  {
    for i := 0 to |directionSymbols|
      invariant str.symbols == old(str.symbols)
      invariant str.nextSymbols == AddEndDirection(old(str.nextSymbols), directionSymbols[..i], numOfRule)
    {
      var symbol := directionSymbols[i];
      var endSymbol := Symbol(EndSymbolInTable + NatToString(numOfRule + 1), None);
      assert directionSymbols[..i + 1][..i] == directionSymbols[..i];
      var m := str.nextSymbols;
      assert AddEndDirection(old(str.nextSymbols), directionSymbols[..i + 1], numOfRule) == Insert(m, symbol.name, endSymbol);
      if symbol.name in m.lists {
        if endSymbol !in m.lists[symbol.name] {
          str.nextSymbols := NextMap(m.keys, m.lists[symbol.name := m.lists[symbol.name] + [endSymbol]]);
        } else {
          assert m.lists[symbol.name := m.lists[symbol.name]] == m.lists;
        }
      } else {
        assert AppendOnce(Get(m, symbol.name), endSymbol) == [endSymbol];
        str.nextSymbols := NextMap(m.keys + [symbol.name], m.lists[symbol.name := [endSymbol]]);
      }
    }
    assert directionSymbols[..|directionSymbols|] == directionSymbols;
    if WellFormed(old(str.nextSymbols)) {
      AddEndDirectionKeys(old(str.nextSymbols), directionSymbols, numOfRule);
    }
  }

  /** Whether some row's items equal `symbolsOfState`, element by element. */
  method HasStateInTable(tableStrs: seq<Row>, symbolsOfState: seq<Symbol>) returns (found: bool)
    ensures found <==> InTable(tableStrs, symbolsOfState)
  {
    for i := 0 to |tableStrs|
      invariant forall k :: 0 <= k < i ==> tableStrs[k].symbols != symbolsOfState
    {
      if tableStrs[i].symbols == symbolsOfState {
        return true;
      }
    }
    return false;
  }

  /** Records what may come after the dot at `position`. */
  method DefineNextSymbols(grammar: seq<Rule>, position: SymbolPosition, str: TableStr)
    requires ValidPosition(grammar, position)
    modifies str
    ensures str.symbols == old(str.symbols)
    ensures str.nextSymbols == DefineNext(grammar, position, old(str.nextSymbols))
    ensures WellFormed(old(str.nextSymbols)) ==> WellFormed(str.nextSymbols)
  {
    var numOfRule := position.numOfRule;
    var numOfRightPart := position.numOfRightPart;
    var symbolName := grammar[numOfRule].rightPart[numOfRightPart];
    var symbol := Symbol(symbolName, Some(SymbolPosition(numOfRule, numOfRightPart)));
    var isNonTerminal := IsNonTerminal(symbol.name, grammar);
    if isNonTerminal {
      var directionSymbols := [symbol];
      var rules := GetNonterminalRules(grammar, symbolName);
      for k := 0 to |rules|
        invariant directionSymbols == [symbol] + DirectionSymbolsOf(rules[..k])
      {
        assert rules[..k + 1][..k] == rules[..k];
        directionSymbols := directionSymbols + rules[k].directionSymbols;
      }
      assert rules[..|rules|] == rules;
      AddDirectionSymbols(str, directionSymbols);
    }
    if symbol.name == EndSymbol {
      AddEndDirectionSymbols(str, [symbol], symbol.position.value.numOfRule);
      DefineNextKeepsWellFormed(grammar, position, old(str.nextSymbols));
      return;
    }
    AddDirectionSymbols(str, [symbol]);
    DefineNextKeepsWellFormed(grammar, position, old(str.nextSymbols));
  }

  /** Adds the positioned symbols to the string's items and expands each of them. */
  method AddInfoInString(str: TableStr, symbols: seq<Symbol>, grammar: seq<Rule>, after: string -> seq<Symbol>)
    requires PositionsValid(grammar, symbols)
    modifies str
    ensures str.Value() == AddInfo(grammar, after, old(str.Value()), symbols)
    ensures WellFormed(old(str.nextSymbols)) ==> WellFormed(str.nextSymbols)
  {
    for i := 0 to |symbols|
      invariant str.Value() == AddInfo(grammar, after, old(str.Value()), symbols[..i])
    {
      var s := symbols[i];
      assert symbols[..i + 1][..i] == symbols[..i];
      if s.position.None? {
        continue;
      }
      var p := s.position.value;
      str.symbols := str.symbols + [s];
      var isTheEndOfRule := |grammar[p.numOfRule].rightPart| - 1 == p.numOfRightPart;
      if isTheEndOfRule {
        var directionSymbols := after(grammar[p.numOfRule].nonTerminal);
        AddEndDirectionSymbols(str, directionSymbols, p.numOfRule);
        continue;
      }
      DefineNextSymbols(grammar, SymbolPosition(p.numOfRule, p.numOfRightPart + 1), str);
    }
    assert symbols[..|symbols|] == symbols;
    if WellFormed(old(str.nextSymbols)) {
      AddInfoKeys(grammar, after, old(str.Value()), symbols);
    }
  }

  /**
   * The loop of `AddNewStrings` over the transition targets of row `i`:
   * the strings to append, built from targets found neither among the
   * table's strings nor among the strings collected so far.
   */
  method CollectNewStrings(rows: seq<Row>, i: nat, grammar: seq<Rule>, after: string -> seq<Symbol>)
    returns (newStrs: seq<Row>)
    requires i < |rows| && NextValid(grammar, rows[i].nextSymbols)
    ensures rows + newStrs == Expand(grammar, after, rows, i)
  {
    var tableStr := rows[i];
    var targets := Targets(tableStr.nextSymbols);
    newStrs := [];
    for k := 0 to |tableStr.nextSymbols.keys|
      invariant newStrs == NewRows(grammar, after, rows, targets[..k])
    {
      var target := Get(tableStr.nextSymbols, tableStr.nextSymbols.keys[k]);
      assert target == targets[k] && PositionsValid(grammar, target);
      NewRowsStep(grammar, after, rows, targets, k);
      var present := HasStateInTable(rows, target);
      if !present {
        present := HasStateInTable(newStrs, target);
      }
      if present {
        continue;
      }
      var newStr := new TableStr();
      AddInfoInString(newStr, target, grammar, after);
      assert newStr.Value() == BuildRow(grammar, after, target);
      if |newStr.symbols| != 0 {
        newStrs := newStrs + [newStr.Value()];
      }
    }
    assert targets[..|targets|] == targets;
  }

  /**
   * The worklist from row `numOfStr` on, processing at most `fuel` rows:
   * each row's transition targets that are not yet rows become new rows,
   * appended at the end; `complete` tells whether every row was processed.
   */
  method AddNewStrings(table: Table, numOfStr: nat, grammar: seq<Rule>, after: string -> seq<Symbol>, fuel: nat)
    returns (complete: bool)
    requires ValidGrammar(grammar) && numOfStr < |table.strings| && RowsValid(grammar, table.strings)
    modifies table
    ensures table.symbols == old(table.symbols)
    ensures (table.strings, complete) == Saturate(grammar, after, old(table.strings), numOfStr, fuel)
    ensures RowsWellFormed(old(table.strings)) ==> RowsWellFormed(table.strings)
  {
    var i: nat := numOfStr;
    var f: nat := fuel;
    complete := false;
    while f > 0
      invariant i < |table.strings| && RowsValid(grammar, table.strings)
      invariant table.symbols == old(table.symbols)
      invariant Saturate(grammar, after, table.strings, i, f) == Saturate(grammar, after, old(table.strings), numOfStr, fuel)
      decreases f
    {
      var rows := table.strings;
      var newStrs := CollectNewStrings(rows, i, grammar, after);
      ExpandValid(grammar, after, table.strings, i);
      table.strings := table.strings + newStrs;
      if i + 1 < |table.strings| {
        i, f := i + 1, f - 1;
      } else {
        complete := true;
        break;
      }
    }
    if RowsWellFormed(old(table.strings)) {
      SaturateWellFormed(grammar, after, old(table.strings), numOfStr, fuel);
    }
  }

  /**
   * Builds the table: every grammar symbol, the first string for the start
   * rule, then the worklist from row 0 with at most `fuel` rows processed.
   */
  method CreateTable(grammar: seq<Rule>, after: string -> seq<Symbol>, fuel: nat) returns (table: Table, complete: bool)
    requires |grammar| > 0 && ValidGrammar(grammar)
    ensures fresh(table)
    ensures forall x :: x in table.symbols <==> IsGrammarSymbol(grammar, x)
    ensures (table.strings, complete) == Saturate(grammar, after, [FirstRow(grammar)], 0, fuel)
    ensures |table.strings| > 0 && table.strings[0] == FirstRow(grammar)
    ensures table.strings[0].symbols == [Symbol(grammar[0].nonTerminal, None)]
    ensures var list := Get(table.strings[0].nextSymbols, grammar[0].nonTerminal);
      |list| > 0 && list[|list| - 1] == Symbol(AcceptLabel, None)
    ensures forall j :: 1 <= j < |table.strings| ==> Discovered(grammar, after, table.strings, j)
    ensures complete ==> forall r :: 0 <= r < |table.strings| ==> RowClosed(table.strings, r)
    ensures RowsValid(grammar, table.strings) && RowsWellFormed(table.strings)
  {
    table := new Table();
    table.symbols := GetAllSymbols(grammar);

    var firstStr := new TableStr();
    var symbolOfFirstStr := Symbol(grammar[0].nonTerminal, None);
    firstStr.symbols := firstStr.symbols + [symbolOfFirstStr];
    AddDirectionSymbols(firstStr, grammar[0].directionSymbols);

    var s := Symbol(AcceptLabel, None);
    firstStr.nextSymbols := PushBack(firstStr.nextSymbols, grammar[0].nonTerminal, s);
    assert firstStr.Value()
      == Row([symbolOfFirstStr], PushBack(AddDirection(EmptyMap, grammar[0].directionSymbols), grammar[0].nonTerminal, s))
      == FirstRow(grammar);
    table.strings := table.strings + [firstStr.Value()];
    assert table.strings == [FirstRow(grammar)];
    FirstRowFacts(grammar);
    SaturateFacts(grammar, after, table.strings, 0, fuel);
    SaturateCloses(grammar, after, table.strings, 0, fuel);
    SaturateWellFormed(grammar, after, table.strings, 0, fuel);
    complete := AddNewStrings(table, 0, grammar, after, fuel);
  }
}
