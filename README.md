# SLR table builder: a verified model

This project models the automaton builder of the SLR parser generator
(`do_language/slr/generator/CreateTable.cpp`). Given a grammar, the
generator builds a table:

- `Table.symbols` holds every left side and every right-part name.
- `Table.strings` holds the table strings, or states. Each string keeps
  its dotted items (`symbols`, each a `Symbol`; every string but string 0
  holds items with a rule/offset position, while string 0's single item is
  the position-less start nonterminal) and a transition map (`nextSymbols`). The map goes from a symbol name to
  the list of symbols that follow on that name.
- Position-less entries in the lists are labels: the accept label `OK`, and
  the reduce markers `END_SYMBOL_IN_TABLE` followed by the decimal of the
  rule index plus one.
- String 0 is built from the start rule. Every further string is
  discovered by a worklist. It visits the strings in index order and
  appends a new string for each transition target whose raw list is no
  string's items and which holds at least one positioned symbol. A target
  made only of labels, such as `[OK]` or a reduce marker, adds nothing.

The modules follow the program's structure:

- `Grammar` (grammar.dfy): symbols, positions and rules. It also holds the
  helpers the builder calls: `IsNonTerminal`, `GetNonterminalRules`, the
  decimal rendering of rule numbers, and the reduce marker.
- `NextSymbols` (next_symbols.dfy): the transition map as a value. It is a
  key sequence in iteration order plus a map from key to list. It holds the
  specification functions of the two deduplicating appends and their
  lemmas.
- `TableSpec` (table_spec.dfy): specification functions of one state's
  expansion (`DefineNext`, `AddInfo`) and of the worklist (`NewRows`,
  `Expand`, `Saturate`), with their lemmas.
- `CreateTable` (create_table.dfy): the source's functions as imperative
  methods. `TableStr` and `Table` are classes updated in place. Each method
  is proved against the specification functions above.

The two symbols named in the header are the uninterpreted constants
`EndSymbol` and `EndSymbolInTable`. `DefineDirectionSymbolsAfterNonTerminal`
is the function parameter `after`. Both are defined outside this model.
`Symbol` equality is taken to be structural: names and positions both
compare. The header that defines it is not part of this model, so this is
an assumption.

## Model

| member | source | states |
|---|---|---|
| CreateTable.AddSymbolsFromRightPart | do_language/slr/generator/CreateTable.cpp:3-12 | the result is exactly the old set plus every name of the rule's right part; names already present change nothing |
| CreateTable.GetAllSymbols | do_language/slr/generator/CreateTable.cpp:14-28 | a name is in the result iff it is some rule's left side or occurs in some rule's right part |
| CreateTable.AddDirectionSymbols | do_language/slr/generator/CreateTable.cpp:30-46 | the string's items are unchanged and its map becomes `AddDirection` of the old map and the input; a well-formed map stays well formed |
| NextSymbols.AddDirectionContains | do_language/slr/generator/CreateTable.cpp:30-46 | after the call every input symbol is in the list under its own name |
| NextSymbols.AddDirectionExtends | do_language/slr/generator/CreateTable.cpp:30-46 | each list is only extended at its end; what is appended comes from the input under that name and never repeats an element already in the list; lists under names the input does not mention are unchanged |
| NextSymbols.AddDirectionGet | do_language/slr/generator/CreateTable.cpp:30-46 | per key, the new list is the old one followed by the input symbols of that name not yet present, in input order |
| NextSymbols.AddDirectionKeys | do_language/slr/generator/CreateTable.cpp:30-46 | the map stays well formed; old keys keep their order; the key set grows by exactly the names the input mentions |
| NextSymbols.AddDirectionNoop | do_language/slr/generator/CreateTable.cpp:34-39 | inserting symbols that are all present already leaves the map unchanged |
| NextSymbols.AddDirectionIdempotent | do_language/slr/generator/CreateTable.cpp:30-46 | calling it twice with the same input gives the map of one call |
| NextSymbols.AppendNewExtends | do_language/slr/generator/CreateTable.cpp:36-39 | appending-if-absent keeps the old list as a prefix, contains every input, holds nothing else, and adds no duplicates |
| NextSymbols.AppendNewNoop | do_language/slr/generator/CreateTable.cpp:36-39 | appending elements the list already holds changes nothing |
| NextSymbols.AppendNewIdempotent | do_language/slr/generator/CreateTable.cpp:36-39 | appending the same inputs a second time changes nothing |
| CreateTable.AddEndDirectionSymbols | do_language/slr/generator/CreateTable.cpp:48-66 | the string's items are unchanged and its map becomes `AddEndDirection` of the old map, the input and the rule index; a well-formed map stays well formed |
| NextSymbols.AddEndDirectionGet | do_language/slr/generator/CreateTable.cpp:48-66 | under each name the input mentions, the rule's reduce marker is appended once if absent; other lists are unchanged |
| NextSymbols.AddEndDirectionKeys | do_language/slr/generator/CreateTable.cpp:48-66 | the map stays well formed; old keys keep their order; the key set grows by exactly the names the input mentions |
| NextSymbols.AddEndDirectionOnlyMarker | do_language/slr/generator/CreateTable.cpp:48-66 | each list is only extended, by at most one element, and that element is the rule's reduce marker that was not there before; a mentioned name's list ends up holding the marker |
| Grammar.EndMarker | do_language/slr/generator/CreateTable.cpp:52-53 | the reduce marker has no position, and its name is the reduce-marker prefix followed by at least one more character |
| Grammar.NatToString | do_language/slr/generator/CreateTable.cpp:53 | the decimal rendering is non-empty, all digits, and a single digit exactly for numbers below ten |
| Grammar.NatToStringValue | do_language/slr/generator/CreateTable.cpp:53 | the rendering read back as a decimal is the number, and a number of two or more digits has no leading zero |
| Grammar.NatToStringInjective | do_language/slr/generator/CreateTable.cpp:53 | distinct numbers have distinct decimal renderings |
| Grammar.EndMarkerInjective | do_language/slr/generator/CreateTable.cpp:52-53 | distinct rule indices give reduce markers with distinct names |
| CreateTable.HasStateInTable | do_language/slr/generator/CreateTable.cpp:68-81 | true iff some string's items equal the argument element by element, with the same length and order; nothing is changed |
| Grammar.GetNonterminalRules | do_language/slr/generator/CreateTable.cpp:96 | the result holds exactly the grammar's rules whose left side is the name, and is no longer than the grammar |
| Grammar.MatchingIndices | do_language/slr/generator/CreateTable.cpp:96 | the indices of the rules with that left side, strictly increasing, in bounds, and every matching index is among them |
| Grammar.GetNonterminalRulesInOrder | do_language/slr/generator/CreateTable.cpp:96-100 | the rules found are the matching rules in grammar order, each once: the a-th result is the rule at the a-th matching index, so duplicates in the grammar are kept and the direction symbols are visited rule by rule in grammar order |
| Grammar.NonTerminalHasRules | do_language/slr/generator/CreateTable.cpp:91-96 | a name is a nonterminal iff it has at least one rule |
| Grammar.DirectionSymbolsOfContains | do_language/slr/generator/CreateTable.cpp:97-100 | every direction symbol of every collected rule is in the concatenation |
| Grammar.DirectionSymbolsOfFrom | do_language/slr/generator/CreateTable.cpp:97-100 | every symbol of the concatenation is a direction symbol of one of the rules |
| CreateTable.DefineNextSymbols | do_language/slr/generator/CreateTable.cpp:83-110 | requires a valid position; the string's items are unchanged and its map becomes `DefineNext` of the old map; a well-formed map stays well formed |
| TableSpec.DefineNextFacts | do_language/slr/generator/CreateTable.cpp:83-110 | lists are only extended; unless the symbol under the dot is the end symbol, it is recorded with its position under its name; the end symbol instead records the reduce marker of the rule; for a nonterminal every direction symbol of each of its rules is recorded under its own name |
| TableSpec.DefineNextOnlyAdds | do_language/slr/generator/CreateTable.cpp:83-110 | nothing else is added: every element new under a key is the dotted symbol under its own name, a direction symbol of one of the nonterminal's rules under its own name, or, for the end symbol, the rule's reduce marker under the end symbol |
| TableSpec.DefineNextKeepsOthers | do_language/slr/generator/CreateTable.cpp:83-110 | a key that is neither the dotted symbol's name nor the name of a direction symbol of its rules keeps its list unchanged |
| TableSpec.DefineNextKeys | do_language/slr/generator/CreateTable.cpp:83-110 | expanding a well-formed map keeps it well formed (distinct keys, the key sequence matching the map's domain) and keeps every old key |
| TableSpec.DefineNextKeepsWellFormed | do_language/slr/generator/CreateTable.cpp:83-110 | a well-formed map stays well formed under the expansion of one item (a corollary of `DefineNextKeys`) |
| TableSpec.DefineNextValid | do_language/slr/generator/CreateTable.cpp:83-110 | every position the expansion records designates an existing grammar occurrence |
| CreateTable.AddInfoInString | do_language/slr/generator/CreateTable.cpp:112-130 | requires that every positioned input is in bounds; the string becomes `AddInfo` of the old string and the inputs; a well-formed map stays well formed |
| TableSpec.AddInfoSymbols | do_language/slr/generator/CreateTable.cpp:114-120 | the items become the old items followed by exactly the positioned inputs, in input order |
| TableSpec.AddInfoIgnoresLabels | do_language/slr/generator/CreateTable.cpp:116-119 | position-less inputs change nothing: the result equals the one for the positioned inputs alone |
| TableSpec.PositionedFrom | do_language/slr/generator/CreateTable.cpp:116-120 | the recorded items all come from the inputs and all carry a position |
| TableSpec.ItemAtEndAddsOnlyMarker | do_language/slr/generator/CreateTable.cpp:121-126 | an item at the last offset of its rule records itself and adds only the rule's reduce marker, once, under each name that may follow the rule's nonterminal |
| TableSpec.ItemInsideAdvances | do_language/slr/generator/CreateTable.cpp:121-128 | any other item records itself, the next offset is in bounds, lists only grow, and the symbol at the next offset is recorded unless it is the end symbol |
| TableSpec.ItemInsideFrame | do_language/slr/generator/CreateTable.cpp:121-128 | an item before the end of its rule adds under each key only the next symbol, direction symbols of its rules, or the end symbol's reduce marker, and keys unrelated to the next symbol keep their lists |
| TableSpec.ExpandItemKeys | do_language/slr/generator/CreateTable.cpp:116-128 | expanding one input keeps a well-formed map well formed and keeps its old keys as a prefix |
| TableSpec.AddInfoKeys | do_language/slr/generator/CreateTable.cpp:112-130 | filling a string keeps a well-formed map well formed, with the old keys first in their order |
| TableSpec.AddInfoValid | do_language/slr/generator/CreateTable.cpp:112-130 | the expanded string's map holds only valid positions |
| CreateTable.AddNewStrings | do_language/slr/generator/CreateTable.cpp:132-154 | the symbol set is unchanged; the strings and the completion flag are those of `Saturate` from the given row with the given fuel; if every string's map was well formed, every map of the result is |
| TableSpec.NewRowsAppendOnly | do_language/slr/generator/CreateTable.cpp:136-148 | visiting one more target only appends, and at most one string; a target already present among the table's or the new strings' items adds nothing; an appended string's items are the target's positioned part, which is not empty |
| TableSpec.NewRowsSingle | do_language/slr/generator/CreateTable.cpp:136-148 | a single target absent from the table and holding an item yields exactly one new string, whose items are the target's positioned part |
| TableSpec.RawTargetRepeatsItems | do_language/slr/generator/CreateTable.cpp:112-148 | for a one-rule grammar, a target holding the item of an existing string plus the accept label is not found, and a second string with exactly the same items is appended |
| TableSpec.NewRowsFacts | do_language/slr/generator/CreateTable.cpp:136-148 | every kept string is built from one of the targets, its items are the target's positioned part and non-empty, and no earlier string has the target as its items |
| CreateTable.CollectNewStrings | do_language/slr/generator/CreateTable.cpp:135-148 | the collected strings, appended to the table, give `Expand` of the table at that row |
| TableSpec.ExpandValid | do_language/slr/generator/CreateTable.cpp:134-149 | expanding one row only appends, and all recorded positions stay valid |
| TableSpec.ExpandFacts | do_language/slr/generator/CreateTable.cpp:134-149 | every appended string was discovered from a key of the expanded row |
| TableSpec.ExpandWellFormed | do_language/slr/generator/CreateTable.cpp:134-149 | expanding one row keeps every string's map well formed |
| TableSpec.SaturateWellFormed | do_language/slr/generator/CreateTable.cpp:132-154 | the worklist keeps every string's map well formed |
| TableSpec.SaturateGrows | do_language/slr/generator/CreateTable.cpp:132-154 | the worklist never changes or removes a string already present (a corollary of `SaturateFacts`) |
| TableSpec.SaturateFacts | do_language/slr/generator/CreateTable.cpp:132-154 | the worklist only appends: strings present are never changed or removed; every appended string was discovered from a transition target of an earlier string; a completed run had fuel |
| TableSpec.NewRowsCovers | do_language/slr/generator/CreateTable.cpp:136-148 | after visiting the targets, each one is present as a string's items, or its positioned part is, or it has no positioned symbol |
| TableSpec.ExpandCloses | do_language/slr/generator/CreateTable.cpp:134-149 | once a row is expanded, all its transition targets are accounted for in the table |
| TableSpec.SaturateCloses | do_language/slr/generator/CreateTable.cpp:132-154 | a run that caught up with the table leaves it closed: every transition target of every processed string is accounted for |
| TableSpec.FirstRow | do_language/slr/generator/CreateTable.cpp:161-170 | the first string's map holds only valid positions and is well formed |
| TableSpec.FirstRowFacts | do_language/slr/generator/CreateTable.cpp:161-170 | the first string's only item is the start nonterminal with no position; its list under that nonterminal is the start rule's direction symbols of that name followed by the accept label |
| CreateTable.CreateTable | do_language/slr/generator/CreateTable.cpp:156-174 | requires a non-empty grammar; the symbol set is exactly the grammar's symbols; string 0 is the first string, with one position-less item for the start nonterminal and the accept label last under it; the strings are `Saturate` from string 0; every later string was discovered from an earlier one; a completed run leaves every string closed; every string's recorded positions are valid and every string's map is well formed |

## Left out

- Unseen helpers: `END_SYMBOL` and `END_SYMBOL_IN_TABLE` are constants without a value. `DefineDirectionSymbolsAfterNonTerminal` is the parameter `after`, with no properties. `IsNonTerminal` and `GetNonterminalRules` are given their evident meaning. `Symbol` equality is structural. The header that defines all of these is not part of this model.
- Map iteration order: the C++ map visits keys in its own sorted order. The model visits them in insertion order, kept as the map's key sequence. The worklist results are stated for that order.
- CreateTable.AddNewStrings: the source recurses until the index catches up with the table, and that need not terminate. The model runs at most `fuel` rows and reports with `complete` whether the index caught up. A run that does not terminate is not modelled.
- No-duplicate states: line 138 compares a raw target list, which may hold labels, with strings whose items were filtered at line 116. It also compares sequences by order, not as sets. So the code does not guarantee that two strings never share items, and the model proves no such invariant; `RawTargetRepeatsItems` exhibits a target that produces a second string with the same items. `SaturateCloses` states closure with this in mind: a target counts as present when either it or its positioned part is a string's items.
- Empty right parts: line 121 subtracts one from an unsigned size. A position inside an empty right part is excluded by `ValidPosition`. `AddNewStrings` and `CreateTable` require `ValidGrammar`, meaning the precomputed direction symbols carry in-bounds positions, which the source's indexing assumes.
- Integer width: `size_t` arithmetic (`numOfRule + 1`, `numOfStr + 1`) is unbounded here. Wrap-around would need more than 2^64 rules or strings.
- The stale reference `tableStr` at line 134 is not modelled. The model reads the row before it appends, and the reference is not used after the insert at line 149.
- Grammar loading, the textual table rendering and the LL(1) generator are not part of this model.
