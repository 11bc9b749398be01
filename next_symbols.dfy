/**
 * The transition map of one table string (`nextSymbols`): symbol name to a
 * list of symbols. The map is kept together with the order in which its
 * keys were first created, which fixes the order in which the builder
 * visits the transitions. The functions here specify the two deduplicating
 * "append under a name" loops of the builder.
 */
module NextSymbols {
  import opened Grammar

  datatype NextMap = NextMap(keys: seq<string>, lists: map<string, seq<Symbol>>)

  /** Keys are listed once each, and exactly the keys of the map are listed. */
  predicate WellFormed(m: NextMap)
  {
    && (forall i, j :: 0 <= i < j < |m.keys| ==> m.keys[i] != m.keys[j])
    && (forall k :: k in m.lists ==> k in m.keys)
    && (forall k :: k in m.keys ==> k in m.lists)
  }

  const EmptyMap: NextMap := NextMap([], map[])

  /** The list under `key`; a missing key reads as the empty list. */
  function Get(m: NextMap, key: string): seq<Symbol>
  {
    if key in m.lists then m.lists[key] else []
  }

  /** Appends `s` unless the list already holds it (the `std::find` guard). */
  function AppendOnce(list: seq<Symbol>, s: Symbol): seq<Symbol>
  {
    if s in list then list else list + [s]
  }

  /** `AppendOnce` of each element of `xs` in turn. */
  function AppendNew(list: seq<Symbol>, xs: seq<Symbol>): seq<Symbol>
  {
    if xs == [] then list else AppendOnce(AppendNew(list, xs[..|xs| - 1]), xs[|xs| - 1])
  }

  /** One iteration of the deduplicating loops: create `key` if missing, then append `s` once. */
  function Insert(m: NextMap, key: string, s: Symbol): NextMap
  {
    NextMap(if key in m.lists then m.keys else m.keys + [key], m.lists[key := AppendOnce(Get(m, key), s)])
  }

  /** The effect of `AddDirectionSymbols`: each symbol is inserted under its own name. */
  function AddDirection(m: NextMap, symbols: seq<Symbol>): NextMap
  {
    if symbols == [] then m
    else
      var s := symbols[|symbols| - 1];
      Insert(AddDirection(m, symbols[..|symbols| - 1]), s.name, s)
  }

  /**
   * The effect of `AddEndDirectionSymbols`: under the name of each symbol,
   * the reduce marker of rule `numOfRule` is inserted.
   */
  function AddEndDirection(m: NextMap, symbols: seq<Symbol>, numOfRule: nat): NextMap
  {
    if symbols == [] then m
    else
      var s := symbols[|symbols| - 1];
      Insert(AddEndDirection(m, symbols[..|symbols| - 1], numOfRule), s.name, EndMarker(numOfRule))
  }

  /** `m[key].push_back(s)` through `operator[]`: no deduplication. */
  function PushBack(m: NextMap, key: string, s: Symbol): NextMap
  {
    NextMap(if key in m.lists then m.keys else m.keys + [key], m.lists[key := Get(m, key) + [s]])
  }

  /** The symbols of `symbols` named `key`, in order. */
  function Named(symbols: seq<Symbol>, key: string): seq<Symbol>
  {
    if symbols == [] then []
    else
      var s := symbols[|symbols| - 1];
      Named(symbols[..|symbols| - 1], key) + if s.name == key then [s] else []
  }

  /** Some symbol of `symbols` is named `key`. */
  predicate Mentions(symbols: seq<Symbol>, key: string)
  {
    exists i :: 0 <= i < |symbols| && symbols[i].name == key
  }

  // ---------------------------------------------------------------------
  // Lists extended by AppendNew

  /**
   * AppendNew only extends the list at its end, appends each element at
   * most once and never one the list already holds, appends only elements
   * of `xs`, and afterwards holds every element of `xs`.
   */
  lemma {:induction false} AppendNewExtends(list: seq<Symbol>, xs: seq<Symbol>)
    ensures list <= AppendNew(list, xs)
    ensures forall x :: x in xs ==> x in AppendNew(list, xs)
    ensures forall x :: x in AppendNew(list, xs) ==> x in list || x in xs
    ensures var r := AppendNew(list, xs);
      forall i, j :: 0 <= i < j < |r| && |list| <= j ==> r[i] != r[j]
  {
    if xs != [] {
      var init, x := xs[..|xs| - 1], xs[|xs| - 1];
      assert xs == init + [x];
      AppendNewExtends(list, init);
    }
  }

  /** Appending elements the list already holds changes nothing. */
  lemma {:induction false} AppendNewNoop(list: seq<Symbol>, xs: seq<Symbol>)
    requires forall x :: x in xs ==> x in list
    ensures AppendNew(list, xs) == list
  {
    if xs != [] {
      AppendNewNoop(list, xs[..|xs| - 1]);
    }
  }

  lemma AppendNewIdempotent(list: seq<Symbol>, xs: seq<Symbol>)
    ensures AppendNew(AppendNew(list, xs), xs) == AppendNew(list, xs)
  {
    AppendNewExtends(list, xs);
    AppendNewNoop(AppendNew(list, xs), xs);
  }

  // ---------------------------------------------------------------------
  // AddDirection

  lemma InsertWellFormed(m: NextMap, key: string, s: Symbol)
    requires WellFormed(m)
    ensures WellFormed(Insert(m, key, s))
    ensures m.keys <= Insert(m, key, s).keys
  {
  }

  /**
   * Per key, AddDirection is AppendNew of the input symbols bearing that
   * name: the list is extended at its end only, by the symbols named `key`
   * it did not hold yet, each once.
   */
  lemma {:induction false} AddDirectionGet(m: NextMap, symbols: seq<Symbol>, key: string)
    ensures Get(AddDirection(m, symbols), key) == AppendNew(Get(m, key), Named(symbols, key))
  {
    if symbols != [] {
      var init, s := symbols[..|symbols| - 1], symbols[|symbols| - 1];
      AddDirectionGet(m, init, key);
      if s.name == key {
        assert Named(symbols, key) == Named(init, key) + [s];
        assert Named(symbols, key)[..|Named(symbols, key)| - 1] == Named(init, key);
      } else {
        assert Named(symbols, key) == Named(init, key);
      }
    }
  }

  /** A name is mentioned by a non-empty input iff its prefix or its last symbol mentions it. */
  lemma MentionsSnoc(symbols: seq<Symbol>)
    requires symbols != []
    ensures forall k :: Mentions(symbols, k) <==> Mentions(symbols[..|symbols| - 1], k) || k == symbols[|symbols| - 1].name
  {
    var init := symbols[..|symbols| - 1];
    forall k ensures Mentions(symbols, k) <==> Mentions(init, k) || k == symbols[|symbols| - 1].name {
      if Mentions(init, k) {
        var i :| 0 <= i < |init| && init[i].name == k;
        assert symbols[i] == init[i];
      }
    }
  }

  /**
   * AddDirection keeps the map well formed, keeps the existing key order as
   * a prefix, and creates exactly the keys named by input symbols.
   */
  lemma {:induction false} AddDirectionKeys(m: NextMap, symbols: seq<Symbol>)
    requires WellFormed(m)
    ensures WellFormed(AddDirection(m, symbols))
    ensures m.keys <= AddDirection(m, symbols).keys
    ensures forall k :: k in AddDirection(m, symbols).lists <==> k in m.lists || Mentions(symbols, k)
  {
    if symbols != [] {
      var init, s := symbols[..|symbols| - 1], symbols[|symbols| - 1];
      AddDirectionKeys(m, init);
      InsertWellFormed(AddDirection(m, init), s.name, s);
      assert AddDirection(m, symbols) == Insert(AddDirection(m, init), s.name, s);
      MentionsSnoc(symbols);
    }
  }

  lemma NamedContains(symbols: seq<Symbol>, s: Symbol)
    requires s in symbols
    ensures s in Named(symbols, s.name)
  {
    if symbols[|symbols| - 1] != s {
      assert symbols == symbols[..|symbols| - 1] + [symbols[|symbols| - 1]];
      NamedContains(symbols[..|symbols| - 1], s);
    }
  }

  lemma {:induction false} NamedFrom(symbols: seq<Symbol>, key: string, x: Symbol)
    requires x in Named(symbols, key)
    ensures x in symbols && x.name == key
  {
    var init := symbols[..|symbols| - 1];
    if x in Named(init, key) {
      NamedFrom(init, key, x);
    }
  }

  lemma NamedEmpty(symbols: seq<Symbol>, key: string)
    requires !Mentions(symbols, key)
    ensures Named(symbols, key) == []
  {
    if Named(symbols, key) != [] {
      NamedFrom(symbols, key, Named(symbols, key)[0]);
    }
  }

  /** After `AddDirectionSymbols`, every input symbol is in the list under its name. */
  lemma {:induction false} AddDirectionContains(m: NextMap, symbols: seq<Symbol>, s: Symbol)
    requires s in symbols
    ensures s.name in AddDirection(m, symbols).lists && s in AddDirection(m, symbols).lists[s.name]
  {
    AddDirectionGet(m, symbols, s.name);
    NamedContains(symbols, s);
    AppendNewExtends(Get(m, s.name), Named(symbols, s.name));
  }

  /**
   * `AddDirectionSymbols` only extends lists at their end, only with input
   * symbols named by the key that the list did not hold, each at most once;
   * a key no input symbol names keeps its list.
   */
  lemma {:induction false} AddDirectionExtends(m: NextMap, symbols: seq<Symbol>, k: string)
    ensures var list := Get(AddDirection(m, symbols), k);
      && Get(m, k) <= list
      && (forall x :: x in list && x !in Get(m, k) ==> x in symbols && x.name == k)
      && (forall i, j :: 0 <= i < j < |list| && |Get(m, k)| <= j ==> list[i] != list[j])
      && (!Mentions(symbols, k) ==> list == Get(m, k))
  {
    AddDirectionGet(m, symbols, k);
    AppendNewExtends(Get(m, k), Named(symbols, k));
    forall x | x in Named(symbols, k) ensures x in symbols && x.name == k {
      NamedFrom(symbols, k, x);
    }
    if !Mentions(symbols, k) {
      NamedEmpty(symbols, k);
    }
  }

  /** Inserting symbols that are all present already leaves the map as it is. */
  lemma {:induction false} AddDirectionNoop(m: NextMap, symbols: seq<Symbol>)
    requires forall s :: s in symbols ==> s.name in m.lists && s in m.lists[s.name]
    ensures AddDirection(m, symbols) == m
  {
    if symbols != [] {
      var init, s := symbols[..|symbols| - 1], symbols[|symbols| - 1];
      AddDirectionNoop(m, init);
      assert m.lists[s.name := m.lists[s.name]] == m.lists;
    }
  }

  /** Calling `AddDirectionSymbols` twice with the same input is the same as calling it once. */
  lemma AddDirectionIdempotent(m: NextMap, symbols: seq<Symbol>)
    ensures AddDirection(AddDirection(m, symbols), symbols) == AddDirection(m, symbols)
  {
    forall s | s in symbols ensures s.name in AddDirection(m, symbols).lists && s in AddDirection(m, symbols).lists[s.name] {
      AddDirectionContains(m, symbols, s);
    }
    AddDirectionNoop(AddDirection(m, symbols), symbols);
  }

  // ---------------------------------------------------------------------
  // AddEndDirection

  /**
   * Per key, AddEndDirection appends the reduce marker of `numOfRule` once,
   * unless the list holds it already, under every name the input mentions,
   * and leaves every other list as it is.
   */
  lemma {:induction false} AddEndDirectionGet(m: NextMap, symbols: seq<Symbol>, numOfRule: nat, key: string)
    ensures Get(AddEndDirection(m, symbols, numOfRule), key)
      == if Mentions(symbols, key) then AppendOnce(Get(m, key), EndMarker(numOfRule)) else Get(m, key)
  {
    if symbols != [] {
      var init, s := symbols[..|symbols| - 1], symbols[|symbols| - 1];
      AddEndDirectionGet(m, init, numOfRule, key);
      assert AddEndDirection(m, symbols, numOfRule) == Insert(AddEndDirection(m, init, numOfRule), s.name, EndMarker(numOfRule));
      MentionsSnoc(symbols);
    }
  }

  lemma {:induction false} AddEndDirectionKeys(m: NextMap, symbols: seq<Symbol>, numOfRule: nat)
    requires WellFormed(m)
    ensures WellFormed(AddEndDirection(m, symbols, numOfRule))
    ensures m.keys <= AddEndDirection(m, symbols, numOfRule).keys
    ensures forall k :: k in AddEndDirection(m, symbols, numOfRule).lists <==> k in m.lists || Mentions(symbols, k)
  {
    if symbols != [] {
      var init, s := symbols[..|symbols| - 1], symbols[|symbols| - 1];
      AddEndDirectionKeys(m, init, numOfRule);
      InsertWellFormed(AddEndDirection(m, init, numOfRule), s.name, EndMarker(numOfRule));
      assert AddEndDirection(m, symbols, numOfRule) == Insert(AddEndDirection(m, init, numOfRule), s.name, EndMarker(numOfRule));
      MentionsSnoc(symbols);
    }
  }

  /**
   * `AddEndDirectionSymbols` adds nothing but the marker of `numOfRule`, at
   * most once per list; the marker is then present under every mentioned
   * name.
   */
  lemma AddEndDirectionOnlyMarker(m: NextMap, symbols: seq<Symbol>, numOfRule: nat, key: string)
    ensures var list := Get(AddEndDirection(m, symbols, numOfRule), key);
      && Get(m, key) <= list
      && |list| <= |Get(m, key)| + 1
      && (forall i :: |Get(m, key)| <= i < |list| ==> list[i] == EndMarker(numOfRule) && EndMarker(numOfRule) !in Get(m, key))
      && (Mentions(symbols, key) ==> EndMarker(numOfRule) in list)
  {
    AddEndDirectionGet(m, symbols, numOfRule, key);
  }

  /** PushBack appends exactly `s` under `key` and leaves other lists alone. */
  lemma PushBackGet(m: NextMap, key: string, s: Symbol, k: string)
    requires WellFormed(m)
    ensures WellFormed(PushBack(m, key, s))
    ensures Get(PushBack(m, key, s), k) == if k == key then Get(m, k) + [s] else Get(m, k)
  {
  }
}
