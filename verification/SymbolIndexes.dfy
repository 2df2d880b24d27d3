/** SymbolIndex of src/symbol_index.cc. A symbol is named by its position in the image. */
module SymbolIndexes {
  import opened Base
  import opened Image
  import opened OrderedMaps
  import TextOrder

  // ----- one table -----

  /** Which key a symbol is entered under, if any, and whether it replaces one that is not preferred. */
  datatype Rule<K> = Rule(key: Symbol -> Option<K>, preferred: Symbol -> bool)

  /** One emplace, and the replacement behind it. */
  function Enter<K>(rule: Rule<K>, symbols: seq<Symbol>, n: nat, table: map<K, nat>): map<K, nat>
    requires n < |symbols|
  {
    match rule.key(symbols[n])
    case None => table
    case Some(k) =>
      if k !in table then table[k := n]
      else if table[k] < |symbols| && !rule.preferred(symbols[table[k]]) && rule.preferred(symbols[n])
      then table[k := n]
      else table
  }

  predicate Keyed<K(==)>(rule: Rule<K>, s: Symbol, k: K)
  {
    rule.key(s) == Some(k)
  }

  /** Of the first n symbols with key k, i is the first preferred one, or the first of all when
      none is preferred. */
  ghost predicate Best<K>(rule: Rule<K>, symbols: seq<Symbol>, n: nat, k: K, i: nat)
    requires n <= |symbols|
  {
    && i < n && Keyed(rule, symbols[i], k)
    && (forall j {:trigger Keyed(rule, symbols[j], k)} :: 0 <= j < i && Keyed(rule, symbols[j], k) ==>
          !rule.preferred(symbols[j]) && rule.preferred(symbols[i]))
    && (forall j {:trigger Keyed(rule, symbols[j], k)} ::
          0 <= j < n && Keyed(rule, symbols[j], k) && rule.preferred(symbols[j]) ==> rule.preferred(symbols[i]))
  }

  /** A linear scan of the first n symbols gives the same answer as the table, for every key. */
  ghost predicate Agrees<K(!new)>(rule: Rule<K>, symbols: seq<Symbol>, n: nat, table: map<K, nat>)
    requires n <= |symbols|
  {
    && (forall k {:trigger k in table} :: k in table ==> Best(rule, symbols, n, k, table[k]))
    && (forall j, k {:trigger Keyed(rule, symbols[j], k)} :: 0 <= j < n && Keyed(rule, symbols[j], k) ==> k in table)
  }

  lemma EnterBest<K(!new)>(rule: Rule<K>, symbols: seq<Symbol>, n: nat, table: map<K, nat>, k: K)
    requires n < |symbols| && Agrees(rule, symbols, n, table) && k in Enter(rule, symbols, n, table)
    ensures Best(rule, symbols, n + 1, k, Enter(rule, symbols, n, table)[k])
  {
    assert k in table ==> Best(rule, symbols, n, k, table[k]);
    assert rule.key(symbols[n]) == Some(k) <==> Keyed(rule, symbols[n], k);
  }

  lemma EnterKeeps<K(!new)>(rule: Rule<K>, symbols: seq<Symbol>, n: nat, table: map<K, nat>)
    requires n < |symbols| && Agrees(rule, symbols, n, table)
    ensures Agrees(rule, symbols, n + 1, Enter(rule, symbols, n, table))
  {
    var after := Enter(rule, symbols, n, table);
    forall k {:trigger k in after} | k in after ensures Best(rule, symbols, n + 1, k, after[k]) {
      EnterBest(rule, symbols, n, table, k);
    }
  }

  /** The linear scan has only one answer. */
  lemma BestIsUnique<K(!new)>(rule: Rule<K>, symbols: seq<Symbol>, n: nat, k: K, i: nat, j: nat)
    requires n <= |symbols| && Best(rule, symbols, n, k, i) && Best(rule, symbols, n, k, j)
    ensures i == j
  {
    assert Keyed(rule, symbols[i], k) && Keyed(rule, symbols[j], k);
  }

  // ----- the three tables -----

  const BY_NAME: Rule<Text> :=
    Rule((s: Symbol) => if s.name == [] then None else Some(s.name), (s: Symbol) => !s.binding.Local?)

  const BY_QUALIFIED_NAME: Rule<(Text, Text)> :=
    Rule((s: Symbol) => if s.name == [] then None else Some((s.library, s.name)), (s: Symbol) => true)

  const BY_ADDRESS: Rule<U64> :=
    Rule((s: Symbol) => if s.value == 0 || s.kind.FileSymbol? || s.kind.SectionSymbol? then None else Some(s.value),
         (s: Symbol) => s.size != 0)

  datatype SymbolLookupResult = SymbolLookupResult(symbol: Option<nat>, displacement: U64, exact: bool)

  /** The loop in build. */
  method EnterAll(symbols: seq<Symbol>)
    returns (names: map<Text, nat>, qualified: map<(Text, Text), nat>, addresses: map<U64, nat>)
    ensures Agrees(BY_NAME, symbols, |symbols|, names)
    ensures Agrees(BY_QUALIFIED_NAME, symbols, |symbols|, qualified)
    ensures Agrees(BY_ADDRESS, symbols, |symbols|, addresses)
  {
    names, qualified, addresses := map[], map[], map[];
    for i := 0 to |symbols|
      invariant Agrees(BY_NAME, symbols, i, names)
      invariant Agrees(BY_QUALIFIED_NAME, symbols, i, qualified)
      invariant Agrees(BY_ADDRESS, symbols, i, addresses)
    {
      EnterKeeps(BY_NAME, symbols, i, names);
      EnterKeeps(BY_QUALIFIED_NAME, symbols, i, qualified);
      EnterKeeps(BY_ADDRESS, symbols, i, addresses);
      names := Enter(BY_NAME, symbols, i, names);
      qualified := Enter(BY_QUALIFIED_NAME, symbols, i, qualified);
      addresses := Enter(BY_ADDRESS, symbols, i, addresses);
    }
  }

  /** The walk over the name table from lower_bound(prefix) on. */
  method WalkNames(symbols: seq<Symbol>, names: map<Text, nat>, prefix: Text, maximum: nat)
    returns (result: seq<nat>, ghost found: seq<Text>)
    requires Agrees(BY_NAME, symbols, |symbols|, names)
    ensures FirstWithPrefix(names.Keys, prefix, maximum, found) && SymbolsOf(symbols, found, result)
  {
    result, found := [], [];
    if maximum == 0 { return; }
    var next := TextOrder.Bound(names.Keys, prefix, false);
    WalkStarts(names.Keys, prefix, next);
    while next.Some? && |result| < maximum
      invariant CollectedTo(names.Keys, prefix, found, next)
      invariant |found| <= maximum && SymbolsOf(symbols, found, result)
      decreases maximum - |result|
    {
      if !TextOrder.HasPrefix(next.value, prefix) {
        StopHere(names.Keys, prefix, maximum, found, next.value);
        return;
      }
      result := result + [names[next.value]];
      var after := TextOrder.Bound(names.Keys, next.value, true);
      CollectOne(names.Keys, prefix, found, next.value, after);
      found := found + [next.value];
      next := after;
    }
    Collected(names.Keys, prefix, maximum, found, next);
  }

  class SymbolIndex {
    const limits: Limits
    var symbols: seq<Symbol>
    var names: map<Text, nat>
    var qualified: map<(Text, Text), nat>
    var addresses: map<U64, nat>

    ghost predicate Valid()
      reads this
    {
      && Agrees(BY_NAME, symbols, |symbols|, names)
      && Agrees(BY_QUALIFIED_NAME, symbols, |symbols|, qualified)
      && Agrees(BY_ADDRESS, symbols, |symbols|, addresses)
    }

    constructor (limits: Limits)
      ensures Valid() && this.limits == limits && symbols == []
    {
      this.limits := limits;
      symbols, names, qualified, addresses := [], map[], map[], map[];
    }

    /** clear. */
    method Clear()
      modifies this
      ensures Valid() && symbols == []
    {
      symbols, names, qualified, addresses := [], map[], map[], map[];
    }

    /** build: afterwards every table agrees with a linear scan of the image's symbols. */
    method Build(image: BinaryImage) returns (s: Status)
      modifies this
      ensures Valid()
      ensures s == if |image.symbols| > limits.maxSymbols then Failed(ResourceLimit) else Done
      ensures symbols == if s.Done? then image.symbols else []
    {
      Clear();
      if |image.symbols| > limits.maxSymbols { return Failed(ResourceLimit); }
      symbols := image.symbols;
      names, qualified, addresses := EnterAll(image.symbols);
      return Done;
    }

    /** by_name: the first symbol of that name that is not local, else the first one. */
    method ByName(name: Text) returns (r: Option<nat>)
      requires Valid()
      ensures r.Some? ==> Best(BY_NAME, symbols, |symbols|, name, r.value)
      ensures r.None? <==> name == [] || forall j :: 0 <= j < |symbols| ==> symbols[j].name != name
    {
      assert forall j :: 0 <= j < |symbols| && name != [] && symbols[j].name == name ==>
               Keyed(BY_NAME, symbols[j], name);
      return if name in names then Some(names[name]) else None;
    }

    /** by_qualified_name: the first symbol of that library and name. */
    method ByQualifiedName(library: Text, name: Text) returns (r: Option<nat>)
      requires Valid()
      ensures r.Some? ==> Best(BY_QUALIFIED_NAME, symbols, |symbols|, (library, name), r.value)
      ensures r.None? <==> name == [] || forall j :: 0 <= j < |symbols| ==>
                             symbols[j].name != name || symbols[j].library != library
    {
      assert forall j ::
               0 <= j < |symbols| && name != [] && symbols[j].name == name && symbols[j].library == library ==>
               Keyed(BY_QUALIFIED_NAME, symbols[j], (library, name));
      return if (library, name) in qualified then Some(qualified[(library, name)]) else None;
    }

    /** nearest: the best symbol at the greatest eligible address not above the query, unless it
        has a size that does not reach the query. */
    method Nearest(address: U64) returns (r: SymbolLookupResult)
      requires Valid()
      ensures IsNearest(symbols, address, r)
    {
      if !HasFloor(addresses.Keys, address) {
        NothingBelow(symbols, addresses, address);
        return SymbolLookupResult(None, 0, false);
      }
      var found := Floor(addresses.Keys, address);
      FoundBelow(symbols, addresses, address, found);
      var symbol, displacement := addresses[found], address - found;
      var reached := symbols[symbol].size == 0 || displacement < symbols[symbol].size;
      r := SymbolLookupResult(if reached then Some(symbol) else None, displacement, displacement == 0);
      assert NearestAt(symbols, address, r, symbol);
    }

    /** prefix: the symbols of the first maximum names with that prefix, in order of their names. */
    method Prefix(prefix: Text, maximum: nat) returns (result: seq<nat>)
      requires Valid()
      ensures exists found :: FirstWithPrefix(NamesOf(symbols), prefix, maximum, found)
                              && SymbolsOf(symbols, found, result)
    {
      KeysAreNames(symbols, names);
      ghost var found;
      result, found := WalkNames(symbols, names, prefix, maximum);
    }
  }

  // ----- nearest -----

  predicate Eligible(s: Symbol)
  {
    s.value != 0 && !s.kind.FileSymbol? && !s.kind.SectionSymbol?
  }

  ghost predicate IsNearest(symbols: seq<Symbol>, address: U64, r: SymbolLookupResult)
  {
    if forall j :: 0 <= j < |symbols| && Eligible(symbols[j]) ==> symbols[j].value > address
    then r == SymbolLookupResult(None, 0, false)
    else exists i :: NearestAt(symbols, address, r, i)
  }

  /** Symbol i is the best one at the greatest eligible address not above the query. */
  ghost predicate NearestAt(symbols: seq<Symbol>, address: U64, r: SymbolLookupResult, i: nat)
  {
    && i < |symbols| && Eligible(symbols[i]) && symbols[i].value <= address
    && (forall j :: 0 <= j < |symbols| && Eligible(symbols[j]) && symbols[j].value <= address ==>
          symbols[j].value <= symbols[i].value)
    && Best(BY_ADDRESS, symbols, |symbols|, symbols[i].value, i)
    && r.displacement == address - symbols[i].value && (r.exact <==> symbols[i].value == address)
    && r.symbol == if symbols[i].size != 0 && r.displacement >= symbols[i].size then None else Some(i)
  }

  lemma NothingBelow(symbols: seq<Symbol>, addresses: map<U64, nat>, address: U64)
    requires Agrees(BY_ADDRESS, symbols, |symbols|, addresses) && !HasFloor(addresses.Keys, address)
    ensures forall j :: 0 <= j < |symbols| && Eligible(symbols[j]) ==> symbols[j].value > address
  {
    forall j | 0 <= j < |symbols| && Eligible(symbols[j]) ensures symbols[j].value > address {
      assert Keyed(BY_ADDRESS, symbols[j], symbols[j].value);
      assert symbols[j].value in addresses.Keys;
    }
  }

  lemma FoundBelow(symbols: seq<Symbol>, addresses: map<U64, nat>, address: U64, found: U64)
    requires Agrees(BY_ADDRESS, symbols, |symbols|, addresses) && found in addresses && found <= address
    requires forall k :: k in addresses.Keys && k <= address ==> k <= found
    ensures var i := addresses[found];
            && i < |symbols| && Eligible(symbols[i]) && symbols[i].value == found
            && Best(BY_ADDRESS, symbols, |symbols|, found, i)
    ensures forall j :: 0 <= j < |symbols| && Eligible(symbols[j]) && symbols[j].value <= address ==>
              symbols[j].value <= found
  {
    assert Best(BY_ADDRESS, symbols, |symbols|, found, addresses[found]);
    forall j | 0 <= j < |symbols| && Eligible(symbols[j]) && symbols[j].value <= address
      ensures symbols[j].value <= found
    {
      assert Keyed(BY_ADDRESS, symbols[j], symbols[j].value);
      assert symbols[j].value in addresses.Keys;
    }
  }

  // ----- prefix -----

  /** All names but the empty one. */
  ghost function NamesOf(symbols: seq<Symbol>): set<Text>
  {
    set i | 0 <= i < |symbols| && symbols[i].name != [] :: symbols[i].name
  }

  lemma KeysAreNames(symbols: seq<Symbol>, names: map<Text, nat>)
    requires Agrees(BY_NAME, symbols, |symbols|, names)
    ensures names.Keys == NamesOf(symbols)
  {
    forall k | k in NamesOf(symbols) ensures k in names.Keys {
      var i :| 0 <= i < |symbols| && symbols[i].name != [] && symbols[i].name == k;
      assert Keyed(BY_NAME, symbols[i], k);
    }
    forall k | k in names.Keys ensures k in NamesOf(symbols) {
      assert Best(BY_NAME, symbols, |symbols|, k, names[k]);
    }
  }

  /** result lists the best symbol of every name in found. */
  ghost predicate SymbolsOf(symbols: seq<Symbol>, found: seq<Text>, result: seq<nat>)
  {
    |result| == |found|
    && forall i {:trigger result[i]} {:trigger found[i]} :: 0 <= i < |found| ==>
         Best(BY_NAME, symbols, |symbols|, found[i], result[i])
  }

  ghost predicate AscendingNames(found: seq<Text>)
  {
    forall i, j :: 0 <= i < j < |found| ==> TextOrder.Less(found[i], found[j])
  }

  /** found lists the first names with the prefix: at most maximum, and all others come later. */
  ghost predicate FirstWithPrefix(keys: set<Text>, prefix: Text, maximum: nat, found: seq<Text>)
  {
    && |found| <= maximum && AscendingNames(found)
    && (forall i :: 0 <= i < |found| ==> found[i] in keys && TextOrder.HasPrefix(found[i], prefix))
    && (forall k :: k in keys && TextOrder.HasPrefix(k, prefix) ==>
          k in found || (|found| == maximum && forall i :: 0 <= i < |found| ==> TextOrder.Less(found[i], k)))
  }

  /** The walk has collected every name with the prefix that lies before the iterator. */
  ghost predicate CollectedTo(keys: set<Text>, prefix: Text, found: seq<Text>, next: Option<Text>)
  {
    && AscendingNames(found)
    && (forall i :: 0 <= i < |found| ==> found[i] in keys && TextOrder.HasPrefix(found[i], prefix))
    && (next.Some? ==> next.value in keys && !TextOrder.Less(next.value, prefix)
                       && forall i :: 0 <= i < |found| ==> TextOrder.Less(found[i], next.value))
    && (forall k :: k in keys && TextOrder.HasPrefix(k, prefix) ==>
          k in found || (next.Some? && !TextOrder.Less(k, next.value)))
  }

  lemma WalkStarts(keys: set<Text>, prefix: Text, next: Option<Text>)
    requires TextOrder.IsBound(keys, prefix, false, next)
    ensures CollectedTo(keys, prefix, [], next)
  {
    forall k | k in keys && TextOrder.HasPrefix(k, prefix) ensures TextOrder.Reaches(k, prefix, false) {
      TextOrder.PrefixNotAbove(k, prefix);
    }
  }

  /** The first name without the prefix ends the walk: no later one has it. */
  lemma StopHere(keys: set<Text>, prefix: Text, maximum: nat, found: seq<Text>, k: Text)
    requires CollectedTo(keys, prefix, found, Some(k)) && !TextOrder.HasPrefix(k, prefix) && |found| <= maximum
    ensures FirstWithPrefix(keys, prefix, maximum, found)
  {
    forall t | t in keys && TextOrder.HasPrefix(t, prefix) ensures t in found {
      if !TextOrder.Less(t, k) { TextOrder.PrefixesTogether(prefix, k, t); }
    }
  }

  lemma Collected(keys: set<Text>, prefix: Text, maximum: nat, found: seq<Text>, next: Option<Text>)
    requires CollectedTo(keys, prefix, found, next) && |found| <= maximum
    requires next.None? || |found| == maximum
    ensures FirstWithPrefix(keys, prefix, maximum, found)
  {
    forall k | k in keys && TextOrder.HasPrefix(k, prefix) && k !in found
      ensures |found| == maximum && forall i :: 0 <= i < |found| ==> TextOrder.Less(found[i], k)
    {
      forall i | 0 <= i < |found| ensures TextOrder.Less(found[i], k) {
        TextOrder.NotLessChain(found[i], next.value, k);
      }
    }
  }

  lemma CollectOne(keys: set<Text>, prefix: Text, found: seq<Text>, k: Text, after: Option<Text>)
    requires CollectedTo(keys, prefix, found, Some(k)) && TextOrder.HasPrefix(k, prefix)
    requires TextOrder.IsBound(keys, k, true, after)
    ensures CollectedTo(keys, prefix, found + [k], after)
  {
    if after.Some? {
      TextOrder.NotLessChain(prefix, k, after.value);
      TextOrder.LessTotal(prefix, after.value);
      forall i | 0 <= i < |found| ensures TextOrder.Less(found[i], after.value) {
        TextOrder.LessTransitive(found[i], k, after.value);
      }
    }
    forall t | t in keys && TextOrder.HasPrefix(t, prefix) && t !in found + [k]
      ensures after.Some? && !TextOrder.Less(t, after.value)
    {
      TextOrder.LessTotal(t, k);
      assert TextOrder.Reaches(t, k, true);
    }
  }

  // ----- the best symbols, from their fields -----

  /** The first symbol of a name that is not local, or the first of that name when all are local. */
  lemma BestByName(symbols: seq<Symbol>, name: Text, i: nat)
    ensures Best(BY_NAME, symbols, |symbols|, name, i) <==>
            && i < |symbols| && name != [] && symbols[i].name == name
            && if symbols[i].binding != Local
               then forall j {:trigger symbols[j]} :: 0 <= j < i && symbols[j].name == name ==>
                      symbols[j].binding == Local
               else
                 && (forall j {:trigger symbols[j]} :: 0 <= j < |symbols| && symbols[j].name == name ==>
                       symbols[j].binding == Local)
                 && (forall j {:trigger symbols[j]} :: 0 <= j < i ==> symbols[j].name != name)
  {
    forall j | 0 <= j < |symbols|
      ensures Keyed(BY_NAME, symbols[j], name) <==> name != [] && symbols[j].name == name
      ensures BY_NAME.preferred(symbols[j]) <==> symbols[j].binding != Local
    {
    }
  }

  /** The first symbol of a library and name. */
  lemma BestByQualifiedName(symbols: seq<Symbol>, library: Text, name: Text, i: nat)
    ensures Best(BY_QUALIFIED_NAME, symbols, |symbols|, (library, name), i) <==>
            && i < |symbols| && name != [] && symbols[i].name == name && symbols[i].library == library
            && forall j {:trigger symbols[j]} :: 0 <= j < i ==>
                 symbols[j].name != name || symbols[j].library != library
  {
    forall j | 0 <= j < |symbols|
      ensures Keyed(BY_QUALIFIED_NAME, symbols[j], (library, name)) <==>
              name != [] && symbols[j].name == name && symbols[j].library == library
    {
    }
  }

  predicate StandsAt(s: Symbol, address: U64)
  {
    s.value == address != 0 && s.kind != FileSymbol && s.kind != SectionSymbol
  }

  /** The first symbol at an address that has a size, or the first one there when none has; file and section
      symbols do not count, nor does address zero. */
  lemma BestByAddress(symbols: seq<Symbol>, address: U64, i: nat)
    ensures Best(BY_ADDRESS, symbols, |symbols|, address, i) <==>
            && i < |symbols| && StandsAt(symbols[i], address)
            && if symbols[i].size != 0
               then forall j {:trigger symbols[j]} :: 0 <= j < i && StandsAt(symbols[j], address) ==>
                      symbols[j].size == 0
               else
                 && (forall j {:trigger symbols[j]} :: 0 <= j < |symbols| && StandsAt(symbols[j], address) ==>
                       symbols[j].size == 0)
                 && (forall j {:trigger symbols[j]} :: 0 <= j < i ==> !StandsAt(symbols[j], address))
  {
    forall j | 0 <= j < |symbols|
      ensures Keyed(BY_ADDRESS, symbols[j], address) <==> StandsAt(symbols[j], address)
      ensures BY_ADDRESS.preferred(symbols[j]) <==> symbols[j].size != 0
    {
    }
  }
}
