/** What the specification functions of Scraper compute, stated without
    reference to how they compute it: the station catalog, the form vars, the
    resolved station list, the extra data and the pairs the warm-up fetches. */
module ScraperLemmas {
  import opened Wrappers
  import opened PyStr
  import opened Scraper

  // ---------------------------------------------------------------------------
  // Station catalog

  /** A list comprehension succeeds exactly when every element's result does. */
  lemma CollectOk<A, B>(xs: seq<A>, f: A -> Result<B>)
    ensures Collect(xs, f).Ok? <==> forall i :: 0 <= i < |xs| ==> f(xs[i]).Ok?
  {
    if Collect(xs, f).Ok? {
      CollectEntries(xs, f);
    } else {
      var i := CollectFails(xs, f);
    }
  }

  /** A failed list comprehension fails with the error of its first failing element. */
  lemma {:induction false} CollectFails<A, B>(xs: seq<A>, f: A -> Result<B>) returns (i: int)
    requires Collect(xs, f).Err?
    ensures 0 <= i < |xs| && f(xs[i]) == Err(Collect(xs, f).error)
    ensures forall k :: 0 <= k < i ==> f(xs[k]).Ok?
  {
    var init := xs[..|xs| - 1];
    if Collect(init, f).Err? {
      i := CollectFails(init, f);
      assert forall k :: 0 <= k <= i ==> xs[k] == init[k];
    } else {
      i := |xs| - 1;
      CollectEntries(init, f);
      assert forall k :: 0 <= k < i ==> xs[k] == init[k];
    }
  }

  /** A successful list comprehension holds every element's result, in order. */
  lemma {:induction false} CollectEntries<A, B>(xs: seq<A>, f: A -> Result<B>)
    requires Collect(xs, f).Ok?
    ensures |Collect(xs, f).value| == |xs|
    ensures forall i :: 0 <= i < |xs| ==> f(xs[i]).Ok? && Collect(xs, f).value[i] == f(xs[i]).value
  {
    if xs != [] {
      var init := xs[..|xs| - 1];
      assert forall i :: 0 <= i < |init| ==> xs[i] == init[i];
      CollectEntries(init, f);
    }
  }

  /** The options parse exactly when every option has a value attribute that
      int() accepts, and then the entries are the options' stripped texts and
      parsed values, in order. */
  lemma ParseOptionsAll(options: seq<OptionTag>)
    ensures ParseOptions(options).Ok? <==>
      forall i :: 0 <= i < |options| ==> options[i].value.Some? && ParseInt(options[i].value.value).Some?
    ensures ParseOptions(options).Ok? ==>
      && |ParseOptions(options).value| == |options|
      && forall i :: 0 <= i < |options| ==>
        ParseOptions(options).value[i] == (Strip(options[i].text), ParseInt(options[i].value.value).value)
  {
    CollectOk(options, ParseOption);
    if ParseOptions(options).Ok? {
      CollectEntries(options, ParseOption);
    }
  }

  /** The entry at k is the last one with its name. */
  ghost predicate LastName<N, V>(entries: seq<(N, V)>, k: int)
    requires 0 <= k < |entries|
  {
    forall m :: k < m < |entries| ==> entries[m].0 != entries[k].0
  }

  /** The entry at k is the last one with its value. */
  ghost predicate LastValue<N, V>(entries: seq<(N, V)>, k: int)
    requires 0 <= k < |entries|
  {
    forall m :: k < m < |entries| ==> entries[m].1 != entries[k].1
  }

  /** The name dict holds every name of the entries and nothing else. */
  lemma {:induction false} NameIndexKeys<N, V>(entries: seq<(N, V)>)
    ensures forall n :: n in NameIndex(entries) <==> exists k :: 0 <= k < |entries| && entries[k].0 == n
  {
    if entries != [] {
      var init, last := entries[..|entries| - 1], entries[|entries| - 1];
      NameIndexKeys(init);
      forall n
        ensures n in NameIndex(entries) <==> exists k :: 0 <= k < |entries| && entries[k].0 == n
      {
        if n in NameIndex(entries) && n != last.0 {
          assert n in NameIndex(init);
          var k :| 0 <= k < |init| && init[k].0 == n;
          assert entries[k] == init[k];
        }
        if exists k :: 0 <= k < |entries| && entries[k].0 == n {
          var k :| 0 <= k < |entries| && entries[k].0 == n;
          if k < |init| {
            assert init[k] == entries[k];
          }
        }
      }
    }
  }

  /** A later entry with the same name replaces an earlier one. */
  lemma {:induction false} NameIndexLastWins<N, V>(entries: seq<(N, V)>, k: int)
    requires 0 <= k < |entries| && LastName(entries, k)
    ensures entries[k].0 in NameIndex(entries) && NameIndex(entries)[entries[k].0] == entries[k].1
  {
    var init := entries[..|entries| - 1];
    if k < |init| {
      assert init[k] == entries[k];
      assert LastName(init, k) by {
        forall m | k < m < |init|
          ensures init[m].0 != init[k].0
        {
          assert init[m] == entries[m];
        }
      }
      NameIndexLastWins(init, k);
    }
  }

  /** The value dict holds every value of the entries and nothing else. */
  lemma {:induction false} ValueIndexKeys<N, V>(entries: seq<(N, V)>)
    ensures forall v :: v in ValueIndex(entries) <==> exists k :: 0 <= k < |entries| && entries[k].1 == v
  {
    if entries != [] {
      var init, last := entries[..|entries| - 1], entries[|entries| - 1];
      ValueIndexKeys(init);
      forall v
        ensures v in ValueIndex(entries) <==> exists k :: 0 <= k < |entries| && entries[k].1 == v
      {
        if v in ValueIndex(entries) && v != last.1 {
          assert v in ValueIndex(init);
          var k :| 0 <= k < |init| && init[k].1 == v;
          assert entries[k] == init[k];
        }
        if exists k :: 0 <= k < |entries| && entries[k].1 == v {
          var k :| 0 <= k < |entries| && entries[k].1 == v;
          if k < |init| {
            assert init[k] == entries[k];
          }
        }
      }
    }
  }

  /** A later entry with the same value replaces an earlier one. */
  lemma {:induction false} ValueIndexLastWins<N, V>(entries: seq<(N, V)>, k: int)
    requires 0 <= k < |entries| && LastValue(entries, k)
    ensures entries[k].1 in ValueIndex(entries) && ValueIndex(entries)[entries[k].1] == entries[k].0
  {
    var init := entries[..|entries| - 1];
    if k < |init| {
      assert init[k] == entries[k];
      assert LastValue(init, k) by {
        forall m | k < m < |init|
          ensures init[m].1 != init[k].1
        {
          assert init[m] == entries[m];
        }
      }
      ValueIndexLastWins(init, k);
    }
  }

  /** Every pair of the name dict comes from some entry. */
  lemma {:induction false} NameIndexEntry<N, V>(entries: seq<(N, V)>, n: N) returns (k: int)
    requires n in NameIndex(entries)
    ensures 0 <= k < |entries| && entries[k] == (n, NameIndex(entries)[n])
  {
    var init, last := entries[..|entries| - 1], entries[|entries| - 1];
    if n == last.0 {
      k := |entries| - 1;
    } else {
      k := NameIndexEntry(init, n);
      assert entries[k] == init[k];
    }
  }

  /** Every pair of the value dict comes from some entry. */
  lemma {:induction false} ValueIndexEntry<N, V>(entries: seq<(N, V)>, v: V) returns (k: int)
    requires v in ValueIndex(entries)
    ensures 0 <= k < |entries| && entries[k] == (ValueIndex(entries)[v], v)
  {
    var init, last := entries[..|entries| - 1], entries[|entries| - 1];
    if v == last.1 {
      k := |entries| - 1;
    } else {
      k := ValueIndexEntry(init, v);
      assert entries[k] == init[k];
    }
  }

  /** No two entries share a name, and no two share a value. */
  ghost predicate Unique<N, V>(entries: seq<(N, V)>) {
    forall i, j :: 0 <= i < j < |entries| ==> entries[i].0 != entries[j].0 && entries[i].1 != entries[j].1
  }

  /** With unique names and values, the name -> value and value -> name dicts
      are inverse to each other. */
  lemma {:induction false} CatalogInverse<N, V>(entries: seq<(N, V)>)
    requires Unique(entries)
    ensures forall n :: n in NameIndex(entries) ==>
      NameIndex(entries)[n] in ValueIndex(entries) && ValueIndex(entries)[NameIndex(entries)[n]] == n
    ensures forall v :: v in ValueIndex(entries) ==>
      ValueIndex(entries)[v] in NameIndex(entries) && NameIndex(entries)[ValueIndex(entries)[v]] == v
  {
    if entries != [] {
      var init, last := entries[..|entries| - 1], entries[|entries| - 1];
      CatalogInverse(init);
      forall n | n in NameIndex(init) && n != last.0
        ensures NameIndex(init)[n] != last.1
      {
        var k := NameIndexEntry(init, n);
        assert init[k].1 != last.1;
      }
      forall v | v in ValueIndex(init) && v != last.1
        ensures ValueIndex(init)[v] != last.0
      {
        var k := ValueIndexEntry(init, v);
        assert init[k].0 != last.0;
      }
    }
  }

  // ---------------------------------------------------------------------------
  // Form variables

  /** The form vars read exactly when every named input is present with a
      value, and then they map each name to that input's value. */
  lemma {:induction false} ReadFormVarsAll(inputs: seq<InputTag>, names: seq<string>)
    ensures ReadFormVars(inputs, names).Ok? <==> forall i :: 0 <= i < |names| ==> InputValue(inputs, names[i]).Ok?
    ensures ReadFormVars(inputs, names).Ok? ==>
      && ReadFormVars(inputs, names).value.Keys == Elems(names)
      && forall n :: n in ReadFormVars(inputs, names).value ==> InputValue(inputs, n) == Ok(ReadFormVars(inputs, names).value[n])
  {
    if names != [] {
      var init := names[..|names| - 1];
      ReadFormVarsAll(inputs, init);
      assert forall i :: 0 <= i < |init| ==> init[i] == names[i];
      assert names == init + [names[|names| - 1]];
    }
  }

  /** soup.find() returns the first input with the name. */
  lemma {:induction false} FindInputFirst(inputs: seq<InputTag>, name: string, k: int)
    requires 0 <= k < |inputs| && inputs[k].name == name
    requires forall m :: 0 <= m < k ==> inputs[m].name != name
    ensures FindInput(inputs, name) == Some(inputs[k])
    decreases k
  {
    if k > 0 {
      FindInputFirst(inputs[1..], name, k - 1);
    }
  }

  // ---------------------------------------------------------------------------
  // Station list

  /** The list items under a station list, in document order, with nested
      lists spliced in place: the text and the <b> flag of each. */
  function Leaves(items: seq<Node>): seq<(string, bool)>
    decreases items
  {
    if items == [] then []
    else
      var last := items[|items| - 1];
      Leaves(items[..|items| - 1]) +
        match last
        case Li(text, hasBold) => [(text, hasBold)]
        case Ul(children) => Leaves(children)
        case Other => []
  }

  /** The sequences of `parts`, one after the other. */
  function Concat<T>(parts: seq<seq<T>>): seq<T> {
    if parts == [] then [] else Concat(parts[..|parts| - 1]) + parts[|parts| - 1]
  }

  /** Two steps one after the other: the first failure, or both results joined. */
  function Then<T>(a: Result<seq<T>>, b: Result<seq<T>>): Result<seq<T>> {
    var x :- a;
    var y :- b;
    Ok(x + y)
  }

  /** ResolveItem as a function of one list item. */
  function ItemStep(catalog: map<string, Station>, interchange: Station): ((string, bool)) -> Result<seq<Station>> {
    (leaf: (string, bool)) => ResolveItem(leaf.0, leaf.1, catalog, interchange)
  }

  /** A flat run of list items resolved item by item and joined, or the first
      failure: the reference the tree walk is compared with. */
  function ResolveLeaves(leaves: seq<(string, bool)>, catalog: map<string, Station>, interchange: Station): Result<seq<Station>> {
    var parts :- Collect(leaves, ItemStep(catalog, interchange));
    Ok(Concat(parts))
  }

  lemma {:induction false} ConcatAppend<T>(a: seq<seq<T>>, b: seq<seq<T>>)
    ensures Concat(a + b) == Concat(a) + Concat(b)
  {
    if b == [] {
      assert a + b == a;
    } else {
      var init := b[..|b| - 1];
      assert (a + b)[..|a + b| - 1] == a + init;
      ConcatAppend(a, init);
    }
  }

  lemma {:induction false} CollectAppend<A, B>(a: seq<A>, b: seq<A>, f: A -> Result<B>)
    ensures Collect(a + b, f) == Then(Collect(a, f), Collect(b, f))
  {
    if b == [] {
      assert a + b == a;
      if Collect(a, f).Ok? {
        assert Collect(a, f).value + [] == Collect(a, f).value;
      }
    } else {
      var init, last := b[..|b| - 1], b[|b| - 1];
      assert (a + b)[..|a + b| - 1] == a + init;
      CollectAppend(a, init, f);
      var x, y := Collect(a, f), Collect(init, f);
      if x.Ok? && y.Ok? && f(last).Ok? {
        StationScraper.Associative(x.value, y.value, [f(last).value]);
      }
    }
  }

  /** Resolving two runs of items is resolving the first, then the second. */
  lemma ResolveLeavesAppend(a: seq<(string, bool)>, b: seq<(string, bool)>, catalog: map<string, Station>, interchange: Station)
    ensures ResolveLeaves(a + b, catalog, interchange) == Then(ResolveLeaves(a, catalog, interchange), ResolveLeaves(b, catalog, interchange))
  {
    var f := ItemStep(catalog, interchange);
    CollectAppend(a, b, f);
    if Collect(a, f).Ok? && Collect(b, f).Ok? {
      ConcatAppend(Collect(a, f).value, Collect(b, f).value);
    }
  }

  /** The recursive walk of resolve_station_list_ul resolves the items of the
      tree in document order, as if the list were flat. */
  lemma {:induction false} ResolveFlatten(items: seq<Node>, catalog: map<string, Station>, interchange: Station)
    ensures Resolve(items, catalog, interchange) == ResolveLeaves(Leaves(items), catalog, interchange)
    decreases items
  {
    if items != [] {
      var init, last := items[..|items| - 1], items[|items| - 1];
      ResolveFlatten(init, catalog, interchange);
      match last {
        case Li(text, hasBold) =>
          ResolveLeavesAppend(Leaves(init), [(text, hasBold)], catalog, interchange);
          var step := ResolveItem(text, hasBold, catalog, interchange);
          if step.Ok? {
            assert Concat([step.value]) == [] + step.value;
          }
        case Ul(children) =>
          ResolveFlatten(children, catalog, interchange);
          ResolveLeavesAppend(Leaves(init), Leaves(children), catalog, interchange);
        case Other =>
          assert Leaves(items) == Leaves(init) + [] == Leaves(init);
          var r := Resolve(init, catalog, interchange);
          if r.Ok? {
            assert r.value + [] == r.value;
          }
      }
    }
  }

  /** Whether a list item resolves: its key names a catalog station, and it
      has a <b> element if it is marked. */
  predicate Resolvable(leaf: (string, bool), catalog: map<string, Station>) {
    (leaf.1 || !Contains(leaf.0, ChangeHere)) && LegKey(leaf.0) in catalog
  }

  /** One list item resolves to its catalog station, followed by INTERCHANGE
      when it has a <b>. */
  lemma ItemResolves(leaf: (string, bool), catalog: map<string, Station>, interchange: Station)
    ensures ItemStep(catalog, interchange)(leaf).Ok? <==> Resolvable(leaf, catalog)
    ensures Resolvable(leaf, catalog) ==>
      ItemStep(catalog, interchange)(leaf).value == [catalog[LegKey(leaf.0)]] + (if leaf.1 then [interchange] else [])
  {
  }

  /** The items resolve exactly when every one of them does. */
  lemma ResolveLeavesOk(leaves: seq<(string, bool)>, catalog: map<string, Station>, interchange: Station)
    ensures ResolveLeaves(leaves, catalog, interchange).Ok? <==> forall k :: 0 <= k < |leaves| ==> Resolvable(leaves[k], catalog)
  {
    CollectOk(leaves, ItemStep(catalog, interchange));
    forall k | 0 <= k < |leaves| {
      ItemResolves(leaves[k], catalog, interchange);
    }
  }

  /** A failure is that of the first item that does not resolve. */
  lemma ResolveLeavesError(leaves: seq<(string, bool)>, catalog: map<string, Station>, interchange: Station)
    returns (k: int)
    requires ResolveLeaves(leaves, catalog, interchange).Err?
    ensures 0 <= k < |leaves| && !Resolvable(leaves[k], catalog)
    ensures forall m :: 0 <= m < k ==> Resolvable(leaves[m], catalog)
    ensures ResolveLeaves(leaves, catalog, interchange).error == ResolveItem(leaves[k].0, leaves[k].1, catalog, interchange).error
  {
    k := CollectFails(leaves, ItemStep(catalog, interchange));
    forall m | 0 <= m <= k {
      ItemResolves(leaves[m], catalog, interchange);
    }
  }

  /** The number of marked items, each of which resolves with a <b>. */
  function Marks(leaves: seq<(string, bool)>): nat {
    if leaves == [] then 0
    else Marks(leaves[..|leaves| - 1]) + (if leaves[|leaves| - 1].1 then 1 else 0)
  }

  /** Every entry is a catalog station, or INTERCHANGE right after a catalog station. */
  ghost predicate Threaded(r: seq<Station>, catalog: map<string, Station>, interchange: Station) {
    forall k {:trigger r[k]} :: 0 <= k < |r| ==> r[k] in catalog.Values || (r[k] == interchange && 0 < k && r[k - 1] in catalog.Values)
  }

  /** The entries of a route other than `x`, in order. */
  function Without(s: seq<Station>, x: Station): seq<Station> {
    if s == [] then []
    else Without(s[..|s| - 1], x) + (if s[|s| - 1] == x then [] else [s[|s| - 1]])
  }

  /** The number of times `x` occurs in a route. */
  function Count(s: seq<Station>, x: Station): nat {
    if s == [] then 0
    else Count(s[..|s| - 1], x) + (if s[|s| - 1] == x then 1 else 0)
  }

  /** Every entry is either dropped by Without or kept. */
  lemma {:induction false} CountWithout(s: seq<Station>, x: Station)
    ensures Count(s, x) + |Without(s, x)| == |s|
  {
    if s != [] {
      CountWithout(s[..|s| - 1], x);
    }
  }

  lemma {:induction false} WithoutAppend(a: seq<Station>, b: seq<Station>, x: Station)
    ensures Without(a + b, x) == Without(a, x) + Without(b, x)
  {
    if b == [] {
      assert a + b == a;
    } else {
      var init := b[..|b| - 1];
      assert (a + b)[..|a + b| - 1] == a + init;
      WithoutAppend(a, init, x);
    }
  }

  /** One part per item: the item's stop, then INTERCHANGE when the item is marked. */
  ghost predicate ItemParts(parts: seq<seq<Station>>, leaves: seq<(string, bool)>, stops: seq<Station>, interchange: Station) {
    && |parts| == |leaves| == |stops|
    && forall k :: 0 <= k < |parts| ==> parts[k] == [stops[k]] + (if leaves[k].1 then [interchange] else [])
  }

  lemma LegsPrefix(parts: seq<seq<Station>>, leaves: seq<(string, bool)>, stops: seq<Station>, interchange: Station)
    requires ItemParts(parts, leaves, stops, interchange) && parts != []
    ensures ItemParts(parts[..|parts| - 1], leaves[..|parts| - 1], stops[..|parts| - 1], interchange)
  {
  }

  lemma {:induction false} ConcatLegsLength(parts: seq<seq<Station>>, leaves: seq<(string, bool)>, stops: seq<Station>, interchange: Station)
    requires ItemParts(parts, leaves, stops, interchange)
    ensures |Concat(parts)| == |leaves| + Marks(leaves)
  {
    if parts != [] {
      var n := |parts| - 1;
      LegsPrefix(parts, leaves, stops, interchange);
      ConcatLegsLength(parts[..n], leaves[..n], stops[..n], interchange);
    }
  }

  lemma {:induction false} ConcatLegsThreaded(parts: seq<seq<Station>>, leaves: seq<(string, bool)>, stops: seq<Station>,
                                              catalog: map<string, Station>, interchange: Station)
    requires ItemParts(parts, leaves, stops, interchange)
    requires forall k :: 0 <= k < |stops| ==> stops[k] in catalog.Values
    ensures Threaded(Concat(parts), catalog, interchange)
  {
    if parts != [] {
      var n := |parts| - 1;
      LegsPrefix(parts, leaves, stops, interchange);
      ConcatLegsThreaded(parts[..n], leaves[..n], stops[..n], catalog, interchange);
      assert Concat(parts) == Concat(parts[..n]) + parts[n];
      ThreadedAppend(Concat(parts[..n]), parts[n], catalog, interchange);
    }
  }

  /** Appending one item's part keeps a route threaded. */
  lemma ThreadedAppend(head: seq<Station>, tail: seq<Station>, catalog: map<string, Station>, interchange: Station)
    requires Threaded(head, catalog, interchange)
    requires 1 <= |tail| <= 2 && tail[0] in catalog.Values && (|tail| == 2 ==> tail[1] == interchange)
    ensures Threaded(head + tail, catalog, interchange)
  {
    var r := head + tail;
    forall k | 0 <= k < |r|
      ensures r[k] in catalog.Values || (r[k] == interchange && 0 < k && r[k - 1] in catalog.Values)
    {
      if k < |head| {
        assert r[k] == head[k];
        if 0 < k {
          assert r[k - 1] == head[k - 1];
        }
      } else if k == |head| {
        assert r[k] == tail[0];
      } else {
        assert r[k] == tail[1] && r[k - 1] == tail[0];
      }
    }
  }

  lemma {:induction false} ConcatLegsStops(parts: seq<seq<Station>>, leaves: seq<(string, bool)>, stops: seq<Station>, interchange: Station)
    requires ItemParts(parts, leaves, stops, interchange)
    requires forall k :: 0 <= k < |stops| ==> stops[k] != interchange
    ensures Without(Concat(parts), interchange) == stops
  {
    if parts != [] {
      var n := |parts| - 1;
      assert stops == stops[..n] + [stops[n]];
      LegsPrefix(parts, leaves, stops, interchange);
      ConcatLegsStops(parts[..n], leaves[..n], stops[..n], interchange);
      var head, tail := Concat(parts[..n]), parts[n];
      WithoutAppend(head, tail, interchange);
      if leaves[n].1 {
        WithoutAppend([stops[n]], [interchange], interchange);
        assert Without([stops[n]], interchange) == [] + [stops[n]];
      } else {
        assert Without(tail, interchange) == [] + [stops[n]];
      }
    }
  }

  /** The parts ResolveLeaves joins, with the stop each of them starts with. */
  lemma ResolveParts(leaves: seq<(string, bool)>, catalog: map<string, Station>, interchange: Station)
    returns (parts: seq<seq<Station>>, stops: seq<Station>)
    requires ResolveLeaves(leaves, catalog, interchange).Ok?
    ensures ResolveLeaves(leaves, catalog, interchange).value == Concat(parts)
    ensures ItemParts(parts, leaves, stops, interchange)
    ensures forall k :: 0 <= k < |leaves| ==>
      LegKey(leaves[k].0) in catalog && stops[k] == catalog[LegKey(leaves[k].0)] && stops[k] in catalog.Values
  {
    var f := ItemStep(catalog, interchange);
    CollectEntries(leaves, f);
    parts := Collect(leaves, f).value;
    stops := seq(|parts|, k requires 0 <= k < |parts| => parts[k][0]);
    forall k | 0 <= k < |parts|
      ensures Resolvable(leaves[k], catalog)
      ensures parts[k] == [stops[k]] + (if leaves[k].1 then [interchange] else [])
      ensures stops[k] == catalog[LegKey(leaves[k].0)] && stops[k] in catalog.Values
    {
      ItemResolves(leaves[k], catalog, interchange);
    }
  }

  /** Each item contributes its catalog station, and a marked one INTERCHANGE
      right after it: the route is as long as the items plus the marked items,
      and every INTERCHANGE directly follows a real station. */
  lemma ResolveLeavesShape(leaves: seq<(string, bool)>, catalog: map<string, Station>, interchange: Station)
    requires ResolveLeaves(leaves, catalog, interchange).Ok?
    ensures |ResolveLeaves(leaves, catalog, interchange).value| == |leaves| + Marks(leaves)
    ensures Threaded(ResolveLeaves(leaves, catalog, interchange).value, catalog, interchange)
  {
    var parts, stops := ResolveParts(leaves, catalog, interchange);
    ConcatLegsLength(parts, leaves, stops, interchange);
    ConcatLegsThreaded(parts, leaves, stops, catalog, interchange);
  }

  /** When INTERCHANGE is not itself a catalog station, it occurs once per
      marked item, and the other entries are the items' stations, in order. */
  lemma ResolveLeavesStops(leaves: seq<(string, bool)>, catalog: map<string, Station>, interchange: Station)
    requires ResolveLeaves(leaves, catalog, interchange).Ok? && interchange !in catalog.Values
    ensures Count(ResolveLeaves(leaves, catalog, interchange).value, interchange) == Marks(leaves)
    ensures |Without(ResolveLeaves(leaves, catalog, interchange).value, interchange)| == |leaves|
    ensures forall k :: 0 <= k < |leaves| ==>
      LegKey(leaves[k].0) in catalog &&
      Without(ResolveLeaves(leaves, catalog, interchange).value, interchange)[k] == catalog[LegKey(leaves[k].0)]
  {
    var parts, stops := ResolveParts(leaves, catalog, interchange);
    var r := ResolveLeaves(leaves, catalog, interchange).value;
    forall k | 0 <= k < |stops|
      ensures stops[k] != interchange
    {
      assert stops[k] in catalog.Values;
    }
    ConcatLegsStops(parts, leaves, stops, interchange);
    ConcatLegsLength(parts, leaves, stops, interchange);
    CountWithout(r, interchange);
  }

  // ---------------------------------------------------------------------------
  // Extra data

  /** item.text.split(' - ')[1] is the text between the first separator and
      the next one, or the end; it is missing when there is no separator. */
  lemma FieldValueSpec(text: string)
    ensures FieldValue(text).Some? <==> Contains(text, FieldSep)
    ensures FieldValue(text).Some? ==>
      var i, f := Find(text, FieldSep).value, FieldValue(text).value;
      && OccursAt(text, FieldSep, i)
      && var rest := text[i + |FieldSep|..];
      && |f| <= |rest| && f == rest[..|f|]
      && !Contains(f, FieldSep)
      && (f == rest || OccursAt(rest, FieldSep, |f|))
  {
    SplitHead(text, FieldSep);
    if Contains(text, FieldSep) {
      var i := Find(text, FieldSep).value;
      SplitHead(text[i + |FieldSep|..], FieldSep);
    }
  }

  /** The time extractor keeps the field value up to its first space. */
  lemma TimeValueSpec(text: string)
    ensures TimeValue(text).Some? <==> FieldValue(text).Some?
    ensures TimeValue(text).Some? ==>
      var f, t := FieldValue(text).value, TimeValue(text).value;
      && |t| <= |f| && t == f[..|t|]
      && !Contains(t, " ")
      && (t == f || f[|t|] == ' ')
  {
    if FieldValue(text).Some? {
      SplitHead(FieldValue(text).value, " ");
    }
  }

  /** The extra data applies exactly when there are at most three items, the
      first has a time and the others a field value; item 0 sets the time,
      item 1 the station count and item 2 the interchange count, and what has
      no item keeps its value. Every failure is an IndexError. */
  lemma {:induction false} ApplyExtraAll(items: seq<string>, e: Extra)
    ensures ApplyExtra(items, e).Ok? <==>
      && |items| <= 3
      && (|items| > 0 ==> TimeValue(items[0]).Some?)
      && (|items| > 1 ==> FieldValue(items[1]).Some?)
      && (|items| > 2 ==> FieldValue(items[2]).Some?)
    ensures ApplyExtra(items, e).Ok? ==> ApplyExtra(items, e).value == Extra(
      if |items| > 0 then TimeValue(items[0]).value else e.time,
      if |items| > 1 then FieldValue(items[1]).value else e.stations,
      if |items| > 2 then FieldValue(items[2]).value else e.interchange)
    ensures ApplyExtra(items, e).Err? ==> ApplyExtra(items, e).error == IndexError
  {
    if items != [] {
      var init := items[..|items| - 1];
      ApplyExtraAll(init, e);
      assert forall k :: 0 <= k < |init| ==> init[k] == items[k];
    }
  }

  // ---------------------------------------------------------------------------
  // Route cache warm-up

  /** Origin f's row fetches f -> t for exactly the other stations t of
      `order` that f does not hold yet. */
  lemma {:induction false} MissingRowMembers(f: string, order: seq<string>, have: set<string>)
    ensures forall p :: p in MissingRow(f, order, have) <==> p.0 == f && p.1 in order && p.1 != f && p.1 !in have
  {
    if order != [] {
      var init := order[..|order| - 1];
      MissingRowMembers(f, init, have);
      assert order == init + [order[|order| - 1]];
    }
  }

  /** The warm-up fetches f -> t for exactly the ordered pairs of distinct
      stations, f among the origins, that are not cached yet: never a
      self-pair, and a -> b and b -> a separately. */
  lemma {:induction false} MissingPairsMembers(frms: seq<string>, order: seq<string>, cached: map<string, set<string>>)
    ensures forall p :: p in MissingPairs(frms, order, cached) <==>
      p.0 in frms && p.1 in order && p.0 != p.1 && p.1 !in Held(cached, p.0)
  {
    if frms != [] {
      var init, f := frms[..|frms| - 1], frms[|frms| - 1];
      MissingPairsMembers(init, order, cached);
      MissingRowMembers(f, order, Held(cached, f));
      assert frms == init + [f];
    }
  }

  /** A row names each destination at most once. */
  lemma {:induction false} MissingRowDistinct(f: string, order: seq<string>, have: set<string>)
    requires Distinct(order)
    ensures Distinct(MissingRow(f, order, have))
  {
    if order != [] {
      var init, t := order[..|order| - 1], order[|order| - 1];
      assert Distinct(init);
      MissingRowDistinct(f, init, have);
      MissingRowMembers(f, init, have);
      assert t !in init;
    }
  }

  /** With distinct station names, the warm-up fetches every pair at most once. */
  lemma {:induction false} MissingPairsDistinct(frms: seq<string>, order: seq<string>, cached: map<string, set<string>>)
    requires Distinct(frms) && Distinct(order)
    ensures Distinct(MissingPairs(frms, order, cached))
  {
    if frms != [] {
      var init, f := frms[..|frms| - 1], frms[|frms| - 1];
      assert Distinct(init);
      MissingPairsDistinct(init, order, cached);
      MissingPairsMembers(init, order, cached);
      MissingRowDistinct(f, order, Held(cached, f));
      MissingRowMembers(f, order, Held(cached, f));
      assert f !in init;
      DistinctAppend(MissingPairs(init, order, cached), MissingRow(f, order, Held(cached, f)));
    }
  }

  /** Two sequences without repeats and without common elements join into one
      without repeats. */
  lemma DistinctAppend<T>(a: seq<T>, b: seq<T>)
    requires Distinct(a) && Distinct(b) && forall x :: x in a ==> x !in b
    ensures Distinct(a + b)
  {
    forall i, j | 0 <= i < j < |a + b|
      ensures (a + b)[i] != (a + b)[j]
    {
      if j < |a| {
        assert (a + b)[i] == a[i] && (a + b)[j] == a[j];
      } else if i >= |a| {
        assert (a + b)[i] == b[i - |a|] && (a + b)[j] == b[j - |a|];
      } else {
        assert (a + b)[i] == a[i] && (a + b)[j] == b[j - |a|];
        assert a[i] in a;
      }
    }
  }
}
