/** Whole runs of a map, against a plain map from keys to values. */
module Runs {
  import opened Bytes
  import opened Tries
  import opened Maps
  import opened Listings
  import opened Selections
  import opened TreeIterators
  import opened PrefixIterators
  import opened FuzzyIterators
  import opened Collecting
  import InsertApply
  import Delete
  import Entries
  import Canonical

  datatype Action =
    | Clear
    | Len
    | Get(key: Key)
    | First
    | Last
    | Iterate
    | SearchPrefix(prefix: Key)
    | SearchFuzzy(key: Key, maxEditDist: nat)
    | PopFirst
    | PopLast
    | Remove(key: Key)
    | TryInsert(key: Key, value: Value)
    | EntryInsert(key: Key, value: Value)
    | EntryRemove(key: Key)

  datatype Outcome =
    | Done
    | Counted(len: nat)
    | Found(value: Option<Value>)
    | Entry(entry: Option<(Key, Value)>)
    | Listed(keys: seq<Key>, values: seq<Value>)
    | Inserted(result: Result<Option<Value>>)
    | Removed(removed: Result<Option<(Key, Value)>>)

  /** The least (greatest) entry of a map, if it is not empty. */
  ghost predicate FirstEntry(m: map<Key, Value>, e: Option<(Key, Value)>) {
    match e
    case None => m == map[]
    case Some((k, v)) => IsFirst(m, k) && v == m[k]
  }

  ghost predicate LastEntry(m: map<Key, Value>, e: Option<(Key, Value)>) {
    match e
    case None => m == map[]
    case Some((k, v)) => IsLast(m, k) && v == m[k]
  }

  function Without(m: map<Key, Value>, e: Option<(Key, Value)>): map<Key, Value> {
    if e.Some? then m - {e.value.0} else m
  }

  /** What an action does to a plain map, and what it returns. */
  ghost predicate Step(m: map<Key, Value>, a: Action, n: map<Key, Value>, o: Outcome) {
    match a
    case Clear => n == map[] && o == Done
    case Len => n == m && o == Counted(|m|)
    case Get(key) => n == m && o == Found(if key in m then Some(m[key]) else None)
    case First => n == m && o.Entry? && FirstEntry(m, o.entry)
    case Last => n == m && o.Entry? && LastEntry(m, o.entry)
    case Iterate => n == m && o.Listed? && ListsKeys(o.keys, m) && Pairs(o.keys, o.values, m)
    case SearchPrefix(prefix) =>
      n == m && o.Listed? && ListsWanted(o.keys, m, Extensions(prefix)) && Pairs(o.keys, o.values, m)
    case SearchFuzzy(key, max) =>
      n == m && o.Listed? && ListsWanted(Reversed(o.keys), m, Near(key, max)) && Pairs(o.keys, o.values, m)
    case PopFirst => o.Entry? && FirstEntry(m, o.entry) && n == Without(m, o.entry)
    case PopLast => o.Entry? && LastEntry(m, o.entry) && n == Without(m, o.entry)
    case Remove(key) => n == m - {key} && o == Entry(if key in m then Some((key, m[key])) else None)
    case TryInsert(key, value) => InsertStep(m, key, value, n, o)
    case EntryInsert(key, value) => InsertStep(m, key, value, n, o)
    case EntryRemove(key) =>
      if PrefixClash(m, key) then n == m && o == Removed(Result.InsertPrefixError(key))
      else n == m - {key} && o == Removed(Ok(if key in m then Some((key, m[key])) else None))
  }

  ghost predicate InsertStep(m: map<Key, Value>, key: Key, value: Value, n: map<Key, Value>, o: Outcome) {
    if PrefixClash(m, key) then n == m && o == Inserted(Result.InsertPrefixError(key))
    else n == m[key := value] && o == Inserted(Ok(if key in m then Some(m[key]) else None))
  }

  /** `ms` are the states of a plain map along a run from the empty map. */
  ghost predicate Run(actions: seq<Action>, ms: seq<map<Key, Value>>, outcomes: seq<Outcome>) {
    && |ms| == |actions| + 1 && |outcomes| == |actions| && ms[0] == map[]
    && forall i {:trigger actions[i]} :: 0 <= i < |actions| ==> Step(ms[i], actions[i], ms[i + 1], outcomes[i])
  }

  /** There is only one least (greatest) key. */
  lemma FirstUnique(m: map<Key, Value>, k: Key, l: Key)
    requires IsFirst(m, k) && IsFirst(m, l)
    ensures k == l
  {
    if k != l {
      NotBoth(k, l);
    }
  }

  lemma LastUnique(m: map<Key, Value>, k: Key, l: Key)
    requires IsLast(m, k) && IsLast(m, l)
    ensures k == l
  {
    if k != l {
      NotBoth(k, l);
    }
  }

  lemma NotBoth(k: Key, l: Key)
    requires LexLess(k, l)
    ensures !LexLess(l, k)
  {
    LcpSymmetric(k, l);
    ApartOrPrefix(k, l);
  }

  /** The plain map leaves no choice. */
  lemma StepUnique(m: map<Key, Value>, a: Action, n: map<Key, Value>, o: Outcome, n': map<Key, Value>, o': Outcome)
    requires Step(m, a, n, o) && Step(m, a, n', o')
    ensures n == n' && o == o'
  {
    match a {
      case Iterate =>
        ListingUnique(o.keys, o'.keys, m);
        PairsUnique(o.keys, o.values, o'.values, m);
      case SearchPrefix(prefix) =>
        WantedUnique(o.keys, o'.keys, m, Extensions(prefix));
        PairsUnique(o.keys, o.values, o'.values, m);
      case SearchFuzzy(key, max) =>
        WantedUnique(Reversed(o.keys), Reversed(o'.keys), m, Near(key, max));
        ReversedTwice(o.keys);
        ReversedTwice(o'.keys);
        PairsUnique(o.keys, o.values, o'.values, m);
      case _ =>
    }
    if (a.First? || a.PopFirst?) && o.entry.Some? && o'.entry.Some? {
      FirstUnique(m, o.entry.value.0, o'.entry.value.0);
    }
    if (a.Last? || a.PopLast?) && o.entry.Some? && o'.entry.Some? {
      LastUnique(m, o.entry.value.0, o'.entry.value.0);
    }
  }

  lemma {:induction false} RunUnique(actions: seq<Action>, ms: seq<map<Key, Value>>, os: seq<Outcome>,
                                     ns: seq<map<Key, Value>>, ps: seq<Outcome>)
    requires Run(actions, ms, os) && Run(actions, ns, ps)
    ensures ms == ns && os == ps
    decreases |actions|
  {
    if actions != [] {
      var n := |actions| - 1;
      RunInit(actions, ms, os);
      RunInit(actions, ns, ps);
      RunUnique(actions[..n], ms[..n + 1], os[..n], ns[..n + 1], ps[..n]);
      assert ms[n] == ms[..n + 1][n] == ns[..n + 1][n] == ns[n];
      StepUnique(ms[n], actions[n], ms[n + 1], os[n], ns[n + 1], ps[n]);
      assert ms == ms[..n + 1] + [ms[n + 1]] && ns == ns[..n + 1] + [ns[n + 1]];
      assert os == os[..n] + [os[n]] && ps == ps[..n] + [ps[n]];
    }
  }

  lemma RunInit(actions: seq<Action>, ms: seq<map<Key, Value>>, os: seq<Outcome>)
    requires Run(actions, ms, os) && actions != []
    ensures var n := |actions| - 1;
      Run(actions[..n], ms[..n + 1], os[..n]) && Step(ms[n], actions[n], ms[n + 1], os[n])
  {
    var n := |actions| - 1;
    assert Step(ms[n], actions[n], ms[n + 1], os[n]);
    forall i | 0 <= i < n ensures Step(ms[..n + 1][i], actions[..n][i], ms[..n + 1][i + 1], os[..n][i]) {
      assert Step(ms[i], actions[i], ms[i + 1], os[i]);
    }
  }

  /** No stored key is a prefix of another. */
  ghost predicate PrefixFree(m: map<Key, Value>) {
    forall k, l :: k in m && l in m && k <= l ==> k == l
  }

  lemma StepPrefixFree(m: map<Key, Value>, a: Action, n: map<Key, Value>, o: Outcome)
    requires Step(m, a, n, o) && PrefixFree(m)
    ensures PrefixFree(n)
  {
    if (a.TryInsert? || a.EntryInsert?) && !PrefixClash(m, a.key) {
      forall k | k in m && k != a.key ensures !(k <= a.key) && !(a.key <= k) {
      }
    }
  }

  /** Stored keys are prefix-free at every point of every run. */
  lemma {:induction false} RunPrefixFree(actions: seq<Action>, ms: seq<map<Key, Value>>, os: seq<Outcome>, i: nat)
    requires Run(actions, ms, os) && i < |ms|
    ensures PrefixFree(ms[i])
    decreases i
  {
    if i > 0 {
      RunPrefixFree(actions, ms, os, i - 1);
      assert Step(ms[i - 1], actions[i - 1], ms[i], os[i - 1]);
      StepPrefixFree(ms[i - 1], actions[i - 1], ms[i], os[i - 1]);
    }
  }

  predicate KeyFits(a: Action) {
    a.TryInsert? || a.EntryInsert? || a.EntryRemove? ==> |a.key| < KEY_LIMIT
  }

  predicate KeysFit(actions: seq<Action>) {
    forall i :: 0 <= i < |actions| ==> KeyFits(actions[i])
  }

  predicate Reads(a: Action) {
    a.Len? || a.Get? || a.First? || a.Last? || a.Iterate? || a.SearchPrefix? || a.SearchFuzzy?
  }

  /** One action that only reads the map. */
  method Query(tree: TreeMap, a: Action) returns (o: Outcome)
    requires tree.Valid() && Reads(a)
    ensures Step(tree.Entries(), a, tree.Entries(), o) && tree.Valid()
  {
    hide TreeMap.Valid, TreeMap.Entries, IsFirst, IsLast, ListsKeys, ListsWanted, Pairs, Reversed, Near,
      Extensions;
    ghost var r := tree.Repr();
    match a {
      case Len =>
        var len := tree.Len();
        o := Counted(len);
      case Iterate =>
        var keys, values := CollectAll(tree);
        o := Listed(keys, values);
      case SearchPrefix(prefix) =>
        var keys, values := CollectPrefix(tree, prefix);
        o := Listed(keys, values);
      case SearchFuzzy(key, max) =>
        var keys, values, edits := CollectFuzzy(tree, key, max);
        o := Listed(keys, values);
      case Get(key) =>
        var value := tree.Get(key);
        o := Found(value);
      case First =>
        var entry := tree.FirstKeyValue();
        o := Entry(entry);
      case Last =>
        var entry := tree.LastKeyValue();
        o := Entry(entry);
    }
    assert tree.Repr() == r;
  }

  lemma PopStep(m: map<Key, Value>, a: Action, n: map<Key, Value>, e: Option<(Key, Value)>)
    requires a.PopFirst? || a.PopLast?
    requires e.None? <==> m == map[]
    requires e.Some? ==> e.value.0 in m && e.value.1 == m[e.value.0]
    requires e.Some? ==> if a.PopFirst? then IsFirst(m, e.value.0) else IsLast(m, e.value.0)
    requires n == if e.Some? then m - {e.value.0} else m
    ensures Step(m, a, n, Entry(e))
  {
  }

  /** One action on the map. */
  method Perform(tree: TreeMap, a: Action) returns (o: Outcome)
    requires tree.Valid() && KeyFits(a)
    modifies tree.Repr()
    ensures tree.Valid() && fresh(tree.Repr() - old(tree.Repr()))
    ensures Step(old(tree.Entries()), a, tree.Entries(), o)
  {
    hide TreeMap.Valid, TreeMap.Entries, PrefixClash, EntryAt, FirstEntry, LastEntry, Without, IsFirst, IsLast,
      ListsKeys, ListsWanted, Pairs, Reversed, Near, Extensions, InsertApply.FreedEarly, Delete.FreedEarly;
    ghost var m := tree.Entries();
    match a {
      case Clear =>
        tree.Clear();
        o := Done;
      case Remove(key) =>
        var entry := tree.RemoveEntry(key);
        o := Entry(entry);
      case TryInsert(key, value) =>
        var result := tree.TryInsert(key, value);
        o := Inserted(result);
      case EntryInsert(key, value) =>
        var result := Entries.InsertByEntry(tree, key, value);
        o := Inserted(result);
      case EntryRemove(key) =>
        var removed := Entries.RemoveByEntry(tree, key);
        o := Removed(removed);
      case PopFirst =>
        var entry := tree.PopFirst();
        PopStep(m, a, tree.Entries(), entry);
        o := Entry(entry);
      case PopLast =>
        var entry := tree.PopLast();
        PopStep(m, a, tree.Entries(), entry);
        o := Entry(entry);
      case _ => o := Query(tree, a);
    }
  }

  /** On every run the map does what a plain map does. */
  method RunActions(actions: seq<Action>)
    returns (tree: TreeMap, outcomes: seq<Outcome>, ghost ms: seq<map<Key, Value>>)
    requires KeysFit(actions)
    ensures tree.Valid() && Run(actions, ms, outcomes) && tree.Entries() == ms[|actions|]
  {
    hide TreeMap.Valid, TreeMap.Entries, Step;
    tree := new TreeMap();
    outcomes, ms := [], [map[]];
    var i := 0;
    while i < |actions|
      invariant i <= |actions| && tree.Valid() && fresh(tree.Repr())
      invariant Run(actions[..i], ms, outcomes) && tree.Entries() == ms[i]
    {
      var o := Perform(tree, actions[i]);
      RunLast(actions, i, ms, outcomes, tree.Entries(), o);
      outcomes, ms := outcomes + [o], ms + [tree.Entries()];
      i := i + 1;
    }
    assert actions[..|actions|] == actions;
  }

  lemma RunLast(actions: seq<Action>, i: nat, ms: seq<map<Key, Value>>, os: seq<Outcome>, n: map<Key, Value>,
                o: Outcome)
    requires i < |actions| && Run(actions[..i], ms, os) && Step(ms[i], actions[i], n, o)
    ensures Run(actions[..i + 1], ms + [n], os + [o])
  {
    forall j | 0 <= j < i + 1 ensures Step((ms + [n])[j], actions[..i + 1][j], (ms + [n])[j + 1], (os + [o])[j]) {
      if j < i {
        assert Step(ms[j], actions[..i][j], ms[j + 1], os[j]);
      }
    }
  }

  /** Two runs end with the same nodes if and only if they end with the same
      entries. The plain map tells which runs these are. */
  method RunsConverge(actions: seq<Action>, others: seq<Action>)
    returns (a: TreeMap, os: seq<Outcome>, ghost ms: seq<map<Key, Value>>,
             b: TreeMap, ps: seq<Outcome>, ghost ns: seq<map<Key, Value>>)
    requires KeysFit(actions) && KeysFit(others)
    ensures a.Valid() && Run(actions, ms, os) && a.Entries() == ms[|actions|]
    ensures b.Valid() && Run(others, ns, ps) && b.Entries() == ns[|others|]
    ensures ms[|actions|] == ns[|others|] <==> Canonical.NodesOf(a) == Canonical.NodesOf(b)
  {
    hide TreeMap.Entries, Step, Canonical.NodesOf;
    a, os, ms := RunActions(actions);
    b, ps, ns := RunActions(others);
    Canonical.HistoryIndependent(a, b);
  }
}
