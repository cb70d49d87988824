/** The contents of `NeutralinoStorage.historyByPath`, a JavaScript `Map`
    from archive path to entry that remembers insertion order, and the
    effect of each store operation on it (src/typescript/history.ts:112-179). */
module HistoryTable {
  import opened Outcomes
  import opened HistoryQuery
  import HistoryListing

  ghost predicate Distinct(keys: seq<string>) {
    forall i, j :: 0 <= i < j < |keys| ==> keys[i] != keys[j]
  }

  /** `keys` in insertion order and the value at each key. */
  datatype Table = Table(keys: seq<string>, byPath: map<string, HistoryEntry>) {
    ghost predicate Valid() {
      Distinct(keys) && forall k :: k in byPath <==> k in keys
    }

    /** `[...historyByPath.values()]`: the values in key order, which is what
        `updateHistory` persists and what `list` starts from. */
    function Values(): (s: seq<HistoryEntry>)
      requires Valid()
      ensures |s| == |keys|
      ensures forall i :: 0 <= i < |keys| ==> s[i] == byPath[keys[i]]
    {
      seq(|keys|, i requires 0 <= i < |keys| => byPath[keys[i]])
    }
  }

  const Empty: Table := Table([], map[])

  /** Every entry is stored under its own path, as `add`, `update(entry)` and
      the constructor store them. */
  ghost predicate Keyed(t: Table) {
    forall k :: k in t.byPath ==> t.byPath[k].path == k
  }

  /** `Map.prototype.set`. */
  function Set(t: Table, k: string, v: HistoryEntry): (r: Table)
    requires t.Valid()
    ensures r.Valid()
    ensures r.byPath == t.byPath[k := v]
    ensures r.keys == if k in t.byPath then t.keys else t.keys + [k]
  {
    Table(if k in t.byPath then t.keys else t.keys + [k], t.byPath[k := v])
  }

  /** `set` appends the value of a new key at the end of the values and
      replaces the value of an existing key where it stands. */
  lemma SetValues(t: Table, k: string, v: HistoryEntry)
    requires t.Valid()
    ensures k !in t.byPath ==> Set(t, k, v).Values() == t.Values() + [v]
    ensures k in t.byPath ==> forall i :: 0 <= i < |t.keys| ==>
      Set(t, k, v).Values()[i] == if t.keys[i] == k then v else t.Values()[i]
  {
  }

  /** `keys` with every occurrence of `k` taken out, the others in order. */
  function Without(keys: seq<string>, k: string): (r: seq<string>)
    ensures forall x :: x in r <==> x in keys && x != k
    ensures Distinct(keys) ==> Distinct(r)
    ensures k !in keys ==> r == keys
    decreases |keys|, 1
  {
    if |keys| == 0 then []
    else
      var init, last := keys[..|keys| - 1], keys[|keys| - 1];
      assert keys == init + [last];
      WithoutLastDistinct(keys, k);
      Without(init, k) + (if last == k then [] else [last])
  }

  /** The step of `Without` that drops or keeps the last key keeps the keys distinct. */
  lemma WithoutLastDistinct(keys: seq<string>, k: string)
    requires |keys| > 0
    decreases |keys|, 0
    ensures var init, last := keys[..|keys| - 1], keys[|keys| - 1];
      Distinct(keys) ==> Distinct(Without(init, k) + (if last == k then [] else [last]))
  {
    if Distinct(keys) {
      var init, last := keys[..|keys| - 1], keys[|keys| - 1];
      assert keys == init + [last];
      assert Distinct(init) && last !in init;
      if last != k {
        assert last !in Without(init, k);
      }
    }
  }

  /** Among distinct keys, `Without` cuts out exactly the one position of `k`
      and leaves the keys before and after it in their order. */
  lemma {:induction false} WithoutDropsOne(keys: seq<string>, k: string)
    requires Distinct(keys) && k in keys
    ensures exists m :: 0 <= m < |keys| && keys[m] == k && Without(keys, k) == keys[..m] + keys[m + 1..]
    decreases |keys|
  {
    var n := |keys| - 1;
    var init, last := keys[..n], keys[n];
    assert keys == init + [last];
    if last == k {
      DropLast(keys, k);
      assert keys[n] == k;
    } else {
      assert Distinct(init) && k in init;
      WithoutDropsOne(init, k);
      var m :| 0 <= m < |init| && init[m] == k && Without(init, k) == init[..m] + init[m + 1..];
      KeepLast(keys, k, m);
    }
  }

  /** `k` is the last key: dropping it leaves the others as they are. */
  lemma DropLast(keys: seq<string>, k: string)
    requires |keys| > 0 && Distinct(keys) && keys[|keys| - 1] == k
    ensures var m := |keys| - 1;
      Without(keys, k) == keys[..m] + keys[m + 1..]
  {
    var m := |keys| - 1;
    var init := keys[..m];
    assert k !in init by {
      forall i | 0 <= i < m ensures init[i] != k {
        assert keys[i] != keys[m];
      }
    }
    assert keys[m + 1..] == [];
    assert Without(keys, k) == init + [];
  }

  /** `k` sits at `m`, before the last key: the last key stays behind the gap. */
  lemma KeepLast(keys: seq<string>, k: string, m: nat)
    requires |keys| > 0 && keys[|keys| - 1] != k
    requires var init := keys[..|keys| - 1];
      m < |init| && init[m] == k && Without(init, k) == init[..m] + init[m + 1..]
    ensures keys[m] == k && Without(keys, k) == keys[..m] + keys[m + 1..]
  {
    var init, last := keys[..|keys| - 1], keys[|keys| - 1];
    assert keys == init + [last];
    assert Without(keys, k) == Without(init, k) + [last];
    DropThenAppend(init, last, m);
  }

  /** Dropping position `m` commutes with appending at the end. */
  lemma DropThenAppend(init: seq<string>, last: string, m: nat)
    requires m < |init|
    ensures (init[..m] + init[m + 1..]) + [last] == (init + [last])[..m] + (init + [last])[m + 1..]
  {
    assert (init + [last])[..m] == init[..m];
    assert (init + [last])[m + 1..] == init[m + 1..] + [last];
  }

  /** `Map.prototype.delete`. */
  function Delete(t: Table, k: string): (r: Table)
    requires t.Valid()
    ensures r.Valid()
    ensures r.byPath == t.byPath - {k}
    ensures r.keys == Without(t.keys, k)
    ensures k !in t.byPath ==> r == t
  {
    Table(Without(t.keys, k), t.byPath - {k})
  }

  /** `add` (history.ts:123-131): refused when the path is already a key;
      otherwise the entry is stored at its path, after all others. */
  function Add(t: Table, e: HistoryEntry): (r: Result<Table, Thrown>)
    requires t.Valid()
    ensures r.Failure? <==> e.path in t.byPath
    ensures r.Failure? ==> r.error == PlainError
    ensures r.Success? ==> && r.value.Valid()
                           && r.value.byPath == t.byPath[e.path := e]
                           && r.value.keys == t.keys + [e.path]
                           && r.value.Values() == t.Values() + [e]
    ensures r.Success? && Keyed(t) ==> Keyed(r.value)
  {
    if e.path in t.byPath then Failure(PlainError)
    else
      SetValues(t, e.path, e);
      Success(Set(t, e.path, e))
  }

  /** The two shapes of the first argument of `update`. */
  datatype UpdateTarget = WholeEntry(entry: HistoryEntry) | AtPath(path: string)

  function TargetPath(target: UpdateTarget): string {
    match target
    case WholeEntry(entry) => entry.path
    case AtPath(path) => path
  }

  /** `update` (history.ts:135-157): refused when the path is not a key and,
      for the path form, when no updater is given; otherwise the value at the
      path becomes the given entry or `updater(old value)`, and the key order
      does not change. */
  function Update(t: Table, target: UpdateTarget, updater: Option<HistoryEntry -> HistoryEntry>): (r: Result<Table, Thrown>)
    requires t.Valid()
    ensures r.Failure? <==> TargetPath(target) !in t.byPath || (target.AtPath? && updater.None?)
    ensures r.Failure? ==> r.error == PlainError
    ensures r.Success? ==>
      var p := TargetPath(target);
      var v := if target.WholeEntry? then target.entry else updater.value(t.byPath[p]);
      && r.value.Valid()
      && r.value.keys == t.keys
      && r.value.byPath == t.byPath[p := v]
    ensures r.Success? && Keyed(t) && target.WholeEntry? ==> Keyed(r.value)
  {
    var p := TargetPath(target);
    if p !in t.byPath then Failure(PlainError)
    else if target.AtPath? && updater.None? then Failure(PlainError)
    else
      var v := if target.WholeEntry? then target.entry else updater.value(t.byPath[p]);
      Success(Set(t, p, v))
  }

  /** `remove` (history.ts:159-162): the entry's path stops being a key and
      nothing else changes; an absent path is not an error. */
  function Remove(t: Table, e: HistoryEntry): (r: Table)
    requires t.Valid()
    ensures r.Valid()
    ensures r.byPath == t.byPath - {e.path}
    ensures r.keys == Without(t.keys, e.path)
    ensures e.path !in t.byPath ==> r == t
    ensures Keyed(t) ==> Keyed(r)
  {
    Delete(t, e.path)
  }

  /** The last of `entries` whose path is `k`, if any. */
  function LastWithPath(entries: seq<HistoryEntry>, k: string): (r: Option<HistoryEntry>)
    ensures r.Some? ==> r.value in entries && r.value.path == k
    ensures r.None? <==> forall e :: e in entries ==> e.path != k
    decreases |entries|
  {
    if |entries| == 0 then None
    else if entries[|entries| - 1].path == k then Some(entries[|entries| - 1])
    else LastWithPath(entries[..|entries| - 1], k)
  }

  /** `entries[i]` has path `k` and no later entry has. */
  ghost predicate LastPathAt(entries: seq<HistoryEntry>, k: string, i: int) {
    0 <= i < |entries| && entries[i].path == k && forall j :: i < j < |entries| ==> entries[j].path != k
  }

  /** What `LastWithPath` finds is the last entry with that path: no later
      entry has it. */
  lemma {:induction false} LastWithPathIsLast(entries: seq<HistoryEntry>, k: string)
    ensures LastWithPath(entries, k).Some? ==>
      exists i :: LastPathAt(entries, k, i) && entries[i] == LastWithPath(entries, k).value
    decreases |entries|
  {
    if |entries| > 0 {
      var n := |entries| - 1;
      if entries[n].path == k {
        assert LastWithPath(entries, k) == Some(entries[n]);
        assert LastPathAt(entries, k, n);
      } else {
        var init := entries[..n];
        assert LastWithPath(entries, k) == LastWithPath(init, k);
        LastWithPathIsLast(init, k);
        if LastWithPath(init, k).Some? {
          var i :| LastPathAt(init, k, i) && init[i] == LastWithPath(init, k).value;
          forall j | i < j < |entries| ensures entries[j].path != k {
            if j < n {
              assert entries[j] == init[j];
            }
          }
          assert LastPathAt(entries, k, i) && entries[i] == init[i];
        }
      }
    }
  }

  /** The index of the first of `entries` whose path is `k`, or `|entries|`
      when there is none. */
  function FirstWithPath(entries: seq<HistoryEntry>, k: string): (r: nat)
    ensures r <= |entries|
    ensures r < |entries| ==> entries[r].path == k
    decreases |entries|
  {
    if |entries| == 0 then 0
    else
      var init := entries[..|entries| - 1];
      var f := FirstWithPath(init, k);
      if f < |init| then f
      else if entries[|entries| - 1].path == k then |init|
      else |entries|
  }

  /** No entry before `FirstWithPath(entries, k)` has path `k`. */
  lemma {:induction false} FirstWithPathIsFirst(entries: seq<HistoryEntry>, k: string)
    ensures forall j :: 0 <= j < FirstWithPath(entries, k) ==> entries[j].path != k
    decreases |entries|
  {
    if |entries| > 0 {
      var init := entries[..|entries| - 1];
      FirstWithPathIsFirst(init, k);
      assert forall j :: 0 <= j < |init| ==> init[j] == entries[j];
    }
  }

  /** The constructor (history.ts:115-117): `set` each loaded entry at its
      path in turn. */
  function Load(entries: seq<HistoryEntry>): (r: Table)
    ensures r.Valid()
    decreases |entries|
  {
    if |entries| == 0 then Empty
    else Set(Load(entries[..|entries| - 1]), entries[|entries| - 1].path, entries[|entries| - 1])
  }

  /** A key of the loaded map is a loaded path, and it holds the last loaded
      entry with that path. */
  lemma {:induction false} LoadAt(entries: seq<HistoryEntry>, k: string)
    ensures k in Load(entries).byPath <==> LastWithPath(entries, k).Some?
    ensures k in Load(entries).byPath ==> Load(entries).byPath[k] == LastWithPath(entries, k).value
    decreases |entries|
  {
    if |entries| > 0 {
      LoadAt(entries[..|entries| - 1], k);
    }
  }

  /** The keys of the loaded map are exactly the loaded paths, and the value
      at a key is the last loaded entry with that path, so every entry sits
      under its own path. */
  lemma LoadLookup(entries: seq<HistoryEntry>)
    ensures Keyed(Load(entries))
    ensures forall k :: k in Load(entries).byPath <==> LastWithPath(entries, k).Some?
    ensures forall k :: k in Load(entries).byPath ==> Load(entries).byPath[k] == LastWithPath(entries, k).value
  {
  }

  /** Every one of `keys` is the path of one of `entries`, and the keys come
      in the order of their paths' first occurrences. */
  ghost predicate InFirstOrder(entries: seq<HistoryEntry>, keys: seq<string>) {
    && (forall i :: 0 <= i < |keys| ==> FirstWithPath(entries, keys[i]) < |entries|)
    && (forall i, j :: 0 <= i < j < |keys| ==> FirstWithPath(entries, keys[i]) < FirstWithPath(entries, keys[j]))
  }

  /** The keys of the loaded map come in the order in which their paths
      first occur among the loaded entries: a repeated path keeps the place
      of its first occurrence. */
  lemma {:induction false} LoadKeyOrder(entries: seq<HistoryEntry>)
    ensures InFirstOrder(entries, Load(entries).keys)
    decreases |entries|
  {
    if |entries| > 0 {
      var init := entries[..|entries| - 1];
      LoadKeyOrder(init);
      if entries[|entries| - 1].path in Load(init).byPath {
        KeyOrderRepeated(entries);
      } else {
        KeyOrderNew(entries);
      }
    }
  }

  /** Loading a repeated path keeps the keys and their order. */
  lemma KeyOrderRepeated(entries: seq<HistoryEntry>)
    requires |entries| > 0
    requires InFirstOrder(entries[..|entries| - 1], Load(entries[..|entries| - 1]).keys)
    requires entries[|entries| - 1].path in Load(entries[..|entries| - 1]).byPath
    ensures InFirstOrder(entries, Load(entries).keys)
  {
    var init := entries[..|entries| - 1];
    assert Load(entries).keys == Load(init).keys;
    KeptFirsts(entries, Load(init).keys);
  }

  /** Loading a new path appends it, and it occurs after all the others. */
  lemma KeyOrderNew(entries: seq<HistoryEntry>)
    requires |entries| > 0
    requires InFirstOrder(entries[..|entries| - 1], Load(entries[..|entries| - 1]).keys)
    requires entries[|entries| - 1].path !in Load(entries[..|entries| - 1]).byPath
    ensures InFirstOrder(entries, Load(entries).keys)
  {
    var init, last := entries[..|entries| - 1], entries[|entries| - 1];
    var before := Load(init).keys;
    assert Load(entries).keys == before + [last.path];
    KeptFirsts(entries, before);
    LoadAt(init, last.path);
    FirstNew(entries);
    AppendedLast(entries, before);
  }

  /** Appending the path first found in the last entry to keys in first-occurrence order. */
  lemma AppendedLast(entries: seq<HistoryEntry>, before: seq<string>)
    requires |entries| > 0
    requires InFirstOrder(entries, before)
    requires forall i :: 0 <= i < |before| ==> FirstWithPath(entries, before[i]) < |entries| - 1
    requires FirstWithPath(entries, entries[|entries| - 1].path) == |entries| - 1
    ensures InFirstOrder(entries, before + [entries[|entries| - 1].path])
  {
    var keys := before + [entries[|entries| - 1].path];
    forall i, j | 0 <= i < j < |keys|
      ensures FirstWithPath(entries, keys[i]) < FirstWithPath(entries, keys[j])
    {
      assert keys[i] == before[i];
      if j < |before| {
        assert keys[j] == before[j];
      }
    }
    forall i | 0 <= i < |keys| ensures FirstWithPath(entries, keys[i]) < |entries| {
      if i < |before| {
        assert keys[i] == before[i];
      }
    }
  }

  /** The first positions of paths found before the last entry stay where they were. */
  lemma KeptFirsts(entries: seq<HistoryEntry>, before: seq<string>)
    requires |entries| > 0
    requires InFirstOrder(entries[..|entries| - 1], before)
    ensures InFirstOrder(entries, before)
    ensures forall i :: 0 <= i < |before| ==>
      FirstWithPath(entries, before[i]) == FirstWithPath(entries[..|entries| - 1], before[i])
    ensures forall i :: 0 <= i < |before| ==> FirstWithPath(entries, before[i]) < |entries| - 1
  {
    forall i | 0 <= i < |before|
      ensures FirstWithPath(entries, before[i]) == FirstWithPath(entries[..|entries| - 1], before[i])
    {
      FirstKept(entries, before[i]);
    }
  }

  /** A path found before the last entry keeps its first position. */
  lemma FirstKept(entries: seq<HistoryEntry>, k: string)
    requires |entries| > 0
    requires FirstWithPath(entries[..|entries| - 1], k) < |entries| - 1
    ensures FirstWithPath(entries, k) == FirstWithPath(entries[..|entries| - 1], k)
  {
  }

  /** A path that first occurs in the last entry is first found there. */
  lemma FirstNew(entries: seq<HistoryEntry>)
    requires |entries| > 0
    requires forall e :: e in entries[..|entries| - 1] ==> e.path != entries[|entries| - 1].path
    ensures FirstWithPath(entries, entries[|entries| - 1].path) == |entries| - 1
  {
  }

  /** Loading entries with pairwise different paths keeps their order. */
  lemma {:induction false} LoadKeepsOrder(entries: seq<HistoryEntry>)
    requires forall i, j :: 0 <= i < j < |entries| ==> entries[i].path != entries[j].path
    ensures |Load(entries).keys| == |entries|
    ensures forall i :: 0 <= i < |entries| ==> Load(entries).keys[i] == entries[i].path
    decreases |entries|
  {
    if |entries| > 0 {
      var init, last := entries[..|entries| - 1], entries[|entries| - 1];
      assert forall i :: 0 <= i < |init| ==> init[i] == entries[i];
      LoadKeepsOrder(init);
      LoadAt(init, last.path);
      var prior := Load(init);
      assert forall e :: e in init ==> e.path != last.path;
      assert Load(entries).keys == prior.keys + [last.path];
    }
  }

  /** The values of a map whose entries sit under their own paths carry the
      keys' paths, in key order. */
  lemma ValuesCarryKeys(t: Table)
    requires t.Valid() && Keyed(t)
    ensures forall i :: 0 <= i < |t.keys| ==> t.Values()[i].path == t.keys[i]
  {
  }

  /** A key of a map whose entries sit under their own paths is loaded back
      from the persisted values with its own value, and nothing else is. */
  lemma ReloadLookup(t: Table, k: string)
    requires t.Valid() && Keyed(t)
    ensures k in Load(t.Values()).byPath <==> k in t.byPath
    ensures k in t.byPath ==> Load(t.Values()).byPath[k] == t.byPath[k]
  {
    var vs := t.Values();
    ValuesCarryKeys(t);
    LoadAt(vs, k);
    if k in t.byPath {
      var i :| 0 <= i < |t.keys| && t.keys[i] == k;
      assert vs[i] in vs;
    }
    if LastWithPath(vs, k).Some? {
      var j :| 0 <= j < |vs| && vs[j] == LastWithPath(vs, k).value;
      assert t.keys[j] == k;
    }
  }

  /** Persisting the values and loading them back (history.ts:119-121 then
      115-117) reproduces the same map, in the same order, as long as every
      entry is stored under its own path. */
  lemma ReloadRoundTrip(t: Table)
    requires t.Valid() && Keyed(t)
    ensures Load(t.Values()) == t
  {
    var r := Load(t.Values());
    ValuesCarryKeys(t);
    LoadKeepsOrder(t.Values());
    assert r.keys == t.keys;
    forall k ensures (k in r.byPath <==> k in t.byPath) && (k in t.byPath ==> r.byPath[k] == t.byPath[k]) {
      ReloadLookup(t, k);
    }
    assert r.byPath == t.byPath;
  }

  /** `update(path, updater)` with an updater that renames the entry leaves
      it under its old key; persisting and reloading then files it under its
      new path and drops the old key. */
  lemma RenamingUpdateMovesOnReload(t: Table, p: string, updater: HistoryEntry -> HistoryEntry)
    requires t.Valid() && Keyed(t)
    requires p in t.byPath && updater(t.byPath[p]).path != p && updater(t.byPath[p]).path !in t.byPath
    ensures Update(t, AtPath(p), Some(updater)).Success?
    ensures var u := Update(t, AtPath(p), Some(updater)).value;
      && p in u.byPath && !Keyed(u)
      && var reloaded := Load(u.Values());
         && p !in reloaded.byPath
         && updater(t.byPath[p]).path in reloaded.byPath
         && reloaded.byPath[updater(t.byPath[p]).path] == updater(t.byPath[p])
  {
    var u := Update(t, AtPath(p), Some(updater)).value;
    var q := updater(t.byPath[p]).path;
    var vs := u.Values();
    LoadAt(vs, p);
    LoadAt(vs, q);
    var i :| 0 <= i < |u.keys| && u.keys[i] == p;
    assert vs[i] in vs && vs[i].path == q;
    assert u.byPath == t.byPath[p := updater(t.byPath[p])];
    forall j | 0 <= j < |vs| ensures vs[j].path != p {
      var key := u.keys[j];
      assert vs[j] == u.byPath[key];
      if key != p {
        assert key in t.byPath && u.byPath[key] == t.byPath[key];
      }
    }
    var found := LastWithPath(vs, q).value;
    var j :| 0 <= j < |vs| && vs[j] == found;
    assert vs[j] == u.byPath[u.keys[j]];
    assert u.keys[j] == p;
  }

  /** When every entry is stored under its own path, `findByPath` returns
      exactly the entry stored at that path, or nothing. */
  lemma FindByPathExact(host: Host, t: Table, path: string)
    requires t.Valid() && Keyed(t)
    ensures HistoryListing.FindIn(host, t.Values(), path)
         == if path in t.byPath then Some(t.byPath[path]) else None
  {
  }
}
