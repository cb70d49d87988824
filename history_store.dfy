/** The history store objects of src/typescript/history.ts: the Map-backed
    `NeutralinoStorage`, the write-swallowing `AnonymousStorage` decorator
    and the `History` front that toggles between them.

    Persistence is the ghost field `persisted`: the serialised values as the
    `history` blob holds them, rewritten by `UpdateHistory` after every
    successful mutation. */
module HistoryStore {
  import opened Outcomes
  import opened HistoryQuery
  import opened HistoryTable
  import HistorySort
  import HistoryListing

  class NeutralinoStorage {
    var keys: seq<string>
    var byPath: map<string, HistoryEntry>
    ghost var persisted: seq<HistoryEntry>

    ghost function Contents(): Table
      reads this
    {
      Table(keys, byPath)
    }

    ghost predicate Valid()
      reads this
    {
      Contents().Valid()
    }

    /** The effect `add` promises: refused on a present path with nothing
        changed, otherwise the table of `HistoryTable.Add`, persisted. */
    twostate predicate Added(entry: HistoryEntry, r: Outcome)
      reads this
      requires old(Valid())
    {
      var res := HistoryTable.Add(old(Contents()), entry);
      && (r.Done? <==> res.Success?)
      && (res.Failure? ==> r == Threw(res.error) && Contents() == old(Contents()) && persisted == old(persisted))
      && (res.Success? ==> Contents() == res.value && persisted == res.value.Values())
    }

    /** The effect `update` promises, in both shapes. */
    twostate predicate Updated(target: UpdateTarget, updater: Option<HistoryEntry -> HistoryEntry>, r: Outcome)
      reads this
      requires old(Valid())
    {
      var res := HistoryTable.Update(old(Contents()), target, updater);
      && (r.Done? <==> res.Success?)
      && (res.Failure? ==> r == Threw(res.error) && Contents() == old(Contents()) && persisted == old(persisted))
      && (res.Success? ==> Contents() == res.value && persisted == res.value.Values())
    }

    /** The effect `remove` promises: the path is gone, the rest persisted. */
    twostate predicate Removed(entry: HistoryEntry)
      reads this
      requires old(Valid())
    {
      var t := HistoryTable.Remove(old(Contents()), entry);
      Contents() == t && persisted == t.Values()
    }

    /** `new NeutralinoStorage(entries)` with the entries read from the blob. */
    constructor (entries: seq<HistoryEntry>)
      ensures Valid()
      ensures Contents() == Load(entries)
      ensures persisted == entries
    {
      keys := [];
      byPath := map[];
      persisted := entries;
      new;
      var i := 0;
      while i < |entries|
        invariant 0 <= i <= |entries|
        invariant Contents() == Load(entries[..i])
        invariant persisted == entries
      {
        assert entries[..i + 1][..i] == entries[..i];
        Put(entries[i].path, entries[i]);
        i := i + 1;
      }
      assert entries[..|entries|] == entries;
    }

    /** `historyByPath.set(k, v)`. */
    method Put(k: string, v: HistoryEntry)
      requires Valid()
      modifies this`keys, this`byPath
      ensures Valid()
      ensures Contents() == Set(old(Contents()), k, v)
    {
      if k !in byPath {
        keys := keys + [k];
      }
      byPath := byPath[k := v];
    }

    /** `updateHistory` (history.ts:119-121): write every value, in order. */
    method UpdateHistory()
      requires Valid()
      modifies this`persisted
      ensures persisted == Contents().Values()
    {
      persisted := Table(keys, byPath).Values();
    }

    /** `add` (history.ts:123-131). */
    method Add(entry: HistoryEntry) returns (r: Outcome)
      requires Valid()
      modifies this
      ensures Valid()
      ensures Added(entry, r)
    {
      if entry.path in byPath {
        return Threw(PlainError);
      }
      Put(entry.path, entry);
      UpdateHistory();
      r := Done;
    }

    /** `update` (history.ts:135-157), both overloads. */
    method Update(target: UpdateTarget, updater: Option<HistoryEntry -> HistoryEntry>) returns (r: Outcome)
      requires Valid()
      modifies this
      ensures Valid()
      ensures Updated(target, updater, r)
    {
      var path := TargetPath(target);
      if path !in byPath {
        return Threw(PlainError);
      }
      var entry;
      if target.AtPath? {
        if updater.None? {
          return Threw(PlainError);
        }
        entry := updater.value(byPath[path]);
      } else {
        entry := target.entry;
      }
      Put(path, entry);
      UpdateHistory();
      r := Done;
    }

    /** `remove` (history.ts:159-162). */
    method Remove(entry: HistoryEntry)
      requires Valid()
      modifies this
      ensures Valid()
      ensures Removed(entry)
    {
      byPath := byPath - {entry.path};
      keys := Without(keys, entry.path);
      UpdateHistory();
    }

    /** `list` (history.ts:164-179): copy the values, sort the copy in place,
        then filter it when options are given. */
    method List(host: Host, options: Option<ListOptions>) returns (r: Result<seq<HistoryEntry>, Thrown>)
      requires Valid()
      ensures r == HistoryListing.Listed(host, Contents().Values(), options)
    {
      var values := Table(keys, byPath).Values();
      var entries := new HistoryEntry[|values|](i requires 0 <= i < |values| => values[i]);
      assert entries[..] == values;
      HistorySort.SortInPlace(HistoryListing.OrderOf(options), entries);
      var sorted := entries[..];
      if options.None? {
        return Success(sorted);
      }
      var checks := CompileOptions(host, options.value);
      if checks.Failure? {
        return Failure(checks.error);
      }
      r := Success(HistoryListing.KeepAccepted(host, checks.value, sorted));
    }
  }

  /** The decorator of anonymous mode (history.ts:196-222): `add` and
      `update` resolve without doing anything, `remove` and `list` go to the
      wrapped store. */
  class AnonymousStorage {
    const storage: NeutralinoStorage

    constructor (storage: NeutralinoStorage)
      ensures this.storage == storage
    {
      this.storage := storage;
    }

    method Add(entry: HistoryEntry) returns (r: Outcome)
      ensures r == Done
    {
      r := Done;
    }

    method Update(target: UpdateTarget, updater: Option<HistoryEntry -> HistoryEntry>) returns (r: Outcome)
      ensures r == Done
    {
      r := Done;
    }

    method Remove(entry: HistoryEntry)
      requires storage.Valid()
      modifies storage
      ensures storage.Valid()
      ensures storage.Removed(entry)
    {
      storage.Remove(entry);
    }

    method List(host: Host, options: Option<ListOptions>) returns (r: Result<seq<HistoryEntry>, Thrown>)
      requires storage.Valid()
      ensures r == HistoryListing.Listed(host, storage.Contents().Values(), options)
    {
      r := storage.List(host, options);
    }
  }

  /** What `History.storage` holds once created: the store itself, or the
      decorator around it. */
  datatype Slot = Plain(store: NeutralinoStorage) | Anonymous(decorator: AnonymousStorage)

  /** The `History` front (history.ts:225-291). */
  class History {
    var storage: Slot

    /** The Map-backed store behind the front, wrapped or not. */
    function Base(): NeutralinoStorage
      reads this
    {
      match storage
      case Plain(store) => store
      case Anonymous(decorator) => decorator.storage
    }

    ghost predicate Valid()
      reads this, Base()
    {
      Base().Valid()
    }

    constructor (store: NeutralinoStorage)
      requires store.Valid()
      ensures Valid() && storage == Plain(store)
    {
      storage := Plain(store);
    }

    /** `setAnonymous` (history.ts:238-244): wrap unless already wrapped. */
    method SetAnonymous()
      requires Valid()
      modifies this
      ensures Valid()
      ensures storage.Anonymous? && Base() == old(Base())
      ensures old(storage).Anonymous? ==> storage == old(storage)
    {
      if storage.Plain? {
        var decorator := new AnonymousStorage(storage.store);
        storage := Anonymous(decorator);
      }
    }

    /** `unsetAnonymous` (history.ts:246-252): unwrap if wrapped. */
    method UnsetAnonymous()
      requires Valid()
      modifies this
      ensures Valid()
      ensures storage == Plain(old(Base()))
    {
      if storage.Anonymous? {
        storage := Plain(storage.decorator.storage);
      }
    }

    /** `History.add` (history.ts:254-258). */
    method Add(entry: HistoryEntry) returns (r: Outcome)
      requires Valid()
      modifies Base()
      ensures Valid()
      ensures storage.Anonymous? ==> r == Done && unchanged(Base())
      ensures storage.Plain? ==> Base().Added(entry, r)
    {
      match storage
      case Plain(store) => r := store.Add(entry);
      case Anonymous(decorator) => r := decorator.Add(entry);
    }

    /** `History.update` (history.ts:260-266). */
    method Update(target: UpdateTarget, updater: Option<HistoryEntry -> HistoryEntry>) returns (r: Outcome)
      requires Valid()
      modifies Base()
      ensures Valid()
      ensures storage.Anonymous? ==> r == Done && unchanged(Base())
      ensures storage.Plain? ==> Base().Updated(target, updater, r)
    {
      match storage
      case Plain(store) => r := store.Update(target, updater);
      case Anonymous(decorator) => r := decorator.Update(target, updater);
    }

    /** `History.remove` (history.ts:268-272): acts on the store in both modes. */
    method Remove(entry: HistoryEntry)
      requires Valid()
      modifies Base()
      ensures Valid()
      ensures Base().Removed(entry)
    {
      match storage
      case Plain(store) => store.Remove(entry);
      case Anonymous(decorator) => decorator.Remove(entry);
    }

    /** `History.list` (history.ts:274-278): reads the store in both modes. */
    method List(host: Host, options: Option<ListOptions>) returns (r: Result<seq<HistoryEntry>, Thrown>)
      requires Valid()
      ensures r == HistoryListing.Listed(host, Base().Contents().Values(), options)
    {
      match storage
      case Plain(store) => r := store.List(host, options);
      case Anonymous(decorator) => r := decorator.List(host, options);
    }

    /** `History.findByPath` (history.ts:280-290): the first entry of the
        exact-path listing. */
    method FindByPath(host: Host, path: string) returns (r: Option<HistoryEntry>)
      requires Valid()
      ensures r == HistoryListing.FindIn(host, Base().Contents().Values(), path)
    {
      var hists := List(host, Some(HistoryListing.ExactPath(path)));
      if hists.Success? && |hists.value| > 0 {
        r := Some(hists.value[0]);
      } else {
        r := None;
      }
    }
  }

  /** Anonymous mode toggles cleanly: setting it twice wraps once, and
      unsetting it restores the store that was in place before. */
  method ToggleRestoresStore(h: History)
    requires h.Valid() && h.storage.Plain?
    modifies h
    ensures h.Valid() && h.storage == old(h.storage)
  {
    h.SetAnonymous();
    ghost var once := h.storage;
    h.SetAnonymous();
    assert h.storage == once;
    h.UnsetAnonymous();
  }
}
