/** The browser source cache: a bounded memory map written through to a backing map. Objects are
    named by their storage key, and a value that is written and read back is unchanged. */
module SourceCache {
  import opened Wire
  import opened Sets

  /** Which call to the browser's storage, or to the caller's materializer, fails, if any. */
  datatype Failure = NoFailure | DescriptorStore | MaterialStore | MaterialLookup | Materialization

  datatype Answer<T> = Ok(value: T) | Err(failure: Failure)

  datatype Stored<V> = Stored(key: string, value: V)

  /** The last value stored under a key. */
  function LastStored<V>(history: seq<Stored<V>>, key: string): Option<V> {
    if history == [] then None
    else if history[|history| - 1].key == key then Some(history[|history| - 1].value)
    else LastStored(history[..|history| - 1], key)
  }

  /** What happens to the memory: an entry is put in, or one is dropped to make room. */
  datatype MemoryEvent<V> = Put(key: string, value: V) | Dropped(key: string)

  /** The value last put under a key, if the key was not dropped since. */
  function HeldSince<V>(trace: seq<MemoryEvent<V>>, key: string): Option<V> {
    if trace == [] then None
    else
      var last := trace[|trace| - 1];
      if last.key != key then HeldSince(trace[..|trace| - 1], key)
      else if last.Put? then Some(last.value) else None
  }

  /** The memory is exactly what was put and not dropped since. */
  ghost predicate Remembers<V(!new)>(memory: map<string, V>, trace: seq<MemoryEvent<V>>) {
    forall key :: HeldSince(trace, key) == if key in memory then Some(memory[key]) else None
  }

  lemma PutIsRemembered<V(!new)>(memory: map<string, V>, trace: seq<MemoryEvent<V>>, key: string, value: V)
    requires Remembers(memory, trace)
    ensures Remembers(memory[key := value], trace + [Put(key, value)])
  {
    assert (trace + [Put(key, value)])[..|trace|] == trace;
  }

  lemma DroppedIsForgotten<V(!new)>(memory: map<string, V>, trace: seq<MemoryEvent<V>>, key: string)
    requires Remembers(memory, trace)
    ensures Remembers(memory - {key}, trace + [Dropped(key)])
  {
    var dropped: MemoryEvent<V> := Dropped(key);
    assert (trace + [dropped])[..|trace|] == trace;
  }

  function Limit(entries: nat): (limit: nat)
    ensures limit == entries || (entries == 0 && limit == 1)
  {
    if entries == 0 then 1 else entries
  }

  /** Everything in memory is the last value stored under its key. */
  ghost predicate Current<V>(memory: map<string, V>, history: seq<Stored<V>>) {
    forall key :: key in memory ==> LastStored(history, key) == Some(memory[key])
  }

  /** The backing map is exactly the last values stored. */
  ghost predicate Backs<V(!new)>(backing: map<string, V>, history: seq<Stored<V>>) {
    forall key :: LastStored(history, key) == if key in backing then Some(backing[key]) else None
  }

  lemma StoreKeepsCurrent<V>(memory: map<string, V>, history: seq<Stored<V>>, key: string, value: V)
    requires Current(memory, history)
    ensures Current(memory[key := value], history + [Stored(key, value)])
  {
    var more := history + [Stored(key, value)];
    assert more[..|history|] == history;
  }

  lemma StoreKeepsBacks<V(!new)>(backing: map<string, V>, history: seq<Stored<V>>, key: string, value: V)
    requires Backs(backing, history)
    ensures Backs(backing[key := value], history + [Stored(key, value)])
  {
    var more := history + [Stored(key, value)];
    assert more[..|history|] == history;
  }

  class WebSourceCache<V(!new)> {
    const memoryCacheEntries: nat
    const dedupEnabled: bool
    const persistent: bool            // the browser build has the backing map, the native one has not
    var memoryObjects: map<string, V>
    var backing: map<string, V>
    ghost var history: seq<Stored<V>>    // the stores that succeeded
    ghost var trace: seq<MemoryEvent<V>> // what was put into the memory and dropped from it

    ghost predicate Valid()
      reads this
    {
      && |memoryObjects| <= Limit(memoryCacheEntries)
      && Current(memoryObjects, history) && Remembers(memoryObjects, trace)
      && if persistent then Backs(backing, history) else backing == map[]
    }

    constructor (memoryCacheEntries: nat, dedupEnabled: bool, persistent: bool)
      ensures Valid() && history == [] && trace == []
      ensures this.memoryCacheEntries == memoryCacheEntries && this.dedupEnabled == dedupEnabled &&
              this.persistent == persistent
    {
      this.memoryCacheEntries, this.dedupEnabled, this.persistent := memoryCacheEntries, dedupEnabled, persistent;
      memoryObjects, backing, history, trace := map[], map[], [], [];
    }

    /** A reload opens the database that earlier stores have filled. */
    constructor Reopen(memoryCacheEntries: nat, dedupEnabled: bool, backing: map<string, V>,
            ghost history: seq<Stored<V>>)
      requires Backs(backing, history)
      ensures Valid() && persistent && this.backing == backing && this.history == history
      ensures memoryObjects == map[] && trace == []
      ensures this.memoryCacheEntries == memoryCacheEntries && this.dedupEnabled == dedupEnabled
    {
      this.memoryCacheEntries, this.dedupEnabled, this.persistent := memoryCacheEntries, dedupEnabled, true;
      memoryObjects, this.backing, this.history, trace := map[], backing, history, [];
    }

    /** Something is dropped only when the memory is full, and then one entry that it holds. */
    static ghost predicate OneDropAtMost(memory: map<string, V>, entries: nat, drops: seq<MemoryEvent<V>>) {
      drops == [] || (|memory| >= entries && |drops| == 1 && drops[0].Dropped? && drops[0].key in memory)
    }

    /** Makes room by dropping any one entry, then inserts. */
    method InsertObjectMemory(key: string, cached: V)
      requires |memoryObjects| <= Limit(memoryCacheEntries) && Remembers(memoryObjects, trace)
      modifies `memoryObjects, `trace
      ensures Remembers(memoryObjects, trace)
      ensures exists drops :: OneDropAtMost(old(memoryObjects), memoryCacheEntries, drops) &&
                              trace == old(trace) + drops + [Put(key, cached)]
      ensures |memoryObjects| <= Limit(memoryCacheEntries)
      ensures key in memoryObjects && memoryObjects[key] == cached
      ensures |old(memoryObjects)| < memoryCacheEntries ==> memoryObjects == old(memoryObjects)[key := cached]
      ensures forall k :: k in memoryObjects && k != key ==>
              k in old(memoryObjects) && memoryObjects[k] == old(memoryObjects)[k]
      ensures |old(memoryObjects).Keys - memoryObjects.Keys| <= 1
    {
      hide Remembers, HeldSince;
      ghost var dropped := {};
      ghost var drops: seq<MemoryEvent<V>> := [];
      if |memoryObjects| >= memoryCacheEntries {
        if memoryObjects != map[] {
          assert memoryObjects.Keys != {};
          var firstKey :| firstKey in memoryObjects.Keys;
          DroppedIsForgotten(memoryObjects, trace, firstKey);
          memoryObjects := memoryObjects - {firstKey};
          dropped, drops := {firstKey}, [Dropped(firstKey)];
        }
      }
      assert |memoryObjects| == |old(memoryObjects)| - |dropped|;
      assert OneDropAtMost(old(memoryObjects), memoryCacheEntries, drops);
      assert trace + [] == trace;
      PutIsRemembered(memoryObjects, trace + drops, key, cached);
      trace := trace + drops + [Put(key, cached)];
      memoryObjects := memoryObjects[key := cached];
      assert old(memoryObjects).Keys - memoryObjects.Keys <= dropped;
      SubsetSize(old(memoryObjects).Keys - memoryObjects.Keys, dropped);
    }

    /** A store is all or nothing for later lookups. */
    method StoreChpmtObject(key: string, cached: V, failure: Failure) returns (r: Answer<()>)
      requires Valid()
      modifies this
      ensures Valid()
      ensures r.Ok? <==> !persistent || (failure != DescriptorStore && failure != MaterialStore)
      ensures r.Err? ==> r.failure == failure && unchanged(this)
      ensures r.Ok? ==> history == old(history) + [Stored(key, cached)]
      ensures r.Ok? ==> key in memoryObjects && memoryObjects[key] == cached && HeldSince(trace, key) == Some(cached)
      ensures r.Ok? ==> exists drops :: OneDropAtMost(old(memoryObjects), memoryCacheEntries, drops) &&
                                        trace == old(trace) + drops + [Put(key, cached)]
    {
      hide HeldSince, LastStored, OneDropAtMost;
      if persistent {
        if failure == DescriptorStore || failure == MaterialStore {
          return Err(failure);
        }
        StoreKeepsBacks(backing, history, key, cached);
        backing := backing[key := cached];
      }
      StoreKeepsCurrent(memoryObjects, history, key, cached);
      InsertObjectMemory(key, cached);
      history := history + [Stored(key, cached)];
      r := Ok(());
    }

    /** Whatever was evicted, a lookup finds the last value stored. */
    method LookupObjectMaterial(key: string, failure: Failure) returns (r: Answer<Option<V>>)
      requires Valid()
      modifies this
      ensures Valid() && history == old(history) && backing == old(backing)
      ensures r.Ok? && persistent ==> r.value == LastStored(history, key)
      ensures r.Ok? && !persistent ==> r.value == HeldSince(old(trace), key)
      ensures r.Ok? && !persistent ==> r.value == None || r.value == LastStored(history, key)
      ensures r.Ok? && HeldSince(old(trace), key).Some? ==> r.value == HeldSince(old(trace), key) && unchanged(this)
      ensures r.Ok? && r.value.Some? ==> key in memoryObjects && memoryObjects[key] == r.value.value
      ensures r.Ok? ==> r.value == (if key in old(memoryObjects) then Some(old(memoryObjects)[key])
                                    else if key in backing then Some(backing[key]) else None)
      ensures r.Err? <==> persistent && failure == MaterialLookup && key !in old(memoryObjects)
      ensures r.Err? ==> r.failure == failure && unchanged(this)
    {
      hide HeldSince, LastStored, OneDropAtMost;
      if key in memoryObjects {
        return Ok(Some(memoryObjects[key]));
      }
      if persistent && failure == MaterialLookup {
        return Err(failure);
      }
      if key in backing {
        InsertObjectMemory(key, backing[key]);
        return Ok(Some(backing[key]));
      }
      r := Ok(None);
    }

    /** With deduplication on, an object once stored is not made again; a fresh one is stored before it
        is returned. `materialized` is what the caller's materializer yields, if it does not fail. */
    method LookupOrMaterialize(key: string, materialized: Option<V>, failure: Failure) returns (r: Answer<(V, bool)>)
      requires Valid()
      modifies this
      ensures Valid()
      ensures !dedupEnabled ==> history == old(history)
      ensures !dedupEnabled ==>
                r == if materialized.Some? then Ok((materialized.value, false)) else Err(Materialization)
      ensures r.Ok? && r.value.1 ==>
                dedupEnabled && history == old(history) && LastStored(history, key) == Some(r.value.0)
      ensures r.Ok? && !r.value.1 ==> materialized == Some(r.value.0)
      ensures r.Ok? && dedupEnabled ==> LastStored(history, key) == Some(r.value.0)
      ensures r.Ok? && dedupEnabled && persistent ==> (r.value.1 <==> LastStored(old(history), key).Some?)
      ensures r.Ok? && dedupEnabled && !persistent ==> (r.value.1 <==> HeldSince(old(trace), key).Some?)
      ensures r.Ok? && dedupEnabled ==> HeldSince(trace, key) == Some(r.value.0)
      ensures r.Err? ==> history == old(history)
      ensures r.Err? ==> r.failure == failure || (r.failure == Materialization && materialized.None?)
    {
      if dedupEnabled {
        var found := LookupObjectMaterial(key, failure);
        if found.Err? {
          return Err(found.failure);
        }
        if found.value.Some? {
          return Ok((found.value.value, true));
        }
      }
      if materialized.None? {
        return Err(Materialization);
      }
      if dedupEnabled {
        var stored := StoreChpmtObject(key, materialized.value, failure);
        if stored.Err? {
          return Err(stored.failure);
        }
      }
      r := Ok((materialized.value, false));
    }
  }
}
