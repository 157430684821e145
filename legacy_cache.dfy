/** The optional change cache of the flat-vector design (arboreal/src/cache.rs). A graph that
    implements `ChangeCache` decides through `mut_history` whether it keeps a log at all; here
    that choice is the field `deque`, `None` when the log is disabled. */
module LegacyCache {
  import opened Wrappers
  import opened Deque
  import opened LegacyComponents

  /** `HistoryDeque::default` keeps at most this many changes. */
  const DEFAULT_HISTORY_LIMIT: nat := 100

  /** A bounded log of changes, newest last, or no log. */
  class ChangeCache<I, TN, TE> {
    /** The maximum length of the log. */
    const limit: nat
    /** What `mut_history` points to: the logged changes, oldest first, or `None`. */
    var deque: Option<seq<GraphChange<I, TN, TE>>>

    /** A log is never longer than its limit. */
    ghost predicate Valid()
      reads this`deque
    {
      0 < limit && (deque.Some? ==> |deque.value| <= limit)
    }

    /** `HistoryDeque::new(limit)`: an empty log of the given capacity. */
    constructor New(limit: nat)
      requires 0 < limit
      ensures Valid() && this.limit == limit && deque == Some([])
    {
      this.limit := limit;
      deque := Some([]);
    }

    /** `HistoryDeque::default`: an empty log of capacity 100. */
    constructor Default()
      ensures Valid() && limit == DEFAULT_HISTORY_LIMIT && deque == Some([])
    {
      limit := DEFAULT_HISTORY_LIMIT;
      deque := Some([]);
    }

    /** An implementor whose `mut_history` returns `None`. */
    constructor Disabled()
      ensures Valid() && deque == None
    {
      limit := DEFAULT_HISTORY_LIMIT;
      deque := None;
    }

    /** `clear_history`: erase every entry of an enabled log; a disabled one stays disabled. */
    method ClearHistory()
      requires Valid()
      modifies this`deque
      ensures Valid()
      ensures old(deque).Some? ==> deque == Some([])
      ensures old(deque).None? ==> deque == None
    {
      if deque.Some? {
        deque := Some([]);
      }
    }

    /** `register_change`: append to an enabled log, returning the evicted oldest entry when it
        was full; a disabled log ignores the change and returns `None`. */
    method RegisterChange(change: GraphChange<I, TN, TE>) returns (firstIn: Option<GraphChange<I, TN, TE>>)
      requires Valid()
      modifies this`deque
      ensures Valid()
      ensures old(deque).Some? ==>
        deque == Some(PushBack(old(deque).value, limit, change).0) && firstIn == PushBack(old(deque).value, limit, change).1
      ensures old(deque).None? ==> deque == None && firstIn == None
    {
      if deque.Some? {
        var (items, first) := PushBack(deque.value, limit, change);
        deque := Some(items);
        return first;
      }
      return None;
    }

    /** `pop_change`: remove and return the newest entry of an enabled log (`None` when it is
        empty); a disabled log returns `None`. */
    method PopChange() returns (c: Option<GraphChange<I, TN, TE>>)
      requires Valid()
      modifies this`deque
      ensures Valid()
      ensures old(deque).Some? ==> deque == Some(PopBack(old(deque).value).0) && c == PopBack(old(deque).value).1
      ensures old(deque).None? ==> deque == None && c == None
    {
      if deque.Some? {
        var (items, last) := PopBack(deque.value);
        deque := Some(items);
        return last;
      }
      return None;
    }
  }

  /** Registering then popping on an enabled log returns the registered change and leaves the
      log as it was, less the evicted entry when it was full. */
  method RegisterThenPop<I, TN, TE>(cache: ChangeCache<I, TN, TE>, change: GraphChange<I, TN, TE>)
      returns (firstIn: Option<GraphChange<I, TN, TE>>, popped: Option<GraphChange<I, TN, TE>>)
    requires cache.Valid() && cache.deque.Some?
    modifies cache`deque
    ensures popped == Some(change)
    ensures |old(cache.deque.value)| < cache.limit ==> firstIn == None && cache.deque == old(cache.deque)
    ensures |old(cache.deque.value)| == cache.limit ==>
      firstIn == Some(old(cache.deque.value)[0]) && cache.deque == Some(old(cache.deque.value)[1..])
  {
    ghost var items := cache.deque.value;
    firstIn := cache.RegisterChange(change);
    popped := cache.PopChange();
    PopAfterPush(items, cache.limit, change);
  }
}
