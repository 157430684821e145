/** The bounded double-ended queue behind both undo logs (the `fixed_deque` crate), as pure
    functions on the sequence of stored items, oldest first. Only the behaviour its callers rely
    on is modelled: `push_back` on a full deque drops and returns the oldest item, and
    `pop_back` returns the newest one. */
module Deque {
  import opened Wrappers

  /** `push_back`: append `x`; when the deque already holds `limit` items, the oldest one is
      evicted and returned. The items before and after, with the evicted one, are exactly the
      old items followed by `x`. */
  function PushBack<T>(items: seq<T>, limit: nat, x: T): (r: (seq<T>, Option<T>))
    requires 0 < limit && |items| <= limit
    ensures |r.0| == if |items| < limit then |items| + 1 else limit
    ensures r.1.Some? <==> |items| == limit
    ensures (if r.1.Some? then [r.1.value] else []) + r.0 == items + [x]
  {
    if |items| == limit then (items[1..] + [x], Some(items[0])) else (items + [x], None)
  }

  /** `pop_back`: remove and return the newest item, or `None` on an empty deque. */
  function PopBack<T>(items: seq<T>): (r: (seq<T>, Option<T>))
    ensures r.1.None? <==> items == []
    ensures r.1.None? ==> r.0 == items
    ensures r.1.Some? ==> r.0 + [r.1.value] == items
  {
    if items == [] then (items, None) else (items[..|items| - 1], Some(items[|items| - 1]))
  }

  /** Last in, first out: popping right after a push returns the pushed item and leaves what
      the deque held before, less the evicted item if the push found it full. */
  lemma PopAfterPush<T>(items: seq<T>, limit: nat, x: T)
    requires 0 < limit && |items| <= limit
    ensures PopBack(PushBack(items, limit, x).0).1 == Some(x)
    ensures PopBack(PushBack(items, limit, x).0).0 == if |items| < limit then items else items[1..]
  {
    var pushed := PushBack(items, limit, x).0;
    assert pushed[..|pushed| - 1] == if |items| < limit then items else items[1..];
  }
}
