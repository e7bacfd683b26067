/**
  The sorted-array priority queue of src/shared/priority-queue.ts.

  The backing array `heap` holds `(value, priority)` pairs ordered by
  priority, largest first.  `insert` keeps that order by placing a new
  entry in front of the first entry whose priority is less than or equal
  to its own, so among equal priorities the newest entry is in front and
  the oldest is at the back.  `shift` takes from the front (highest
  priority), `pop` from the back (lowest priority, oldest among equals).
*/
module PriorityQueue {
  import opened Wrappers

  /** `Tuple<T>` of the source: a value with its priority. */
  type Entry<T> = (T, int)

  /** Priorities never increase from front to back. */
  predicate Descending<T>(h: seq<Entry<T>>)
  {
    forall i, j :: 0 <= i < j < |h| ==> h[i].1 >= h[j].1
  }

  /** The index at which the rebuild loop of `insert` places an entry of
      priority `p`: the first entry whose priority is at most `p`, or the
      end when there is none. */
  function FirstAtMost<T>(h: seq<Entry<T>>, p: int): (k: nat)
    ensures k <= |h|
    ensures forall i :: 0 <= i < k ==> h[i].1 > p
    ensures k < |h| ==> h[k].1 <= p
  {
    if h == [] then 0
    else if h[0].1 <= p then 0
    else 1 + FirstAtMost(h[1..], p)
  }

  /** `s` with `x` placed at index `k`. */
  function InsertAt<X>(s: seq<X>, k: nat, x: X): (r: seq<X>)
    requires k <= |s|
    ensures |r| == |s| + 1 && r[k] == x
    ensures r[..k] == s[..k] && r[k + 1..] == s[k..]
  {
    s[..k] + [x] + s[k..]
  }

  /** The queue after inserting `(v, p)`: the old entries in their order,
      with the new one in front of the first entry of priority at most `p`. */
  function Inserted<T>(h: seq<Entry<T>>, v: T, p: int): seq<Entry<T>>
  {
    InsertAt(h, FirstAtMost(h, p), (v, p))
  }

  /** The fast path of `insert` (an empty queue, or a last entry of higher
      priority: push at the back) agrees with the rebuild loop on an
      ordered queue. */
  lemma FastPathAgrees<T>(h: seq<Entry<T>>, v: T, p: int)
    requires Descending(h)
    requires |h| == 0 || h[|h| - 1].1 > p
    ensures Inserted(h, v, p) == h + [(v, p)]
  {
  }

  /** When the fast path is not taken the rebuild loop always finds a place
      before the end, so the new entry is never dropped. */
  lemma SlowPathPlaces<T>(h: seq<Entry<T>>, p: int)
    requires |h| > 0 && h[|h| - 1].1 <= p
    ensures FirstAtMost(h, p) < |h|
  {
  }

  /** Inserting keeps the queue ordered. */
  lemma InsertedDescending<T>(h: seq<Entry<T>>, v: T, p: int)
    requires Descending(h)
    ensures Descending(Inserted(h, v, p))
  {
    var k := FirstAtMost(h, p);
    var r := Inserted(h, v, p);
    forall i, j | 0 <= i < j < |r| ensures r[i].1 >= r[j].1 {
      var oi := if i < k then i else i - 1;
      var oj := if j <= k then j else j - 1;
      if i == k {
        assert r[j] == h[j - 1];
      } else if j == k {
        assert r[i] == h[i];
      } else {
        assert r[i] == h[oi] && r[j] == h[oj] && oi <= oj;
      }
    }
  }

  /** Inserting adds exactly the new entry: the length grows by one, the
      contents gain `(v, p)` once, and taking the new entry out again
      gives back the old entries in their original order. */
  lemma InsertedContents<T>(h: seq<Entry<T>>, v: T, p: int)
    ensures |Inserted(h, v, p)| == |h| + 1
    ensures multiset(Inserted(h, v, p)) == multiset(h) + multiset{(v, p)}
    ensures var k := FirstAtMost(h, p);
      Inserted(h, v, p)[k] == (v, p) &&
      Inserted(h, v, p)[..k] + Inserted(h, v, p)[k + 1..] == h
  {
    var k := FirstAtMost(h, p);
    var r := Inserted(h, v, p);
    assert h == h[..k] + h[k..];
    calc {
      multiset(r);
      multiset(h[..k] + [(v, p)] + h[k..]);
      multiset(h[..k]) + multiset{(v, p)} + multiset(h[k..]);
      multiset(h[..k] + h[k..]) + multiset{(v, p)};
    }
  }

  /** Stable tie-break: the new entry goes in front of every existing entry
      of the same priority, and behind every entry of higher priority. */
  lemma InsertedAheadOfEqual<T>(h: seq<Entry<T>>, v: T, p: int)
    requires Descending(h)
    ensures var k := FirstAtMost(h, p);
      (forall j :: 0 <= j < |h| && h[j].1 == p ==> k <= j) &&
      (forall j :: 0 <= j < |h| && h[j].1 > p ==> j < k)
  {
  }

  /** The entry at the back has the least priority and the entry at the
      front the greatest. */
  lemma EndsAreExtreme<T>(h: seq<Entry<T>>)
    requires Descending(h) && |h| > 0
    ensures forall i :: 0 <= i < |h| ==> h[|h| - 1].1 <= h[i].1 <= h[0].1
  {
  }

  /** Insertion stamps run against the queue order among equal priorities:
      of two entries of the same priority the one nearer the front was
      inserted later. */
  ghost predicate NewestFirst<T>(h: seq<Entry<T>>, stamps: seq<nat>)
    requires |stamps| == |h|
  {
    forall i, j :: 0 <= i < j < |h| && h[i].1 == h[j].1 ==> stamps[i] > stamps[j]
  }

  /** Placing the new entry with a stamp later than every existing stamp,
      at the same index as the entry itself, keeps the newest-first order. */
  lemma InsertedNewestFirst<T>(h: seq<Entry<T>>, stamps: seq<nat>, v: T, p: int, clock: nat)
    requires |stamps| == |h| && Descending(h) && NewestFirst(h, stamps)
    requires forall i :: 0 <= i < |stamps| ==> stamps[i] < clock
    ensures var k := FirstAtMost(h, p);
      NewestFirst(Inserted(h, v, p), InsertAt(stamps, k, clock))
  {
    var k := FirstAtMost(h, p);
    var r := Inserted(h, v, p);
    var s := InsertAt(stamps, k, clock);
    InsertedAheadOfEqual(h, v, p);
    forall i, j | 0 <= i < j < |r| && r[i].1 == r[j].1 ensures s[i] > s[j] {
      if i == k {
        assert r[j] == h[j - 1] && s[j] == stamps[j - 1];
      } else if j == k {
        assert false;
      } else {
        var oi := if i < k then i else i - 1;
        var oj := if j < k then j else j - 1;
        assert r[i] == h[oi] && r[j] == h[oj] && s[i] == stamps[oi] && s[j] == stamps[oj];
      }
    }
  }

  /** A new stamp no earlier than every old one bounds them all. */
  lemma InsertAtBounded(stamps: seq<nat>, k: nat, clock: nat)
    requires k <= |stamps|
    requires forall i :: 0 <= i < |stamps| ==> stamps[i] < clock
    ensures forall i :: 0 <= i < |stamps| + 1 ==> InsertAt(stamps, k, clock)[i] < clock + 1
  {
    var s := InsertAt(stamps, k, clock);
    forall i | 0 <= i < |s| ensures s[i] < clock + 1 {
      if i < k {
        assert s[i] == stamps[i];
      } else if i > k {
        assert s[i] == stamps[i - 1];
      }
    }
  }

  /** Inserting, with the next stamp at the same index, keeps the queue's
      whole invariant. */
  lemma InsertedKeepsInvariant<T>(h: seq<Entry<T>>, stamps: seq<nat>, v: T, p: int, clock: nat)
    requires |stamps| == |h| && Descending(h) && NewestFirst(h, stamps)
    requires forall i :: 0 <= i < |stamps| ==> stamps[i] < clock
    ensures var r, s := Inserted(h, v, p), InsertAt(stamps, FirstAtMost(h, p), clock);
      |s| == |r| && Descending(r) && NewestFirst(r, s) &&
      forall i :: 0 <= i < |s| ==> s[i] < clock + 1
  {
    InsertedNewestFirst(h, stamps, v, p, clock);
    InsertAtBounded(stamps, FirstAtMost(h, p), clock);
    InsertedDescending(h, v, p);
  }

  /** Of all entries of the least priority, the one at the back of an
      ordered, newest-first queue is the earliest inserted. */
  lemma BackIsOldestOfLeast<T>(h: seq<Entry<T>>, stamps: seq<nat>)
    requires |stamps| == |h| > 0 && Descending(h) && NewestFirst(h, stamps)
    ensures forall i :: 0 <= i < |h| ==> h[|h| - 1].1 <= h[i].1
    ensures forall i :: 0 <= i < |h| - 1 && h[i].1 == h[|h| - 1].1 ==> stamps[i] > stamps[|h| - 1]
  {
  }

  class PriorityQueue<T> {
    /** The backing array, largest priority first. */
    var heap: seq<Entry<T>>
    /** Insertion stamps of the entries of `heap`, index for index. */
    ghost var stamps: seq<nat>
    /** The number of insertions so far. */
    ghost var clock: nat

    ghost predicate Valid()
      reads this
    {
      |stamps| == |heap| &&
      Descending(heap) &&
      NewestFirst(heap, stamps) &&
      (forall i :: 0 <= i < |stamps| ==> stamps[i] < clock)
    }

    constructor ()
      ensures Valid() && heap == []
    {
      heap := [];
      stamps := [];
      clock := 0;
    }

    method Insert(val: T, priority: int)
      requires Valid()
      modifies this
      ensures Valid()
      ensures heap == Inserted(old(heap), val, priority)
      ensures stamps == InsertAt(old(stamps), FirstAtMost(old(heap), priority), old(clock))
      ensures clock == old(clock) + 1
    {
      ghost var h, st, k := heap, stamps, FirstAtMost(heap, priority);
      if |heap| == 0 || heap[|heap| - 1].1 > priority {
        FastPathAgrees(heap, val, priority);
        heap := heap + [(val, priority)];
      } else {
        SlowPathPlaces(heap, priority);
        heap := Rebuild(val, priority);
      }
      assert heap == Inserted(h, val, priority);
      InsertedKeepsInvariant(h, st, val, priority, clock);
      stamps := InsertAt(st, k, clock);
      clock := clock + 1;
    }

    /** The rebuild loop of `insert`: copy the entries into a new array,
        placing `(val, priority)` once, in front of the first entry of
        priority at most `priority`.  When no such entry exists the loop
        never places it. */
    method Rebuild(val: T, priority: int) returns (tmp: seq<Entry<T>>)
      ensures FirstAtMost(heap, priority) < |heap| ==> tmp == Inserted(heap, val, priority)
      ensures FirstAtMost(heap, priority) == |heap| ==> tmp == heap
    {
      ghost var k := FirstAtMost(heap, priority);
      tmp := [];
      var found := false;
      for i := 0 to |heap|
        invariant found <==> k < i
        invariant tmp == if found then heap[..k] + [(val, priority)] + heap[k..i] else heap[..i]
      {
        var p := heap[i].1;
        if priority >= p && !found {
          tmp := tmp + [(val, priority)];
          found := true;
        }
        tmp := tmp + [heap[i]];
      }
      assert heap[k..|heap|] == heap[k..];
      assert heap[..|heap|] == heap;
    }

    /** Takes the front entry: one of the greatest priority. */
    method Shift() returns (r: Option<T>)
      requires Valid()
      modifies this
      ensures Valid() && clock == old(clock)
      ensures old(heap) == [] ==> r == None && heap == [] && stamps == old(stamps)
      ensures old(heap) != [] ==>
        r == Some(old(heap)[0].0) && heap == old(heap)[1..] && stamps == old(stamps)[1..] &&
        (forall i :: 0 <= i < |old(heap)| ==> old(heap)[i].1 <= old(heap)[0].1)
    {
      if heap == [] {
        r := None;
      } else {
        EndsAreExtreme(heap);
        r := Some(heap[0].0);
        heap := heap[1..];
        stamps := stamps[1..];
      }
    }

    /** Takes the back entry: one of the least priority, and of those the
        earliest inserted. */
    method Pop() returns (r: Option<T>)
      requires Valid()
      modifies this
      ensures Valid() && clock == old(clock)
      ensures old(heap) == [] ==> r == None && heap == [] && stamps == old(stamps)
      ensures old(heap) != [] ==>
        var n := |old(heap)| - 1;
        r == Some(old(heap)[n].0) && heap == old(heap)[..n] && stamps == old(stamps)[..n] &&
        (forall i :: 0 <= i < n ==> old(heap)[n].1 <= old(heap)[i].1) &&
        (forall i :: 0 <= i < n && old(heap)[i].1 == old(heap)[n].1 ==> old(stamps)[i] > old(stamps)[n])
    {
      if heap == [] {
        r := None;
      } else {
        BackIsOldestOfLeast(heap, stamps);
        var n := |heap| - 1;
        r := Some(heap[n].0);
        heap := heap[..n];
        stamps := stamps[..n];
      }
    }

    function Priorities(): (r: seq<int>)
      reads this
      ensures |r| == |heap| && forall i :: 0 <= i < |r| ==> r[i] == heap[i].1
    {
      seq(|heap|, i requires 0 <= i < |heap| reads this => heap[i].1)
    }

    function Values(): (r: seq<T>)
      reads this
      ensures |r| == |heap| && forall i :: 0 <= i < |r| ==> r[i] == heap[i].0
    {
      seq(|heap|, i requires 0 <= i < |heap| reads this => heap[i].0)
    }

    function Size(): (n: nat)
      reads this
      ensures n == |heap|
    {
      |heap|
    }

    function ToArray(): (r: seq<T>)
      reads this
      ensures |r| == Size() && r == Values()
    {
      seq(|heap|, i requires 0 <= i < |heap| reads this => heap[i].0)
    }
  }

  /** Equal priorities come out of the back oldest first, and the front
      holds the greatest priority. */
  method TieBreak()
  {
    var q := new PriorityQueue<char>();
    q.Insert('a', 1);
    q.Insert('b', 1);
    q.Insert('c', 2);
    assert q.heap == [('c', 2), ('b', 1), ('a', 1)];
    var first := q.Pop();
    assert first == Some('a');
    var top := q.Shift();
    assert top == Some('c');
    var second := q.Pop();
    assert second == Some('b');
    var none := q.Pop();
    assert none == None;
  }
}
