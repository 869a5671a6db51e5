// The growing circular deque of server/deque.c, under the message queues.

module Deque {
  import opened Wrappers
  import opened CircularArray

  /** What a deque stands for. The capacity is part of it, because the iterator
      behaves differently when the array is exactly full. */
  datatype Queue<T> = Queue(items: seq<T>, cap: nat)

  function Grown(cap: nat): nat {
    3 * cap / 2
  }

  function PushedL<T>(q: Queue<T>, x: T): Queue<T> {
    Queue([x] + q.items, if |q.items| >= q.cap then Grown(q.cap) else q.cap)
  }

  function PushedR<T>(q: Queue<T>, x: T): Queue<T> {
    Queue(q.items + [x], if |q.items| >= q.cap then Grown(q.cap) else q.cap)
  }

  function PoppedL<T>(q: Queue<T>): Queue<T>
    requires q.items != []
  {
    q.(items := q.items[1..])
  }

  /** What a complete iteration yields: an exactly full deque looks empty. */
  function Iterated<T>(q: Queue<T>): seq<T> {
    if |q.items| == q.cap then [] else q.items
  }

  predicate Fits<T>(q: Queue<T>) {
    16 <= q.cap && |q.items| <= q.cap
  }

  /** Undoing a pop: the recovery of a sync whose write failed. */
  lemma PopThenPush<T>(q: Queue<T>)
    requires Fits(q) && q.items != []
    ensures PushedL(PoppedL(q), q.items[0]) == q
  {
    assert [q.items[0]] + q.items[1..] == q.items;
  }

  class Deque<T(0)> {
    var arr: array<T>
    var cap: nat
    var len: nat
    var begin: nat
    var end: nat

    ghost predicate Valid()
      reads this
    {
      && arr.Length == cap && 16 <= cap && len <= cap
      && begin < cap
      && end == (if begin + len < cap then begin + len else begin + len - cap)
    }

    ghost function Value(): (q: Queue<T>)
      reads this, arr
      requires Valid()
      ensures Fits(q) && |q.items| == len && q.cap == cap
    {
      Queue(Circular(arr[..], begin, len), cap)
    }

    /** dime_deque_init. */
    constructor ()
      ensures Valid() && fresh(arr) && Value() == Queue([], 16)
    {
      len := 0;
      cap := 16;
      arr := new T[16];
      begin, end := 0, 0;
    }

    /** The growth step shared by both pushes: the part of a full array from
        `begin` on moves to the end of the larger array. */
    method MakeRoom()
      requires Valid()
      modifies this
      ensures Valid() && len == old(len) < cap && (arr == old(arr) || fresh(arr))
      ensures cap == (if old(len >= cap) then old(cap) + old(cap) / 2 else old(cap))
      ensures Value().items == old(Value().items)
    {
      if len < cap {
        return;
      }
      hide Circular;
      ghost var a := arr[..];
      var ncap := 3 * cap / 2;
      var narr := new T[ncap];
      forall j | 0 <= j < cap {
        narr[j] := arr[j];
      }
      ghost var oldBegin := begin;
      if end <= begin {
        var nbegin := begin + (ncap - cap);
        forall j | nbegin <= j < ncap {
          narr[j] := narr[j - (nbegin - begin)];
        }
        begin := nbegin;
      }
      arr := narr;
      cap := ncap;
      CircularMove(a, oldBegin, len, arr[..], begin);
    }

    /** dime_deque_pushl. */
    method PushL(p: T)
      requires Valid()
      modifies this, arr
      ensures Valid() && (arr == old(arr) || fresh(arr))
      ensures Value() == PushedL(old(Value()), p)
    {
      hide Circular;
      MakeRoom();
      ghost var a := arr[..];
      CircularPushL(a, begin, len, p);
      if begin == 0 {
        begin := cap;
      }
      begin := begin - 1;
      arr[begin] := p;
      len := len + 1;
      assert arr[..] == a[begin := p];
    }

    /** dime_deque_pushr. */
    method PushR(p: T)
      requires Valid()
      modifies this, arr
      ensures Valid() && (arr == old(arr) || fresh(arr))
      ensures Value() == PushedR(old(Value()), p)
    {
      hide Circular;
      MakeRoom();
      ghost var a, e := arr[..], end;
      CircularPushR(a, begin, len, p);
      arr[end] := p;
      end := end + 1;
      if end == cap {
        end := 0;
      }
      len := len + 1;
      assert arr[..] == a[e := p];
    }

    /** dime_deque_popl. */
    method PopL() returns (p: Option<T>)
      requires Valid()
      modifies this
      ensures Valid() && arr == old(arr)
      ensures p.None? <==> old(Value()).items == []
      ensures p.None? ==> Value() == old(Value())
      ensures p.Some? ==> p.value == old(Value()).items[0] && Value() == PoppedL(old(Value()))
    {
      if len == 0 {
        return None;
      }
      hide Circular;
      CircularPopL(arr[..], begin, len);
      p := Some(arr[begin]);
      begin := begin + 1;
      if begin == cap {
        begin := 0;
      }
      len := len - 1;
    }

    /** dime_deque_len. */
    method Len() returns (n: nat)
      requires Valid()
      ensures n == |Value().items|
    {
      n := len;
    }
  }

  /** dime_deque_iter_t. */
  class DequeIter<T(0)> {
    const deck: Deque<T>
    var i: int
    var val: T

    constructor (deck: Deque<T>)
      ensures this.deck == deck && i == deck.begin - 1
    {
      this.deck := deck;
      i := deck.begin - 1;
      val := *;
    }

    /** dime_deque_iter_next: stops when the index reaches `end`. */
    method Next() returns (more: bool)
      requires deck.Valid() && -1 <= i < deck.cap
      modifies this
      ensures 0 <= i < deck.cap && i == (if old(i) + 1 == deck.cap then 0 else old(i) + 1)
      ensures more <==> i != deck.end
      ensures more ==> val == deck.arr[i]
    {
      i := i + 1;
      if i == deck.cap {
        i := 0;
      }
      if i == deck.end {
        return false;
      }
      val := deck.arr[i];
      return true;
    }
  }

  /** A complete iteration. */
  method Iterate<T(0)>(deck: Deque<T>) returns (all: seq<T>)
    requires deck.Valid()
    ensures all == Iterated(deck.Value())
  {
    hide Circular;
    var it := new DequeIter(deck);
    ghost var items := deck.Value().items;
    all := [];
    while true
      invariant it.deck == deck && fresh(it)
      invariant |all| <= |items| && (|items| == deck.cap ==> all == [])
      invariant |items| < deck.cap ==> all == items[..|all|]
      invariant -1 <= it.i < deck.cap
      invariant it.i == (if deck.begin + |all| <= deck.cap then deck.begin + |all| - 1
                                                           else deck.begin + |all| - 1 - deck.cap)
      decreases |items| - |all|
    {
      var more := it.Next();
      if !more {
        break;
      }
      CircularAt(deck.arr[..], deck.begin, deck.len, |all|);
      all := all + [it.val];
    }
  }
}
