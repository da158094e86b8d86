/**
 The per-source rate limiter of scrapers/base.py.

 `acquire` holds a lock from its first clock reading to its last, so queued acquires run one
 after another.  An acquire is described by the clock at its first reading and by how much
 later than asked it read the clock again (`late`): the sleep lasts at least as long as asked.
 */
module RateLimiting {
  import opened Common

  datatype Turn = Turn(now: real, late: real)

  /** When an acquire completes, given the completion before it. */
  function Completion(interval: real, last: real, a: Turn): real {
    MaxReal(a.now, last + interval) + a.late
  }

  /** The completion times of a queue of acquires. */
  function Completions(interval: real, last: real, queue: seq<Turn>): (done: seq<real>)
    ensures |done| == |queue|
    decreases |queue|
  {
    if queue == [] then []
    else
      var first := Completion(interval, last, queue[0]);
      [first] + Completions(interval, first, queue[1..])
  }

  predicate Sleeps(queue: seq<Turn>) {
    forall i | 0 <= i < |queue| :: queue[i].late >= 0.0
  }

  /** Any two completions are at least `interval` apart for each step between them. */
  lemma {:induction false} SpacedApart(interval: real, last: real, queue: seq<Turn>, i: nat, j: nat)
    requires Sleeps(queue) && i < j < |queue|
    ensures var done := Completions(interval, last, queue);
            done[j] - done[i] >= (j - i) as real * interval
    decreases j
  {
    var first := Completion(interval, last, queue[0]);
    if i > 0 {
      SpacedApart(interval, first, queue[1..], i - 1, j - 1);
    } else {
      NotBefore(interval, first, queue[1..], j - 1);
    }
  }

  lemma {:induction false} NotBefore(interval: real, last: real, queue: seq<Turn>, j: nat)
    requires Sleeps(queue) && j < |queue|
    ensures Completions(interval, last, queue)[j] >= last + (j + 1) as real * interval
    decreases j
  {
    var first := Completion(interval, last, queue[0]);
    if j > 0 {
      NotBefore(interval, first, queue[1..], j - 1);
      assert (j + 1) as real * interval == j as real * interval + interval;
    }
  }

  /** The acquires that complete in the window from `start`, `length` long, both ends included. */
  function InWindow(done: seq<real>, start: real, length: real): set<int> {
    set i | 0 <= i < |done| && start <= done[i] <= start + length
  }

  lemma {:induction false} SpanBound(indices: set<int>, low: int, high: int)
    requires forall i | i in indices :: low <= i < high
    ensures low <= high ==> |indices| <= high - low
    ensures low > high ==> indices == {}
    decreases high - low
  {
    if low < high {
      SpanBound(indices - {high - 1}, low, high - 1);
      assert indices <= (indices - {high - 1}) + {high - 1};
      if high - 1 in indices {
        assert indices == (indices - {high - 1}) + {high - 1};
      } else {
        assert indices == indices - {high - 1};
      }
    } else {
      assert forall i | i in indices :: false;
      assert indices == {};
    }
  }

  lemma Quotient(steps: int, interval: real, length: real)
    requires interval > 0.0 && steps as real * interval <= length
    ensures steps <= (length / interval).Floor
  {
    var q := length / interval;
    assert q * interval == length;
    assert (q - steps as real) * interval >= 0.0;
    assert q >= steps as real by {
      if q < steps as real {
        NegativeTimes(q - steps as real, interval);
      }
    }
  }

  lemma NegativeTimes(a: real, b: real)
    requires a < 0.0 && b > 0.0
    ensures a * b < 0.0
  {
  }

  lemma FewSteps(interval: real, last: real, queue: seq<Turn>, i: nat, j: nat, length: real)
    requires Sleeps(queue) && interval > 0.0 && length >= 0.0 && i <= j < |queue|
    requires Completions(interval, last, queue)[j] - Completions(interval, last, queue)[i] <= length
    ensures j - i <= (length / interval).Floor
  {
    if i < j {
      SpacedApart(interval, last, queue, i, j);
    }
    Quotient(j - i, interval, length);
  }

  /** Any window of a given length holds at most floor(length / interval) + 1 completions. */
  lemma WindowBound(interval: real, last: real, queue: seq<Turn>, start: real, length: real)
    requires Sleeps(queue) && interval > 0.0 && length >= 0.0
    ensures |InWindow(Completions(interval, last, queue), start, length)| <= (length / interval).Floor + 1
  {
    var done := Completions(interval, last, queue);
    var w := InWindow(done, start, length);
    var most := (length / interval).Floor;
    Quotient(0, interval, length);
    var low := 0;
    while low < |done| && low !in w
      invariant 0 <= low <= |done| && forall i | 0 <= i < low :: i !in w
    {
      low := low + 1;
    }
    forall i | i in w ensures low <= i < low + most + 1 {
      FewSteps(interval, last, queue, low, i, length);
    }
    SpanBound(w, low, low + most + 1);
  }

  // ---------------------------------------------------------------- the bound is tight

  lemma {:induction false} BackToBack(interval: real, last: real, queue: seq<Turn>, j: nat)
    requires j < |queue|
    requires forall i | 0 <= i < |queue| :: queue[i].late == 0.0 && queue[i].now <= last
    requires interval >= 0.0
    ensures Completions(interval, last, queue)[j] == last + (j + 1) as real * interval
    decreases j
  {
    if j > 0 {
      BackToBack(interval, Completion(interval, last, queue[0]), queue[1..], j - 1);
      assert (j + 1) as real * interval == j as real * interval + interval;
    }
  }

  lemma {:induction false} FullSpan(n: nat, all: set<int>)
    requires forall i :: i in all <==> 0 <= i < n
    ensures |all| == n
  {
    if n > 0 {
      FullSpan(n - 1, all - {n - 1});
      assert all == (all - {n - 1}) + {n - 1};
    } else {
      assert forall i | i in all :: false;
      assert all == {};
    }
  }

  lemma Scale(a: real, b: real, interval: real)
    requires a <= b && interval > 0.0
    ensures a * interval <= b * interval
  {
  }

  lemma Fits(i: nat, most: int, interval: real, length: real)
    requires interval > 0.0 && i <= most && most as real <= length / interval
    ensures interval <= (i + 1) as real * interval <= interval + length
  {
    Scale(0.0, i as real, interval);
    Scale(i as real, length / interval, interval);
    assert (length / interval) * interval == length;
    assert (i + 1) as real * interval == i as real * interval + interval;
  }

  /** Turns queued together, with exact sleeps, fill the window: the bound cannot be lowered. */
  lemma WindowBoundIsReached(interval: real, last: real, length: real)
    requires interval > 0.0 && length >= 0.0
    ensures exists queue, start :: Sleeps(queue)
              && |InWindow(Completions(interval, last, queue), start, length)| == (length / interval).Floor + 1
  {
    var most := (length / interval).Floor;
    Quotient(0, interval, length);
    var queue := seq(most + 1, (i: int) => Turn(last, 0.0));
    var start := last + interval;
    var done := Completions(interval, last, queue);
    forall i | 0 <= i < |done| ensures start <= done[i] <= start + length {
      BackToBack(interval, last, queue, i);
      Fits(i, most, interval, length);
    }
    FullSpan(most + 1, InWindow(done, start, length));
    assert Sleeps(queue);
  }

  // ---------------------------------------------------------------- the object

  lemma {:induction false} CompletionsSnoc(interval: real, last: real, queue: seq<Turn>, t: Turn)
    ensures Completions(interval, last, queue + [t])
            == Completions(interval, last, queue) + [Completion(interval, LastOf(interval, last, queue), t)]
    decreases |queue|
  {
    if queue == [] {
      assert queue + [t] == [t];
      assert Completions(interval, Completion(interval, last, t), []) == [];
    } else {
      assert (queue + [t])[1..] == queue[1..] + [t];
      CompletionsSnoc(interval, Completion(interval, last, queue[0]), queue[1..], t);
    }
  }

  function LastOf(interval: real, last: real, queue: seq<Turn>): real {
    if queue == [] then last else Completions(interval, last, queue)[|queue| - 1]
  }

  class RateLimiter {
    const interval: real
    var last: real
    ghost var queue: seq<Turn>

    ghost predicate Valid()
      reads this
    {
      Sleeps(queue) && last == LastOf(interval, 0.0, queue)
    }

    constructor (intervalMs: int)
      ensures Valid() && queue == []
      ensures interval == intervalMs as real / 1000.0
    {
      interval := intervalMs as real / 1000.0;
      last := 0.0;
      queue := [];
    }

    /**
     `now` is the first clock reading; the second one, after the sleep if there is one, comes
     `late` seconds later than asked.
     */
    method Acquire(now: real, late: real)
      requires Valid() && late >= 0.0
      modifies this
      ensures Valid() && queue == old(queue) + [Turn(now, late)]
      ensures Completions(interval, 0.0, queue) == Completions(interval, 0.0, old(queue)) + [last]
      ensures last >= now && last - old(last) >= interval
      ensures late == 0.0 ==> last == MaxReal(now, old(last) + interval)
    {
      var wait := interval - (now - last);
      var clock := now;
      if wait > 0.0 {
        clock := clock + wait;
      }
      CompletionsSnoc(interval, 0.0, queue, Turn(now, late));
      last := clock + late;
      queue := queue + [Turn(now, late)];
    }
  }
}
