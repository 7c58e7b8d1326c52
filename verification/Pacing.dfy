// How fast the talkback loop can send, whatever the event loop does to its wake-ups.
module Pacing {

  /**
   * The clock readings of one loop iteration: when the packet goes out, when the remaining sleep is
   * computed, and when `next_at` is reset if there is nothing left to sleep.
   */
  datatype Iteration = Iteration(sentAt: real, checkedAt: real, resetAt: real)

  /** The loop sleeps for the rest of the interval only if some of it is left. */
  predicate Sleeps(nextAt: real, interval: real, it: Iteration) {
    nextAt + interval - it.checkedAt > 0.0
  }

  /** `next_at` for the following iteration. */
  function Advance(nextAt: real, interval: real, it: Iteration): real {
    if Sleeps(nextAt, interval, it) then nextAt + interval else it.resetAt
  }

  /**
   * The clock is monotone and no timer fires early: an iteration starts no earlier than `nextAt`,
   * whether the loop slept until then or read the clock itself.
   */
  predicate Possible(nextAt: real, interval: real, run: seq<Iteration>)
    decreases |run|
  {
    run == [] ||
    (nextAt <= run[0].sentAt <= run[0].checkedAt <= run[0].resetAt &&
     Possible(Advance(nextAt, interval, run[0]), interval, run[1..]))
  }

  /** From the start of a run, the m-th packet needs m intervals. */
  lemma {:induction false} PacketIsNotEarly(nextAt: real, interval: real, run: seq<Iteration>, m: nat)
    requires interval > 0.0 && Possible(nextAt, interval, run) && m < |run|
    ensures run[m].sentAt >= nextAt + m as real * interval
    decreases m
  {
    if m == 0 {
    } else {
      PacketIsNotEarly(Advance(nextAt, interval, run[0]), interval, run[1..], m - 1);
      assert m as real * interval == (m - 1) as real * interval + interval;
    }
  }

  /**
   * Packet j and a later packet m are at least m - j - 1 intervals apart, however late the loop was
   * woken in between: a delay is made up by at most one packet.
   */
  lemma {:induction false} RateIsBounded(nextAt: real, interval: real, run: seq<Iteration>, j: nat, m: nat)
    requires interval > 0.0 && Possible(nextAt, interval, run) && j < m < |run|
    ensures run[m].sentAt - run[j].sentAt >= (m - j - 1) as real * interval
    decreases j
  {
    var next := Advance(nextAt, interval, run[0]);
    if j == 0 {
      assert next >= run[0].sentAt;
      PacketIsNotEarly(next, interval, run[1..], m - 1);
    } else {
      RateIsBounded(next, interval, run[1..], j - 1, m - 1);
    }
  }

  /** The bound is reached: a run that starts one interval late sends two packets at once. */
  lemma CatchUpPacket(interval: real)
    requires interval > 0.0
    ensures var late := Iteration(interval, interval, interval);
            Possible(0.0, interval, [late, late]) && late.sentAt - late.sentAt == (1 - 0 - 1) as real * interval
  {
    var late := Iteration(interval, interval, interval);
    assert Advance(0.0, interval, late) == interval;
    assert Possible(interval, interval, [late]) by {
      assert Possible(Advance(interval, interval, late), interval, []);
      assert [late][1..] == [];
    }
    assert [late, late][1..] == [late];
  }

  /** The readings of every iteration are in order, and its check comes before its interval is over. */
  ghost predicate Punctual(nextAt: real, interval: real, run: seq<Iteration>) {
    forall k :: 0 <= k < |run| ==>
      run[k].sentAt <= run[k].checkedAt <= run[k].resetAt && run[k].checkedAt < nextAt + (k + 1) as real * interval
  }

  ghost predicate OnePerInterval(nextAt: real, interval: real, run: seq<Iteration>) {
    forall k :: 0 <= k < |run| ==> nextAt + k as real * interval <= run[k].sentAt
  }

  lemma NextInterval(start: real, interval: real, k: nat)
    ensures start + (k + 1) as real * interval == (start + interval) + k as real * interval
  {
  }

  lemma RestShifts(nextAt: real, interval: real, run: seq<Iteration>)
    requires run != []
    ensures Punctual(nextAt, interval, run) ==> Punctual(nextAt + interval, interval, run[1..])
    ensures OnePerInterval(nextAt, interval, run) <==>
      nextAt <= run[0].sentAt && OnePerInterval(nextAt + interval, interval, run[1..])
  {
    var (rest, next) := (run[1..], nextAt + interval);
    forall k | 0 <= k < |rest|
      ensures rest[k] == run[k + 1] && nextAt + (k + 1) as real * interval == next + k as real * interval
      ensures nextAt + (k + 2) as real * interval == next + (k + 1) as real * interval
    {
      NextInterval(nextAt, interval, k);
      NextInterval(nextAt, interval, k + 1);
    }
    if OnePerInterval(nextAt, interval, run) {
      forall k | 0 <= k < |rest| ensures next + k as real * interval <= rest[k].sentAt {
        assert nextAt + (k + 1) as real * interval <= run[k + 1].sentAt;
      }
    }
    if nextAt <= run[0].sentAt && OnePerInterval(next, interval, rest) {
      forall k | 0 <= k < |run| ensures nextAt + k as real * interval <= run[k].sentAt {
        if k > 0 {
          assert next + (k - 1) as real * interval <= rest[k - 1].sentAt;
        }
      }
    }
  }

  /**
   * A loop that is woken in time keeps its beat without drift: exactly the runs whose k-th packet goes
   * out in the k-th interval are possible.
   */
  lemma {:induction false} BeatIsExact(nextAt: real, interval: real, run: seq<Iteration>)
    requires Punctual(nextAt, interval, run)
    ensures Possible(nextAt, interval, run) <==> OnePerInterval(nextAt, interval, run)
    decreases |run|
  {
    if run == [] {
    } else {
      assert Advance(nextAt, interval, run[0]) == nextAt + interval;
      RestShifts(nextAt, interval, run);
      BeatIsExact(nextAt + interval, interval, run[1..]);
      hide Advance, OnePerInterval;
    }
  }

  /** After a late iteration the beat starts anew where the clock is read. */
  lemma LateRestarts(nextAt: real, interval: real, late: Iteration, rest: seq<Iteration>)
    requires nextAt <= late.sentAt <= late.checkedAt <= late.resetAt && late.checkedAt >= nextAt + interval
    ensures Possible(nextAt, interval, [late] + rest) <==> Possible(late.resetAt, interval, rest)
  {
    assert ([late] + rest)[1..] == rest;
  }
}
