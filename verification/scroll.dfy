/**
 The stall detector that ends `scrape_tweets`.

 After each round the harvester reads the page's vertical scroll offset. The
 counter `scroll_attempts` goes up by one when the offset equals the one read
 in the previous round and drops back to zero otherwise; the loop stops once
 the counter reaches `scroll_limit`. Before the first round no offset has been
 read (`last_position` is `None`), so the first round never counts as a stall.
 The browser is abstracted away: the offsets it reports form a sequence, one
 per round.
 */
module Scroll {

  import opened Wrappers

  /** `scroll_attempts` and `last_position` between two rounds. */
  datatype StallState = StallState(attempts: int, last: Option<int>)

  /** The state before the first round. */
  const Initial: StallState := StallState(0, None)

  /** The update at the end of a round that read offset `curr`. */
  function Step(s: StallState, curr: int): (r: StallState)
  {
    StallState(if s.last == Some(curr) then s.attempts + 1 else 0, Some(curr))
  }

  /**
   The state after one round per offset, in order, ignoring the stop test.
   The counter never exceeds the number of rounds minus one: in particular,
   after the first round it is zero.
   */
  function After(offsets: seq<int>): (s: StallState)
    ensures 0 <= s.attempts
    ensures s.attempts < |offsets| || (offsets == [] && s.attempts == 0)
    ensures s.last == if offsets == [] then None else Some(offsets[|offsets| - 1])
  {
    if offsets == [] then Initial
    else Step(After(offsets[..|offsets| - 1]), offsets[|offsets| - 1])
  }

  /** Round `j` (counting from zero) exists, is not the first, and read the offset read before it. */
  predicate Stalled(offsets: seq<int>, j: int)
  {
    0 < j < |offsets| && offsets[j - 1] == offsets[j]
  }

  /** Every round `j` in `lo .. hi - 1` stalled. */
  predicate Repeats(offsets: seq<int>, lo: int, hi: int)
  {
    forall j :: lo <= j < hi ==> Stalled(offsets, j)
  }

  /**
   The loop's exit test holds after the first `n` rounds: either the limit is
   not positive, or each of the last `limit` of those rounds repeated the
   offset of the round before it.
   */
  predicate Reached(offsets: seq<int>, limit: int, n: int)
  {
    0 <= n <= |offsets| && (limit <= 0 || Repeats(offsets, n - limit, n))
  }

  /** Round `n` (counting from one) extends the state of the rounds before it. */
  lemma AfterSnoc(offsets: seq<int>, n: nat)
    requires n < |offsets|
    ensures After(offsets[..n + 1]) == Step(After(offsets[..n]), offsets[n])
  {
    assert offsets[..n + 1][..n] == offsets[..n];
  }

  /**
   Round `k` adds one to the counter exactly when it stalled, that is when it
   read the offset of the round before it, and otherwise resets it; either way
   its offset becomes the last one seen. Round 0 has no round before it, so it
   always resets.
   */
  lemma RoundUpdate(offsets: seq<int>, k: nat)
    requires k < |offsets|
    ensures After(offsets[..k + 1]).attempts == if Stalled(offsets, k) then After(offsets[..k]).attempts + 1 else 0
    ensures After(offsets[..k + 1]).last == Some(offsets[k])
  {
    AfterSnoc(offsets, k);
  }

  /**
   The counter is the length of the run of repeated offsets that ends the
   sequence: every round in the run repeated its predecessor, and the run
   either reaches back to the first round or starts right after a change.
   */
  lemma {:induction false} CounterIsRepeatRun(offsets: seq<int>)
    ensures Repeats(offsets, |offsets| - After(offsets).attempts, |offsets|)
    ensures var c := After(offsets).attempts;
            c + 1 >= |offsets| || offsets[|offsets| - c - 2] != offsets[|offsets| - c - 1]
    decreases |offsets|
  {
    if offsets != [] {
      var n := |offsets|;
      var p := offsets[..n - 1];
      CounterIsRepeatRun(p);
      var c' := After(p).attempts;
      if p != [] && p[n - 2] == offsets[n - 1] {
        assert After(offsets).attempts == c' + 1;
        forall j | n - (c' + 1) <= j < n
          ensures Stalled(offsets, j)
        {
          if j < n - 1 {
            assert Stalled(p, j);
          }
        }
      } else {
        assert After(offsets).attempts == 0;
      }
    }
  }

  /** The counter has reached the limit after `n` rounds exactly when `Reached` holds. */
  lemma CounterReaches(offsets: seq<int>, limit: int, n: nat)
    requires n <= |offsets|
    ensures After(offsets[..n]).attempts >= limit <==> Reached(offsets, limit, n)
  {
    var p := offsets[..n];
    CounterIsRepeatRun(p);
    var c := After(p).attempts;
    if limit > 0 {
      if c >= limit {
        forall j | n - limit <= j < n
          ensures Stalled(offsets, j)
        {
          assert Stalled(p, j);
        }
      } else {
        var j := n - c - 1;
        assert !Stalled(p, j);
        assert !Stalled(offsets, j);
      }
    }
  }

  /**
   A round that starts below the limit is not a stopping point, and its update
   keeps the counter between zero and the limit.
   */
  lemma CounterStep(offsets: seq<int>, limit: int, n: nat)
    requires n < |offsets| && After(offsets[..n]).attempts < limit
    ensures !Reached(offsets, limit, n)
    ensures After(offsets[..n + 1]) == Step(After(offsets[..n]), offsets[n])
    ensures 0 <= After(offsets[..n + 1]).attempts <= limit
  {
    CounterReaches(offsets, limit, n);
    AfterSnoc(offsets, n);
  }

  /** The loop from round `n` on, given the state `s` the first `n` rounds left behind. */
  function StopFrom(offsets: seq<int>, limit: int, n: nat, s: StallState): (r: Option<nat>)
    requires n <= |offsets| && s == After(offsets[..n])
    requires forall m :: 0 <= m < n ==> !Reached(offsets, limit, m)
    ensures r.Some? ==> Reached(offsets, limit, r.value) && forall m :: 0 <= m < r.value ==> !Reached(offsets, limit, m)
    ensures r.None? <==> forall m :: 0 <= m <= |offsets| ==> !Reached(offsets, limit, m)
    decreases |offsets| - n
  {
    CounterReaches(offsets, limit, n);
    if s.attempts >= limit then Some(n)
    else if n == |offsets| then None
    else
      AfterSnoc(offsets, n);
      StopFrom(offsets, limit, n + 1, Step(s, offsets[n]))
  }

  /**
   `scrape_tweets` as a function of the offsets the page reports: the number
   of rounds it runs before its exit test holds, or `None` when the offsets
   run out first. The result is the least round count whose last `limit`
   rounds were all stalls.
   */
  function StopRound(offsets: seq<int>, limit: int): (r: Option<nat>)
    ensures r.Some? ==> Reached(offsets, limit, r.value) && forall m :: 0 <= m < r.value ==> !Reached(offsets, limit, m)
    ensures r.None? <==> forall m :: 0 <= m <= |offsets| ==> !Reached(offsets, limit, m)
  {
    StopFrom(offsets, limit, 0, Initial)
  }

  /** Any round count at which the exit test first holds is the one `StopRound` gives. */
  lemma FirstReachedIsStopRound(offsets: seq<int>, limit: int, n: nat)
    requires Reached(offsets, limit, n)
    requires forall m :: 0 <= m < n ==> !Reached(offsets, limit, m)
    ensures StopRound(offsets, limit) == Some(n)
  {
  }

  /**
   Where the loop leaves off after `n` rounds, none of which met the exit
   test: if the counter has reached the limit, `n` is the stop round; if the
   offsets are used up below the limit, there is none.
   */
  lemma LoopExit(offsets: seq<int>, limit: int, n: nat)
    requires n <= |offsets|
    requires forall m :: 0 <= m < n ==> !Reached(offsets, limit, m)
    ensures After(offsets[..n]).attempts >= limit ==> StopRound(offsets, limit) == Some(n)
    ensures After(offsets[..n]).attempts < limit && n == |offsets| ==> StopRound(offsets, limit) == None
  {
    CounterReaches(offsets, limit, n);
    if After(offsets[..n]).attempts >= limit {
      FirstReachedIsStopRound(offsets, limit, n);
    }
  }

  /** When the loop stops, the counter is exactly the limit (zero for a non-positive limit). */
  lemma ExitCounter(offsets: seq<int>, limit: int, n: nat)
    requires StopRound(offsets, limit) == Some(n)
    ensures After(offsets[..n]).attempts == if limit > 0 then limit else 0
  {
    CounterReaches(offsets, limit, n);
    if limit > 0 {
      assert !Stalled(offsets, -limit);
      assert n > 0;
      CounterReaches(offsets, limit, n - 1);
      AfterSnoc(offsets, n - 1);
    } else {
      assert Reached(offsets, limit, 0);
    }
  }

  /** A non-positive limit stops the loop before its first round. */
  lemma NonPositiveLimitRunsNothing(offsets: seq<int>, limit: int)
    requires limit <= 0
    ensures StopRound(offsets, limit) == Some(0)
  {
    assert Reached(offsets, limit, 0);
  }

  /**
   A change of offset at round `k` restarts the count: the loop cannot stop
   at any round after `k` before `limit` further stalls.
   */
  lemma ChangeRestartsCount(offsets: seq<int>, limit: int, k: nat, n: nat)
    requires 0 < k < |offsets| && offsets[k - 1] != offsets[k]
    requires limit > 0 && StopRound(offsets, limit) == Some(n) && k < n
    ensures k + limit < n
  {
    assert !Stalled(offsets, k);
  }

  /**
   The offsets 0, 100, 100, 100 with limit 2: round one compares against no
   previous offset, round two moves, rounds three and four stall, so the loop
   runs four rounds.
   */
  lemma FourRoundsExample()
    ensures StopRound([0, 100, 100, 100], 2) == Some(4)
  {
    var offsets := [0, 100, 100, 100];
    assert Reached(offsets, 2, 4);
    assert !Stalled(offsets, -2) && !Stalled(offsets, -1) && !Stalled(offsets, 0) && !Stalled(offsets, 1);
    assert forall m :: 0 <= m < 4 ==> !Reached(offsets, 2, m);
  }
}
