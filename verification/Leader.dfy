/** Waiting for a leader: a polling loop with a deadline. */
module Leader {
  import opened Badger

  /** Nanoseconds between polls. */
  const POLL_INTERVAL := 20_000_000

  datatype Node = Node(id: string, addr: string)

  datatype Outcome = Found(node: Node) | Closed | NoLeader

  /** now(0) is read before the loop and now(k + 1) at the deadline check of poll k;
      between two checks the loop sleeps for the interval. */
  ghost predicate Advances(now: nat -> int) {
    && now(0) <= now(1)
    && forall i: nat, j: nat :: 1 <= i && j == i + 1 ==> now(i) + POLL_INTERVAL <= now(j)
  }

  lemma {:induction false} ClockRuns(now: nat -> int, k: nat)
    requires Advances(now)
    ensures now(0) + k * POLL_INTERVAL <= now(k + 1)
  {
    if k > 0 {
      ClockRuns(now, k - 1);
      assert now(k) + POLL_INTERVAL <= now(k + 1);
    }
  }

  /** The number of polls a timeout allows: ceil(timeout / interval) + 1, or one. */
  function MaxPolls(timeout: int): int {
    if timeout <= 0 then 1 else (timeout + POLL_INTERVAL - 1) / POLL_INTERVAL + 1
  }

  lemma AnotherPollFits(timeout: int, now: nat -> int, k: nat)
    requires Advances(now) && now(k + 1) < now(0) + timeout
    ensures k + 1 < MaxPolls(timeout) && k * POLL_INTERVAL < timeout
  {
    ClockRuns(now, k);
    assert k * POLL_INTERVAL < timeout;
  }

  /** Poll k neither ends the wait nor meets the deadline. */
  ghost predicate GoesOn(now: nat -> int, open: nat -> bool, leader: nat -> Node, timeout: int, k: nat) {
    open(k) && leader(k).id == "" && now(k + 1) < now(0) + timeout
  }

  /** Poll k finds the node open or closed and this leader; an empty id is none. */
  method WaitForLeader(timeout: int, now: nat -> int, open: nat -> bool, leader: nat -> Node)
    returns (r: Outcome, polls: nat)
    requires Advances(now)
    ensures 1 <= polls <= MaxPolls(timeout)
    ensures 1 < polls ==> 0 < timeout && (polls - 2) * 20_000_000 < timeout
    ensures forall k: nat :: k + 1 < polls ==> GoesOn(now, open, leader, timeout, k)
    ensures r == if !open(polls - 1) then Closed
                 else if leader(polls - 1).id != "" then Found(leader(polls - 1)) else NoLeader
    ensures r.NoLeader? ==> now(0) + timeout <= now(polls)
  {
    var deadline := now(0) + timeout;
    polls := 0;
    while true
      invariant polls < MaxPolls(timeout)
      invariant 0 < polls ==> (polls - 1) * POLL_INTERVAL < timeout
      invariant forall k: nat :: k < polls ==> GoesOn(now, open, leader, timeout, k)
      decreases MaxPolls(timeout) - polls
    {
      var k := polls;
      if !open(k) { return Closed, k + 1; }
      if leader(k).id != "" { return Found(leader(k)), k + 1; }
      if !(now(k + 1) < deadline) { return NoLeader, k + 1; }
      AnotherPollFits(timeout, now, k);
      polls := k + 1;
    }
  }
}
