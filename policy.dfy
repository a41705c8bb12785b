/**
 * The policy the three lock handles share: the blocking `lock` retries a call that failed
 * with EINTR, at most three calls in all, and `locked?` narrows the outcome of one F_TEST
 * call to a boolean.
 */
module Policy {
  import opened Ruby
  import opened Native
  import Errno

  /** `attempts == 3 ? raise(ex) : retry`: the third EINTR is raised. */
  const MaxAttempts: nat := 3

  predicate Interrupted(o: Outcome)
  {
    o == Err(Errno.EINTR)
  }

  /**
   * How many lockf(3) calls a blocking lock that gives up after `limit` calls makes when
   * `tries` calls have already failed with EINTR and call number from + tries is the next
   * one. The handles use limit = MaxAttempts.
   */
  function CallsFrom(oracle: Oracle, from: nat, tries: nat, limit: nat): (n: nat)
    requires tries < limit
    ensures tries < n <= limit
    decreases limit - tries
  {
    if Interrupted(oracle(from + tries)) && tries + 1 < limit then CallsFrom(oracle, from, tries + 1, limit)
    else tries + 1
  }

  /** How many lockf(3) calls the blocking lock makes when its first call is call number `from`. */
  function Calls(oracle: Oracle, from: nat, limit: nat): (n: nat)
    requires 0 < limit
    ensures 1 <= n <= limit
  {
    CallsFrom(oracle, from, 0, limit)
  }

  /** The outcome the blocking lock reports: that of its last call. */
  function Final(oracle: Oracle, from: nat, limit: nat): Outcome
    requires 0 < limit
  {
    oracle(from + Calls(oracle, from, limit) - 1)
  }

  /**
   * CallsFrom, characterised without recursion: n calls are made exactly when every call
   * before the n-th was interrupted and the n-th either was not or was the last allowed.
   */
  lemma {:induction false} CallsFromIff(oracle: Oracle, from: nat, tries: nat, limit: nat, n: nat)
    requires tries < limit
    ensures CallsFrom(oracle, from, tries, limit) == n <==>
      tries < n <= limit &&
      (forall k :: from + tries <= k < from + n - 1 ==> Interrupted(oracle(k))) &&
      (n < limit ==> !Interrupted(oracle(from + n - 1)))
    decreases limit - tries
  {
    if Interrupted(oracle(from + tries)) && tries + 1 < limit {
      CallsFromIff(oracle, from, tries + 1, limit, n);
      if n == tries + 1 {
        // CallsFrom answers more than tries + 1, and n = tries + 1 < limit has an interrupted n-th call.
        assert oracle(from + n - 1) == oracle(from + tries);
      }
    } else {
      if tries < n <= limit && n != tries + 1 {
        // the call numbered from + tries would have to be interrupted, and n would exceed limit
        assert from + tries < from + n - 1;
        assert tries + 1 == limit || !Interrupted(oracle(from + tries));
      }
    }
  }

  /** The number of calls lock makes, characterised (both directions) by the oracle alone. */
  lemma CallsIff(oracle: Oracle, from: nat, limit: nat, n: nat)
    requires 0 < limit
    ensures Calls(oracle, from, limit) == n <==>
      1 <= n <= limit &&
      (forall k :: from <= k < from + n - 1 ==> Interrupted(oracle(k))) &&
      (n < limit ==> !Interrupted(oracle(from + n - 1)))
  {
    CallsFromIff(oracle, from, 0, limit, n);
  }

  /** EINTR comes out of lock exactly when all `limit` calls it may make were interrupted. */
  lemma RaisesInterruptIff(oracle: Oracle, from: nat, limit: nat)
    requires 0 < limit
    ensures Interrupted(Final(oracle, from, limit)) <==>
      forall k :: from <= k < from + limit ==> Interrupted(oracle(k))
  {
    var n := Calls(oracle, from, limit);
    CallsIff(oracle, from, limit, n);
    if forall k :: from <= k < from + limit ==> Interrupted(oracle(k)) {
      assert Interrupted(oracle(from + n - 1));
    }
  }

  /** Whatever lock reports, every call before its last one failed with EINTR. */
  lemma EarlierCallsInterrupted(oracle: Oracle, from: nat, limit: nat)
    requires 0 < limit
    ensures forall k :: from <= k < from + Calls(oracle, from, limit) - 1 ==> Interrupted(oracle(k))
  {
    CallsIff(oracle, from, limit, Calls(oracle, from, limit));
  }

  /**
   * The first call that was not interrupted ends lock, and its outcome (a success or any
   * other errno) is what lock reports.
   */
  lemma StopsAtFirstUninterrupted(oracle: Oracle, from: nat, limit: nat, i: nat)
    requires i < limit
    requires forall k :: from <= k < from + i ==> Interrupted(oracle(k))
    requires !Interrupted(oracle(from + i))
    ensures Calls(oracle, from, limit) == i + 1 && Final(oracle, from, limit) == oracle(from + i)
  {
    CallsIff(oracle, from, limit, i + 1);
  }

  /** The errno values `rescue Errno::EACCES, Errno::EAGAIN` catches. */
  predicate HeldElsewhere(e: Exception)
  {
    e.SystemCallError? && (e.errno == Errno.EACCES || e.errno == Errno.EAGAIN)
  }

  /**
   * `locked?`: the F_TEST call's result narrowed to a boolean. A return is false, EACCES or
   * EAGAIN is true, and every other exception propagates unchanged.
   */
  function LockedOf<T>(r: Result<T>): (b: Result<bool>)
    ensures b == Return(false) <==> r.Return?
    ensures b == Return(true) <==> r.Raise? && HeldElsewhere(r.error)
    ensures b.Raise? <==> r.Raise? && !HeldElsewhere(r.error)
    ensures b.Raise? ==> b.error == r.error
  {
    match r
    case Return(_) => Return(false)
    case Raise(e) => if HeldElsewhere(e) then Return(true) else Raise(e)
  }
}
