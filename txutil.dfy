/** The retry executor and the transaction coordinator (`TxUtil`).

    `retryOnException` re-runs a unit of work while a caller predicate allows
    it.  The work is given as the outcome of each attempt, in order: attempt
    `k` returns or throws `exec(k)`.  The ten-millisecond sleep between
    attempts is left out.

    `tx` runs a body either as the owner of a fresh transaction on a raw
    connection or as a participant in the transaction of a handle it is
    given.  The connection is a class whose flags record what was done to
    it; whether the engine refuses a commit or a rollback is fixed per
    connection. */
module TxUtil {
  import opened Utils

  // ---------------------------------------------------------------------
  // retryOnException

  /** The exception variable when the predicate is consulted for attempt
      `count`: nothing before the first attempt, then what the previous
      attempt threw. */
  function LastBefore<T>(exec: nat -> Outcome<T>, count: nat): Option<Exc> {
    if count == 0 || exec(count - 1).Return? then None else Some(exec(count - 1).exc)
  }

  /** The predicate refuses every count from `bound` on, so the loop ends. */
  ghost predicate Bounded(retry: (int, Option<Exc>) -> bool, bound: nat) {
    forall c: int, e: Option<Exc> :: c >= bound ==> !retry(c, e)
  }

  /** The attempts before `k` were all allowed and all threw. */
  ghost predicate FailedBefore<T>(exec: nat -> Outcome<T>, retry: (int, Option<Exc>) -> bool, k: nat) {
    forall j: nat {:trigger LastBefore(exec, j)} :: j < k ==> retry(j, LastBefore(exec, j)) && exec(j).Throw?
  }

  /** What the loop produces from attempt `count` on, when the exception
      variable holds `last`. */
  function RetryFrom<T>(exec: nat -> Outcome<T>, retry: (int, Option<Exc>) -> bool,
                        ghost bound: nat, count: nat, last: Option<Exc>): Outcome<T>
    requires Bounded(retry, bound)
    decreases bound - count
  {
    if !retry(count, last) then Throw(if last.Some? then last.value else RetryFailed)
    else match exec(count)
      case Return(v) => Return(v)
      case Throw(e) => RetryFrom(exec, retry, bound, count + 1, Some(e))
  }

  /** The loop of `retryOnException`.  `bound` is a count from which the
      predicate refuses; it only serves the termination proof. */
  method RetryOnException<T>(exec: nat -> Outcome<T>, retry: (int, Option<Exc>) -> bool, ghost bound: nat)
    returns (r: Outcome<T>)
    requires Bounded(retry, bound)
    ensures r == RetryFrom(exec, retry, bound, 0, None)
  {
    var exception: Option<Exc> := None;
    var count := 0;
    while retry(count, exception)
      invariant count <= bound
      invariant RetryFrom(exec, retry, bound, count, exception) == RetryFrom(exec, retry, bound, 0, None)
      decreases bound - count
    {
      count := count + 1;
      var attempt := exec(count - 1);
      if attempt.Return? {
        return attempt;
      }
      exception := Some(attempt.exc);
    }
    r := Throw(if exception.Some? then exception.value else RetryFailed);
  }

  /** The count at which the loop stops when started at `count`. */
  ghost function StopAt<T>(exec: nat -> Outcome<T>, retry: (int, Option<Exc>) -> bool, bound: nat, count: nat): nat
    requires Bounded(retry, bound)
    decreases bound - count
  {
    if !retry(count, LastBefore(exec, count)) || exec(count).Return? then count
    else StopAt(exec, retry, bound, count + 1)
  }

  /** Attempts 0..k-1 were allowed and threw, and `r` is what happens at
      attempt `k`: its value when the predicate allows it (it then returns),
      otherwise the exception of attempt `k - 1` ("Retry failed" when `k` is 0,
      since every attempt before `k` threw). */
  ghost predicate EndsAt<T>(exec: nat -> Outcome<T>, retry: (int, Option<Exc>) -> bool, k: nat, r: Outcome<T>) {
    && FailedBefore(exec, retry, k)
    && if retry(k, LastBefore(exec, k)) then exec(k).Return? && r == exec(k)
       else r == Throw(if LastBefore(exec, k).Some? then LastBefore(exec, k).value else RetryFailed)
  }

  lemma RetryStopsAt<T>(exec: nat -> Outcome<T>, retry: (int, Option<Exc>) -> bool, bound: nat, count: nat)
    requires Bounded(retry, bound)
    requires FailedBefore(exec, retry, count)
    requires !retry(count, LastBefore(exec, count)) || exec(count).Return?
    ensures StopAt(exec, retry, bound, count) == count
    ensures EndsAt(exec, retry, count, RetryFrom(exec, retry, bound, count, LastBefore(exec, count)))
  {
  }

  lemma RetryStepsOver<T>(exec: nat -> Outcome<T>, retry: (int, Option<Exc>) -> bool, bound: nat, count: nat)
    requires Bounded(retry, bound)
    requires FailedBefore(exec, retry, count)
    requires retry(count, LastBefore(exec, count)) && exec(count).Throw?
    ensures StopAt(exec, retry, bound, count) == StopAt(exec, retry, bound, count + 1)
    ensures RetryFrom(exec, retry, bound, count, LastBefore(exec, count))
         == RetryFrom(exec, retry, bound, count + 1, LastBefore(exec, count + 1))
    ensures FailedBefore(exec, retry, count + 1)
  {
    assert LastBefore(exec, count + 1) == Some(exec(count).exc);
    forall j: nat | j < count + 1
      ensures retry(j, LastBefore(exec, j)) && exec(j).Throw?
    {
      if j < count {
        assert FailedBefore(exec, retry, count);
      }
    }
  }

  lemma {:induction false} RetryFromEnds<T>(exec: nat -> Outcome<T>, retry: (int, Option<Exc>) -> bool,
                                            bound: nat, count: nat)
    requires Bounded(retry, bound)
    requires FailedBefore(exec, retry, count)
    ensures count <= StopAt(exec, retry, bound, count)
    ensures EndsAt(exec, retry, StopAt(exec, retry, bound, count),
                   RetryFrom(exec, retry, bound, count, LastBefore(exec, count)))
    decreases bound - count
  {
    if !retry(count, LastBefore(exec, count)) || exec(count).Return? {
      RetryStopsAt(exec, retry, bound, count);
    } else {
      RetryStepsOver(exec, retry, bound, count);
      RetryFromEnds(exec, retry, bound, count + 1);
    }
  }

  /** The result of the loop: for some `k`, attempts 0..k-1 were each allowed
      by the predicate (consulted with their count and the exception before
      them) and threw; then either the predicate allowed attempt `k`, which
      returned, and that is the result, or it refused, and the last exception
      is rethrown ("Retry failed" when no attempt was made). */
  lemma RetryResult<T>(exec: nat -> Outcome<T>, retry: (int, Option<Exc>) -> bool, bound: nat)
    requires Bounded(retry, bound)
    ensures exists k: nat :: EndsAt(exec, retry, k, RetryFrom(exec, retry, bound, 0, None))
  {
    RetryFromEnds(exec, retry, bound, 0);
  }

  /** The predicate of the one-argument overload: `c < 10`. */
  function DefaultRetry(c: int, e: Option<Exc>): bool {
    c < 10
  }

  lemma DefaultRetryBounded()
    ensures Bounded(DefaultRetry, 10)
  {
  }

  /** `retryOnException(exec)`: the default predicate. */
  method RetryOnExceptionDefault<T>(exec: nat -> Outcome<T>) returns (r: Outcome<T>)
    ensures r == RetryFrom(exec, DefaultRetry, 10, 0, None)
  {
    DefaultRetryBounded();
    r := RetryOnException(exec, DefaultRetry, 10);
  }

  lemma {:induction false} DefaultRetryFrom<T>(exec1: nat -> Outcome<T>, exec2: nat -> Outcome<T>,
                                               count: nat, last: Option<Exc>)
    requires forall j: nat :: j < 10 ==> exec1(j) == exec2(j)
    ensures RetryFrom(exec1, DefaultRetry, 10, count, last) == RetryFrom(exec2, DefaultRetry, 10, count, last)
    decreases 10 - count
  {
    DefaultRetryBounded();
    if count < 10 && exec1(count).Throw? {
      DefaultRetryFrom(exec1, exec2, count + 1, Some(exec1(count).exc));
    }
  }

  /** With the default predicate at most ten attempts are made: the result
      depends on the first ten outcomes only. */
  lemma DefaultRetryAtMostTen<T>(exec1: nat -> Outcome<T>, exec2: nat -> Outcome<T>)
    requires forall j: nat :: j < 10 ==> exec1(j) == exec2(j)
    ensures RetryFrom(exec1, DefaultRetry, 10, 0, None) == RetryFrom(exec2, DefaultRetry, 10, 0, None)
  {
    DefaultRetryFrom(exec1, exec2, 0, None);
  }

  lemma {:induction false} DefaultRetryAllFailFrom<T>(exec: nat -> Outcome<T>, count: nat, last: Option<Exc>)
    requires count <= 10
    requires forall j: nat :: j < 10 ==> exec(j).Throw?
    requires count > 0 ==> last == Some(exec(count - 1).exc)
    requires count == 0 ==> last == None
    ensures RetryFrom(exec, DefaultRetry, 10, count, last) == Throw(exec(9).exc)
    decreases 10 - count
  {
    DefaultRetryBounded();
    if count < 10 {
      DefaultRetryAllFailFrom(exec, count + 1, Some(exec(count).exc));
    }
  }

  /** When the first ten attempts all throw, the tenth exception is rethrown. */
  lemma DefaultRetryAllFail<T>(exec: nat -> Outcome<T>)
    requires forall j: nat :: j < 10 ==> exec(j).Throw?
    ensures RetryFrom(exec, DefaultRetry, 10, 0, None) == Throw(exec(9).exc)
  {
    DefaultRetryAllFailFrom(exec, 0, None);
  }

  // ---------------------------------------------------------------------
  // tx

  /** A JDBC connection, reduced to what `tx` does to it. */
  class Connection {
    var autoCommit: bool
    var committed: bool
    var rolledBack: bool
    var closed: bool
    /** Whether the engine answers `commit` / `rollback` with an SQLException. */
    const commitFails: bool
    const rollbackFails: bool

    constructor (commitFails: bool, rollbackFails: bool)
      ensures autoCommit && !committed && !rolledBack && !closed
      ensures this.commitFails == commitFails && this.rollbackFails == rollbackFails
    {
      autoCommit, committed, rolledBack, closed := true, false, false, false;
      this.commitFails, this.rollbackFails := commitFails, rollbackFails;
    }

    function Flags(): ConnFlags
      reads this
    {
      ConnFlags(autoCommit, committed, rolledBack, closed)
    }

    method SetAutoCommit(on: bool)
      modifies this`autoCommit
      ensures autoCommit == on
    {
      autoCommit := on;
    }

    method Commit() returns (r: Outcome<()>)
      modifies this`committed
      ensures r == if commitFails then Throw(CommitError) else Return(())
      ensures committed == (old(committed) || !commitFails)
    {
      if commitFails {
        r := Throw(CommitError);
      } else {
        committed := true;
        r := Return(());
      }
    }

    method Rollback() returns (r: Outcome<()>)
      modifies this`rolledBack
      ensures r == if rollbackFails then Throw(RollbackError) else Return(())
      ensures rolledBack == (old(rolledBack) || !rollbackFails)
    {
      if rollbackFails {
        r := Throw(RollbackError);
      } else {
        rolledBack := true;
        r := Return(());
      }
    }

    method Close()
      modifies this`closed
      ensures closed
    {
      closed := true;
    }
  }

  /** A snapshot of a connection's flags. */
  datatype ConnFlags = ConnFlags(autoCommit: bool, committed: bool, rolledBack: bool, closed: bool)

  const CommitError := SQLException("commit")
  const RollbackError := SQLException("rollback")

  /** What `tx` is given: a raw connection, or a `TxProvider` wrapping one. */
  datatype Handle = Raw(conn: Connection) | Provider(conn: Connection)

  predicate IsSql<T>(o: Outcome<T>) {
    o.Throw? && o.exc.SQLException?
  }

  /** The owner's result: an exception from the commit in the `finally`
      replaces whatever the body produced; a failing rollback never replaces
      the exception being rethrown. */
  function OwnerResult<T>(body: Outcome<T>, commitFails: bool): Outcome<T> {
    if commitFails then Throw(CommitError) else body
  }

  /** The owner's connection after `tx`, as written: the commit is attempted
      whatever the body did, the rollback only when an SQLException is on
      its way out, and autocommit is restored and the connection closed in
      every case. */
  function OwnerFlags<T>(before: ConnFlags, body: Outcome<T>, commitFails: bool, rollbackFails: bool): ConnFlags {
    ConnFlags(true,
              before.committed || !commitFails,
              before.rolledBack || (IsSql(OwnerResult(body, commitFails)) && !rollbackFails),
              true)
  }

  /** `tx` as written.  `given` is the handle the body receives. */
  method Tx<T>(h: Handle, body: Handle -> Outcome<T>) returns (r: Outcome<T>, given: Handle)
    modifies h.conn
    ensures given == if h.Provider? then h else Provider(h.conn)
    ensures h.Provider? ==> r == body(h) && h.conn.Flags() == old(h.conn.Flags()).(autoCommit := false)
    ensures h.Raw? ==> r == OwnerResult(body(given), h.conn.commitFails)
    ensures h.Raw? ==> h.conn.Flags() == OwnerFlags(old(h.conn.Flags()), body(given), h.conn.commitFails, h.conn.rollbackFails)
  {
    var closeable := h.Raw?;
    var conn := h.conn;
    conn.SetAutoCommit(false);
    given := if h.Provider? then h else Provider(conn);
    r := body(given);
    if closeable {
      var c := conn.Commit();
      if c.Throw? {
        r := Throw(c.exc);
      }
    }
    if r.Throw? && r.exc.SQLException? {
      if closeable {
        var ignored := conn.Rollback();
      }
    }
    if closeable {
      conn.SetAutoCommit(true);
      conn.Close();
    }
  }

  /** The owner's flags when the work is meant to be atomic: commit only when
      the body returned, roll back when anything was thrown. */
  function AtomicFlags<T>(before: ConnFlags, body: Outcome<T>, commitFails: bool, rollbackFails: bool): ConnFlags {
    var failed := body.Throw? || commitFails;
    ConnFlags(true,
              before.committed || (body.Return? && !commitFails),
              before.rolledBack || (failed && !rollbackFails),
              true)
  }

  /** `tx` with the commit moved out of the `finally`: the owner commits when
      the body returns and rolls back when the body or the commit throws. */
  method TxAtomic<T>(h: Handle, body: Handle -> Outcome<T>) returns (r: Outcome<T>, given: Handle)
    modifies h.conn
    ensures given == if h.Provider? then h else Provider(h.conn)
    ensures h.Provider? ==> r == body(h) && h.conn.Flags() == old(h.conn.Flags()).(autoCommit := false)
    ensures h.Raw? ==> r == (if body(given).Throw? then body(given) else OwnerResult(body(given), h.conn.commitFails))
    ensures h.Raw? ==> h.conn.Flags() == AtomicFlags(old(h.conn.Flags()), body(given), h.conn.commitFails, h.conn.rollbackFails)
  {
    var closeable := h.Raw?;
    var conn := h.conn;
    conn.SetAutoCommit(false);
    given := if h.Provider? then h else Provider(conn);
    r := body(given);
    if closeable {
      if r.Return? {
        var c := conn.Commit();
        if c.Throw? {
          r := Throw(c.exc);
        }
      }
      if r.Throw? {
        var ignored := conn.Rollback();
      }
      conn.SetAutoCommit(true);
      conn.Close();
    }
  }

  /** As written, an owner whose body throws an SQLException after its
      statements ran both commits that work and then rolls back: the
      rollback comes after the commit and undoes nothing. */
  lemma TxCommitsFailedWork(before: ConnFlags)
    requires before == ConnFlags(false, false, false, false)
    ensures var f := OwnerFlags<int>(before, Throw(SQLException("deadlock")), false, false);
      f.committed && f.rolledBack
  {
  }

  /** In the atomic form a fresh owner's work is committed exactly when the
      body returns and the commit succeeds, and a failed call never commits. */
  lemma AtomicCommitsOnlySuccess<T>(before: ConnFlags, body: Outcome<T>, commitFails: bool, rollbackFails: bool)
    requires !before.committed && !before.rolledBack
    ensures AtomicFlags(before, body, commitFails, rollbackFails).committed <==> body.Return? && !commitFails
    ensures !rollbackFails ==> (AtomicFlags(before, body, commitFails, rollbackFails).rolledBack <==> !(body.Return? && !commitFails))
  {
  }
}
