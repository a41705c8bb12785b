/**
 * The operating system as the lock core sees it: lockf(3) and dlopen(3) as oracles whose
 * answers are fixed in advance, a log of the lockf(3) calls issued, the global errno, and
 * the errno Fiddle saves after each foreign call (Fiddle.last_error).
 */
module Native {
  import opened Ruby

  /** What one lockf(3) call reports: success, or failure with an errno. */
  datatype Outcome = Ok | Err(errno: int)

  /** The outcome of the process's n-th lockf(3) call. */
  type Oracle = nat -> Outcome

  /** One issued call lockf(fd, cmd, len). */
  datatype Call = Call(fd: int, cmd: int, len: int)

  /** A shared library opened by dlopen(3); exportsLockf says whether it has the symbol "lockf". */
  datatype Library = Library(id: nat, exportsLockf: bool)

  /** lockf(3) returns 0 on success and -1 on failure. */
  function Status(o: Outcome): int
  {
    if o.Ok? then 0 else -1
  }

  /** errno after a call with outcome o: a failure sets it, a success leaves it alone. */
  function ErrnoAfter(errno: int, o: Outcome): int
  {
    if o.Err? then o.errno else errno
  }

  /** errno after the n calls numbered from .. from + n - 1. */
  function ErrnoAfterCalls(errno: int, oracle: Oracle, from: nat, n: nat): int
    decreases n
  {
    if n == 0 then errno else ErrnoAfter(ErrnoAfterCalls(errno, oracle, from, n - 1), oracle(from + n - 1))
  }

  /** n copies of the same call. */
  function Repeat(c: Call, n: nat): (s: seq<Call>)
    ensures |s| == n && forall i :: 0 <= i < n ==> s[i] == c
  {
    seq(n, _ => c)
  }

  lemma RepeatSnoc(c: Call, n: nat)
    ensures Repeat(c, n) + [c] == Repeat(c, n + 1)
  {
    assert forall i :: 0 <= i < n + 1 ==> (Repeat(c, n) + [c])[i] == c;
  }

  class Os {
    const lockfOutcome: Oracle
    /** What the n-th dlopen(3) of the C library gives; None when it fails. */
    const dlopenOutcome: nat -> Option<Library>
    /** Every lockf(3) call issued so far, in order. */
    var log: seq<Call>
    var errno: int
    /** Fiddle.last_error */
    var lastError: int
    /** How many times dlopen(3) was attempted. */
    var dlopens: nat

    constructor (lockfOutcome: Oracle, dlopenOutcome: nat -> Option<Library>)
      ensures this.lockfOutcome == lockfOutcome && this.dlopenOutcome == dlopenOutcome
      ensures log == [] && errno == 0 && lastError == 0 && dlopens == 0
    {
      this.lockfOutcome := lockfOutcome;
      this.dlopenOutcome := dlopenOutcome;
      log := [];
      errno := 0;
      lastError := 0;
      dlopens := 0;
    }

    /** lockf(3) itself: logs the call and answers from the oracle. */
    method Lockf(fd: int, cmd: int, len: int) returns (status: int)
      requires IsCInt(fd) && IsCInt(cmd) && IsCInt(len)
      modifies this
      ensures log == old(log) + [Call(fd, cmd, len)]
      ensures status == Status(lockfOutcome(|old(log)|))
      ensures errno == ErrnoAfter(old(errno), lockfOutcome(|old(log)|))
      ensures lastError == old(lastError) && dlopens == old(dlopens)
    {
      var o := lockfOutcome(|log|);
      log := log + [Call(fd, cmd, len)];
      status := Status(o);
      errno := ErrnoAfter(errno, o);
    }

    /** Fiddle.dlopen of the first libc found on the search path. */
    method Dlopen() returns (lib: Option<Library>)
      modifies this
      ensures lib == dlopenOutcome(old(dlopens)) && dlopens == old(dlopens) + 1
      ensures log == old(log) && errno == old(errno) && lastError == old(lastError)
    {
      lib := dlopenOutcome(dlopens);
      dlopens := dlopens + 1;
    }
  }
}
