/** The lockf(3) command codes of lib/lock/file/constants.rb, as a closed enumeration. */
module Constants {
  import opened Ruby

  /** The four requests lockf(3) understands. */
  datatype Command = Unlock | Lock | TryLock | Test

  const F_ULOCK: int := 0x0
  const F_LOCK: int := 0x1
  const F_TLOCK: int := 0x2
  const F_TEST: int := 0x3

  /** The ABI integer of a command. */
  function Code(c: Command): (n: int)
    ensures 0 <= n <= 3
  {
    match c
    case Unlock => F_ULOCK
    case Lock => F_LOCK
    case TryLock => F_TLOCK
    case Test => F_TEST
  }

  /** The command an ABI integer stands for, if any. */
  function FromCode(n: int): (c: Option<Command>)
    ensures c.Some? <==> 0 <= n <= 3
    ensures c.Some? ==> Code(c.value) == n
  {
    if n == F_ULOCK then Some(Unlock)
    else if n == F_LOCK then Some(Lock)
    else if n == F_TLOCK then Some(TryLock)
    else if n == F_TEST then Some(Test)
    else None
  }

  /** Decoding undoes encoding, so no two commands share a code. */
  lemma CodeRoundTrip(c: Command, d: Command)
    ensures FromCode(Code(c)) == Some(c)
    ensures Code(c) == Code(d) ==> c == d
  {
  }

  /** The codes are exactly 0..3: every integer in that range is some command's code. */
  lemma CodesCoverRange(n: int)
    requires 0 <= n <= 3
    ensures exists c :: Code(c) == n
  {
    assert Code(FromCode(n).value) == n;
  }
}
