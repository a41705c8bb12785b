/**
 * What the two Fiddle bindings (lib/lockf/ffi.rb and lib/lock/file/ffi.rb) have in common:
 * resolving a descriptor, calling lockf(3) through a Fiddle::Function of signature
 * (INT, INT, INT) -> INT, and turning its status into true or a SystemCallError.
 */
module Fiddle {
  import opened Ruby
  import opened Native
  import Policy
  import CExt

  /** `fd.respond_to?(:fileno) ? fd.fileno : fd` */
  function ResolveFileno(fd: Value): (v: Value)
    ensures fd.Obj? && fd.obj.fileno.Some? ==> v == Int(fd.obj.fileno.value)
    ensures !(fd.Obj? && fd.obj.fileno.Some?) ==> v == fd
  {
    if fd.Obj? && fd.obj.fileno.Some? then Int(fd.obj.fileno.value) else fd
  }

  /** The call Fiddle::Function#call makes after converting its three INT arguments in order. */
  function Args(fd: Value, cmd: Value, len: Value): (r: Result<Call>)
    ensures r.Return? <==> ToCInt(fd).Return? && ToCInt(cmd).Return? && ToCInt(len).Return?
    ensures r.Return? ==> r.value == Call(fd.i, cmd.i, len.i)
    ensures r.Raise? ==> r.error in {TypeError, RangeError}
  {
    match ToCInt(fd)
    case Raise(e) => Raise(e)
    case Return(a) =>
      match ToCInt(cmd)
      case Raise(e) => Raise(e)
      case Return(b) =>
        match ToCInt(len)
        case Raise(e) => Raise(e)
        case Return(c) => Return(Call(a, b, c))
  }

  /** `status.zero? || raise(SystemCallError.new("lockf", Fiddle.last_error))`, for the outcome's status. */
  function Verdict(o: Outcome): (r: Result<bool>)
    ensures r == Return(true) <==> o.Ok?
    ensures r.Return? ==> r.value
    ensures r.Raise? ==> r.error == SystemCallError(o.errno)
  {
    if Status(o) == 0 then Return(true) else Raise(SystemCallError(o.errno))
  }

  /** Fiddle::Function#call on lockf(3): convert, call, and save errno in Fiddle.last_error. */
  method Invoke(os: Os, fd: Value, cmd: Value, len: Value) returns (r: Result<int>)
    modifies os
    ensures var a := Args(fd, cmd, len);
      (a.Raise? ==> r == Raise(a.error) && os.log == old(os.log) &&
                    os.errno == old(os.errno) && os.lastError == old(os.lastError)) &&
      (a.Return? ==> os.log == old(os.log) + [a.value] &&
                     r == Return(Status(os.lockfOutcome(|old(os.log)|))) &&
                     os.errno == ErrnoAfter(old(os.errno), os.lockfOutcome(|old(os.log)|)) &&
                     os.lastError == os.errno)
    ensures os.dlopens == old(os.dlopens)
  {
    var a := Args(fd, cmd, len);
    if a.Raise? {
      return Raise(a.error);
    }
    var status := os.Lockf(a.value.fd, a.value.cmd, a.value.len);
    os.lastError := os.errno;
    r := Return(status);
  }

  /**
   * The Fiddle bindings and the C extension classify an outcome alike except for the success
   * value (true against 0): same failures, same exception, hence the same `locked?` answer.
   */
  lemma {:induction false} AgreesWithCExt(o: Outcome)
    ensures Verdict(o).Raise? <==> CExt.Classify(o).Raise?
    ensures Verdict(o).Raise? ==> Verdict(o).error == CExt.Classify(o).error
    ensures Verdict(o) == Return(true) <==> CExt.Classify(o) == Return(0)
    ensures Policy.LockedOf(Verdict(o)) == Policy.LockedOf(CExt.Classify(o))
  {
    if o.Ok? {
      assert Verdict(o) == Return(true) && CExt.Classify(o) == Return(0);
    } else {
      assert Verdict(o) == Raise(SystemCallError(o.errno)) && CExt.Classify(o) == Raise(SystemCallError(o.errno));
    }
  }
}
