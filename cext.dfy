/**
 * The C extension ext/lockf.rb/lockf.c: `lockf_lock`, the Ruby-callable wrapper around
 * lockf(3), and `Init_lockf`, which registers it and the command constants.
 */
module CExt {
  import opened Ruby
  import opened Native
  import C = Constants

  /** Check_Type(fd, T_FIXNUM), Check_Type(cmd, T_FIXNUM), Check_Type(len, T_FIXNUM). */
  predicate Fixnums(fd: Value, cmd: Value, len: Value)
  {
    IsFixnum(fd) && IsFixnum(cmd) && IsFixnum(len)
  }

  /**
   * The call lockf_lock hands to lockf(3), or what it raises before getting there: TypeError
   * from the type checks, RangeError from NUM2INT.
   */
  function Args(fd: Value, cmd: Value, len: Value): (r: Result<Call>)
    ensures r.Return? <==> Fixnums(fd, cmd, len) && IsCInt(fd.i) && IsCInt(cmd.i) && IsCInt(len.i)
    ensures r.Return? ==> r.value == Call(fd.i, cmd.i, len.i)
    ensures r.Raise? ==> r.error == (if Fixnums(fd, cmd, len) then RangeError else TypeError)
  {
    if !Fixnums(fd, cmd, len) then Raise(TypeError)
    else if !(IsCInt(fd.i) && IsCInt(cmd.i) && IsCInt(len.i)) then Raise(RangeError)
    else Return(Call(fd.i, cmd.i, len.i))
  }

  /** What lockf_lock gives back for the outcome of its one lockf(3) call. */
  function Classify(o: Outcome): (r: Result<int>)
    ensures r.Return? <==> o.Ok?
    ensures r.Return? ==> r.value == 0
    ensures r.Raise? ==> r.error == SystemCallError(o.errno)
  {
    if o.Ok? then Return(0) else Raise(SystemCallError(o.errno))
  }

  /** lockf_lock(self, fd, cmd, len) */
  method LockfLock(os: Os, fd: Value, cmd: Value, len: Value) returns (r: Result<int>)
    modifies os
    ensures var a := Args(fd, cmd, len);
      (a.Raise? ==> r == Raise(a.error) && os.log == old(os.log)) &&
      (a.Return? ==> os.log == old(os.log) + [a.value] && r == Classify(os.lockfOutcome(|old(os.log)|)))
    ensures os.errno == if Fixnums(fd, cmd, len) then 0 else old(os.errno)
    ensures os.lastError == old(os.lastError) && os.dlopens == old(os.dlopens)
  {
    if !IsFixnum(fd) || !IsFixnum(cmd) || !IsFixnum(len) {
      return Raise(TypeError);
    }
    os.errno := 0;
    var cfd, ccmd, clen := ToCInt(fd), ToCInt(cmd), ToCInt(len);
    if cfd.Raise? || ccmd.Raise? || clen.Raise? {
      return Raise(RangeError);
    }
    var result := os.Lockf(cfd.value, ccmd.value, clen.value);
    if result != 0 {
      var err := os.errno;
      os.errno := 0;
      r := Raise(SystemCallError(err));
    } else {
      r := Return(result);
    }
  }

  /** The names a successful Init_lockf defines on Lock::File, with their values. */
  function CommandConstants(): (m: map<string, int>)
    ensures m.Keys == {"F_LOCK", "F_TLOCK", "F_ULOCK", "F_TEST"}
    ensures forall name :: name in m ==> C.FromCode(m[name]).Some?
  {
    map["F_LOCK" := C.Code(C.Lock), "F_TLOCK" := C.Code(C.TryLock),
        "F_ULOCK" := C.Code(C.Unlock), "F_TEST" := C.Code(C.Test)]
  }

  /** Each registered constant decodes to the command its name says. */
  lemma CommandConstantsDecode()
    ensures C.FromCode(CommandConstants()["F_LOCK"]) == Some(C.Lock)
    ensures C.FromCode(CommandConstants()["F_TLOCK"]) == Some(C.TryLock)
    ensures C.FromCode(CommandConstants()["F_ULOCK"]) == Some(C.Unlock)
    ensures C.FromCode(CommandConstants()["F_TEST"]) == Some(C.Test)
  {
    C.CodeRoundTrip(C.Lock, C.Lock);
    C.CodeRoundTrip(C.TryLock, C.TryLock);
    C.CodeRoundTrip(C.Unlock, C.Unlock);
    C.CodeRoundTrip(C.Test, C.Test);
  }

  /** The part of the Ruby runtime Init_lockf touches. */
  class Runtime {
    /** Whether the modules Lock, Lock::File and Lock::File::FFI are defined. */
    var lockDefined: bool
    var fileDefined: bool
    var ffiDefined: bool
    /** The constants defined on Lock::File. */
    var fileConstants: map<string, int>
    /** The module functions of Lock::File::FFI, with their arity. */
    var ffiFunctions: map<string, int>

    constructor (lockDefined: bool, fileDefined: bool, ffiDefined: bool)
      ensures this.lockDefined == lockDefined && this.fileDefined == fileDefined && this.ffiDefined == ffiDefined
      ensures fileConstants == map[] && ffiFunctions == map[]
    {
      this.lockDefined := lockDefined;
      this.fileDefined := fileDefined;
      this.ffiDefined := ffiDefined;
      fileConstants := map[];
      ffiFunctions := map[];
    }

    /** Init_lockf(void) */
    method InitLockf() returns (r: Result<()>)
      modifies this
      ensures lockDefined
      ensures fileDefined == old(fileDefined) && ffiDefined == old(ffiDefined)
      ensures !(old(lockDefined) && fileDefined && ffiDefined) ==>
        r == Raise(NameError) && fileConstants == old(fileConstants) && ffiFunctions == old(ffiFunctions)
      ensures old(lockDefined) && fileDefined && ffiDefined ==>
        r == Return(()) && fileConstants == old(fileConstants) + CommandConstants() &&
        ffiFunctions == old(ffiFunctions)["lockf" := 3]
    {
      var hadLock := lockDefined;
      lockDefined := true;                                  // rb_define_module("Lock")
      if !hadLock || !fileDefined || !ffiDefined {          // rb_const_get of File, then of FFI
        return Raise(NameError);
      }
      fileConstants := fileConstants["F_LOCK" := C.Code(C.Lock)];
      fileConstants := fileConstants["F_TLOCK" := C.Code(C.TryLock)];
      fileConstants := fileConstants["F_ULOCK" := C.Code(C.Unlock)];
      fileConstants := fileConstants["F_TEST" := C.Code(C.Test)];
      ffiFunctions := ffiFunctions["lockf" := 3];
      r := Return(());
    }
  }
}
