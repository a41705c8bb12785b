/** errno values the lock handles and bindings distinguish (Linux numbering). */
module Errno {
  const EINTR: int := 4
  /** Ruby's Errno::EWOULDBLOCK is the very class Errno::EAGAIN on this platform. */
  const EAGAIN: int := 11
  const EACCES: int := 13
}

/** The slice of Ruby's object model the lock handles and bindings touch. */
module Ruby {
  datatype Option<+T> = None | Some(value: T)

  /** A file-like object: a File, a Tempfile, or any duck that may answer #fileno and #close. */
  class FileObject {
    /** What #fileno answers; None when the object does not respond to #fileno. */
    const fileno: Option<int>
    /** Whether the object responds to #close. */
    const closable: bool
    var closed: bool

    constructor (fileno: Option<int>, closable: bool)
      ensures this.fileno == fileno && this.closable == closable && !closed
    {
      this.fileno := fileno;
      this.closable := closable;
      closed := false;
    }

    /** IO#close; closing a closed stream again is not an error. */
    method Close()
      modifies this
      ensures closed
    {
      closed := true;
    }
  }

  /** The Ruby values passed as descriptors, commands and lengths. */
  datatype Value = Int(i: int) | Str(s: string) | Nil | Obj(obj: FileObject)

  /** The exceptions the core raises or lets through. */
  datatype Exception =
    | SystemCallError(errno: int)  // an Errno::* instance, identified by its errno
    | TypeError
    | RangeError
    | NoMethodError
    | NameError
    | DLError                      // Fiddle::DLError
    | LinkError                    // Lockf::FFI::LinkError

  /** A Ruby call either returns a value or raises. */
  datatype Result<+T> = Return(value: T) | Raise(error: Exception)

  /** The class chain of an exception, from its own class up to Exception. */
  function Ancestors(e: Exception): (chain: seq<string>)
    ensures |chain| >= 3
    ensures chain[|chain| - 1] == "Exception" && chain[|chain| - 2] == "StandardError"
  {
    match e
    case SystemCallError(_) => ["SystemCallError", "StandardError", "Exception"]
    case TypeError => ["TypeError", "StandardError", "Exception"]
    case RangeError => ["RangeError", "StandardError", "Exception"]
    case NoMethodError => ["NoMethodError", "NameError", "StandardError", "Exception"]
    case NameError => ["NameError", "StandardError", "Exception"]
    case DLError => ["Fiddle::DLError", "Fiddle::Error", "StandardError", "Exception"]
    case LinkError => ["Lockf::FFI::LinkError", "Lockf::FFI::Error", "RuntimeError", "StandardError", "Exception"]
  }

  /** `e.is_a?(name)`, which is what a `rescue name` clause tests. */
  predicate IsA(e: Exception, name: string)
  {
    name in Ancestors(e)
  }

  /** Fixnum range of a 64-bit CRuby. */
  const FIXNUM_MIN: int := -0x4000_0000_0000_0000
  const FIXNUM_MAX: int := 0x3fff_ffff_ffff_ffff
  /** Range of a C `int`. */
  const INT_MIN: int := -0x8000_0000
  const INT_MAX: int := 0x7fff_ffff

  predicate IsCInt(n: int)
  {
    INT_MIN <= n <= INT_MAX
  }

  /** Check_Type(v, T_FIXNUM) accepts exactly these. */
  predicate IsFixnum(v: Value)
  {
    v.Int? && FIXNUM_MIN <= v.i <= FIXNUM_MAX
  }

  /** NUM2INT(v): a C int, or the exception Ruby raises for anything else. */
  function ToCInt(v: Value): (r: Result<int>)
    ensures r.Return? <==> v.Int? && IsCInt(v.i)
    ensures r.Return? ==> r.value == v.i
    ensures r.Raise? ==> r.error == (if v.Int? then RangeError else TypeError)
  {
    match v
    case Int(n) => if IsCInt(n) then Return(n) else Raise(RangeError)
    case _ => Raise(TypeError)
  }

  /** `v.fileno`, sent without asking first: NoMethodError when v has no #fileno. */
  function Fileno(v: Value): (r: Result<Value>)
    ensures r.Return? <==> v.Obj? && v.obj.fileno.Some?
    ensures r.Return? ==> r.value == Int(v.obj.fileno.value)
    ensures r.Raise? ==> r.error == NoMethodError
  {
    if v.Obj? && v.obj.fileno.Some? then Return(Int(v.obj.fileno.value)) else Raise(NoMethodError)
  }
}
