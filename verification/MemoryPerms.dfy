/** Permissions on memory, as sets of bits; `mapped` says that the memory is mapped at all. */
module MemoryPerms {

  datatype Perms = Perms(readable: bool, writable: bool, executable: bool, mapped: bool) {

    function Plus(y: Perms): Perms {
      Perms(readable || y.readable, writable || y.writable, executable || y.executable, mapped || y.mapped)
    }

    /** Without the permissions of `y`. */
    function Minus(y: Perms): Perms {
      Perms(readable && !y.readable, writable && !y.writable, executable && !y.executable, mapped && !y.mapped)
    }

    function Intersect(y: Perms): Perms {
      Perms(readable && y.readable, writable && y.writable, executable && y.executable, mapped && y.mapped)
    }

    predicate IsEmpty() { this == NONE }

    predicate Has(y: Perms) { Intersect(y) == y }

    predicate HasSomeOf(y: Perms) { !Intersect(y).IsEmpty() }
  }

  const NONE := Perms(false, false, false, false)
  const ALL := Perms(true, true, true, false)
  const MAPPED := Perms(false, false, false, true)
  const ALL_PLUS_MAPPED := Perms(true, true, true, true)

  datatype JoinMode = Or | And

  function Join(x: Perms, y: Perms, mode: JoinMode): Perms {
    match mode
    case Or => x.Plus(y)
    case And => x.Intersect(y)
  }
}
