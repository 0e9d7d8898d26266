/**
 * The runtime services the hook calls for every slot: the dynamic linker's
 * address-to-symbol lookup and the Swift demangler. Both are opaque, so a
 * `Runtime` is just the pair of functions a process provides.
 */
module Symbols {
  import opened Wrappers
  import opened Metadata

  /** A raw (mangled) symbol name, as the C string `dli_sname`. */
  type Symbol = string

  /** What `fast_dladdr` fills in: the name of the nearest symbol, which can be nil. */
  datatype DlInfo = DlInfo(sname: Option<Symbol>)

  /**
   * `dladdr` yields `None` where `fast_dladdr` returns 0; `demangle` yields
   * `None` where `swift_demangle` returns a null buffer.
   */
  datatype Runtime = Runtime(dladdr: Addr -> Option<DlInfo>, demangle: Symbol -> Option<string>)

  /**
   * The readable method name behind a slot, or `None` when the slot is null,
   * the address has no symbol, the symbol has no name, or the name does not demangle.
   */
  function Resolve(rt: Runtime, slot: Slot): (r: Option<string>)
    ensures r.Some? ==> slot.Some?
    ensures r.Some? ==> rt.dladdr(slot.value).Some? && rt.dladdr(slot.value).value.sname.Some?
    ensures r.Some? ==> r == rt.demangle(rt.dladdr(slot.value).value.sname.value)
  {
    match slot
    case None => None
    case Some(impl) =>
      match rt.dladdr(impl)
      case None => None
      case Some(info) =>
        match info.sname
        case None => None
        case Some(sym) => rt.demangle(sym)
  }

  /** Conversely, a non-null slot whose address has a named symbol yields exactly that symbol demangled. */
  lemma ResolveFound(rt: Runtime, slot: Slot)
    requires slot.Some? && rt.dladdr(slot.value).Some? && rt.dladdr(slot.value).value.sname.Some?
    ensures Resolve(rt, slot) == rt.demangle(rt.dladdr(slot.value).value.sname.value)
  {
  }
}
