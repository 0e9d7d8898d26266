/**
 * The behaviour the repository's test expects, on a concrete runtime: a class
 * `SwiftHookTests.TestClass` whose one readable slot is `print(str:)`, hooked by
 * its full demangled signature; and a name that no slot has.
 */
module Scenario {
  import opened Wrappers
  import opened Metadata
  import opened Symbols
  import opened Hooks
  import opened Registry

  const PrintSignature: string := "SwiftHookTests.TestClass.print(str: Swift.String) -> ()"
  const PrintSymbol: string := "$s14SwiftHookTests9TestClassC5print3strySS_tF"
  const PrintImpl: Addr := 0x1000
  const NewPrinf: Addr := 0x2000
  /** An address the symbol table knows nothing about. */
  const Anonymous: Addr := 0x3000

  function TestRuntime(): Runtime {
    Runtime(
      (a: Addr) => if a == PrintImpl then Some(DlInfo(Some(PrintSymbol))) else if a == Anonymous then Some(DlInfo(None)) else None,
      (sym: Symbol) => if sym == PrintSymbol then Some(PrintSignature) else None)
  }

  /**
   * `TestClass`, with sizes that make the walk cover three slots: a null one,
   * `print`, and one whose symbol has no name. The fourth word, past the end of
   * the walk, holds `print`'s address again and is never read.
   */
  function TestClass(): ClassImage {
    ClassImage("SwiftHookTests.TestClass", 28, 16, [None, Some(PrintImpl), Some(Anonymous), Some(PrintImpl)])
  }

  /** An Objective-C class listed before it, whose name the filter rejects. */
  function ObjCClass(): ClassImage {
    ClassImage("NSObject", 28, 16, [Some(PrintImpl)])
  }

  lemma TestClassNames()
    ensures WellFormed(TestClass())
    ensures ListedNames(TestRuntime(), TestClass()) == [PrintSignature]
  {
    EligibleNames();
    var rt, vt := TestRuntime(), TestClass().vtable;
    assert Resolve(rt, vt[0]) == None;
    assert Resolve(rt, vt[1]) == Some(PrintSignature);
    assert Resolve(rt, vt[2]) == None;
    assert ResolvedNames(rt, vt, 2, 3) == [];
  }

  /** Hooking `print` by its full signature patches slot 1 and nothing past the end of the walk. */
  lemma HookPrint()
    ensures WellFormed(TestClass())
    ensures MatchIndex(TestRuntime(), TestClass(), PrintSignature) == Some(1)
    ensures Hooked(TestRuntime(), TestClass(), PrintSignature, NewPrinf).vtable
      == [None, Some(NewPrinf), Some(Anonymous), Some(PrintImpl)]
  {
    EligibleNames();
    var rt, vt := TestRuntime(), TestClass().vtable;
    assert Resolve(rt, vt[0]) == None;
    assert Resolve(rt, vt[1]) == Some(PrintSignature);
  }

  /** A name no slot has: no match, and the class is left as it was. */
  lemma HookMissingMethod()
    ensures WellFormed(TestClass())
    ensures MatchIndex(TestRuntime(), TestClass(), "TestClass.doesNotExist()") == None
    ensures Hooked(TestRuntime(), TestClass(), "TestClass.doesNotExist()", NewPrinf) == TestClass()
  {
    EligibleNames();
    var rt, vt := TestRuntime(), TestClass().vtable;
    assert Resolve(rt, vt[0]) == None;
    assert Resolve(rt, vt[1]) == Some(PrintSignature);
    assert Resolve(rt, vt[2]) == None;
    assert PrintSignature != "TestClass.doesNotExist()";
  }

  /** Across the class list, the ineligible class is passed over and `TestClass` is hooked. */
  lemma HookPrintAcrossClasses()
    ensures AllWellFormed([ObjCClass(), TestClass()])
    ensures HookedAll(TestRuntime(), [ObjCClass(), TestClass()], PrintSignature, NewPrinf)
      == [ObjCClass(), Hooked(TestRuntime(), TestClass(), PrintSignature, NewPrinf)]
  {
    EligibleNames();
    HookPrint();
    var imgs := [ObjCClass(), TestClass()];
    assert MatchIndex(TestRuntime(), imgs[0], PrintSignature) == None;
    assert FirstHookable(TestRuntime(), imgs, 0, PrintSignature) == Some(1);
  }
}
