/**
 * The Swift class metadata record, as far as the hook reads it: the header
 * layout that puts the first vtable slot at word 9, the two size fields that
 * bound the walk, the name filter, and the slots themselves.
 */
module Metadata {
  import opened Wrappers

  /** A `UInt32` field of the record. */
  newtype u32 = x: int | 0 <= x < 0x1_0000_0000

  /** A code address held in a non-null slot (an `UnsafeMutableRawPointer`); a null slot is `None`. */
  type Addr = nat

  /** One word-sized slot of the record: `None` is a null pointer. */
  type Slot = Option<Addr>

  /** Bytes in a word (`uintptr_t`, a pointer) on the 64-bit targets the hook runs on. */
  const WordSize: nat := 8

  // ---------------------------------------------------------------------------
  // Layout of `SwiftClassMetada`

  /** Names of the fields of `SwiftClassMetada`, in declaration order. */
  const MetadataFieldNames: seq<string> := [
    "metaClass", "superClass", "reserved1", "reserved2", "rodataPointer", "flags",
    "instanceAddressPoint", "instanceSize", "instanceAlignmentMask", "reserved",
    "classSize", "classAddressOffset", "descriptor", "ivarDestroyer"
  ]

  /** Sizes in bytes of those fields (each also its alignment): words, `UInt32`s and `UInt16`s. */
  const MetadataFieldSizes: seq<nat> := [8, 8, 8, 8, 8, 4, 4, 4, 2, 2, 4, 4, 8, 8]

  /** Position of `ivarDestroyer` among the fields. */
  const IvarDestroyerField: nat := 13

  /** Word index, from the class handle, of `ivarDestroyer`: the first slot the walk reads. */
  const VtableStartWord: nat := 9

  ghost predicate PositiveSizes(sizes: seq<nat>) {
    forall k :: 0 <= k < |sizes| ==> sizes[k] > 0
  }

  /** The least multiple of `a` that is at least `x`. */
  function AlignUp(x: nat, a: nat): (r: nat)
    requires a > 0
    ensures x <= r
  {
    if x % a == 0 then x else x + (a - x % a)
  }

  /** Byte offset of field `k` when every field is placed at the next offset aligned to its size. */
  function OffsetOf(sizes: seq<nat>, k: nat): (r: nat)
    requires k < |sizes| && PositiveSizes(sizes)
    ensures k > 0 ==> r >= OffsetOf(sizes, k - 1) + sizes[k - 1]
    decreases k
  {
    var end := if k == 0 then 0 else OffsetOf(sizes, k - 1) + sizes[k - 1];
    AlignUp(end, sizes[k])
  }

  lemma MetadataSizesPositive()
    ensures PositiveSizes(MetadataFieldSizes)
  {
  }

  /** The walk starts at `ivarDestroyer`, which the layout puts exactly at word 9. */
  lemma IvarDestroyerIsWordNine()
    ensures PositiveSizes(MetadataFieldSizes) && |MetadataFieldNames| == |MetadataFieldSizes|
    ensures MetadataFieldNames[IvarDestroyerField] == "ivarDestroyer"
    ensures OffsetOf(MetadataFieldSizes, IvarDestroyerField) == VtableStartWord * WordSize
  {
    MetadataSizesPositive();
    var f := MetadataFieldSizes;
    assert OffsetOf(f, 0) == 0;
    assert OffsetOf(f, 1) == 8;
    assert OffsetOf(f, 2) == 16;
    assert OffsetOf(f, 3) == 24;
    assert OffsetOf(f, 4) == 32;
    assert OffsetOf(f, 5) == 40;
    assert OffsetOf(f, 6) == 44;
    assert OffsetOf(f, 7) == 48;
    assert OffsetOf(f, 8) == 52;
    assert OffsetOf(f, 9) == 54;
    assert OffsetOf(f, 10) == 56;
    assert OffsetOf(f, 11) == 60;
    assert OffsetOf(f, 12) == 64;
  }

  // ---------------------------------------------------------------------------
  // Eligibility of a class by its name (`NSStringFromClass`)

  predicate HasPrefix(s: string, p: string) {
    |p| <= |s| && s[..|p|] == p
  }

  /** Only classes named like Swift classes, and not those of the Swift standard library, are walked. */
  predicate Eligible(name: string) {
    (HasPrefix(name, "_Tt") || '.' in name) && !HasPrefix(name, "Swift.")
  }

  lemma EligibleNames()
    ensures Eligible("SwiftHookTests.TestClass")
    ensures Eligible("_TtC14SwiftHookTests9TestClass")
    ensures !Eligible("NSObject")
    ensures !Eligible("Swift._ContiguousArrayStorage")
  {
    DottedNameEligible();
    MangledNameEligible();
    ObjCNameIneligible();
    StandardLibraryIneligible("Swift._ContiguousArrayStorage");
  }

  lemma DottedNameEligible()
    ensures Eligible("SwiftHookTests.TestClass")
  {
    var s := "SwiftHookTests.TestClass";
    assert s[14] == '.';
    assert s[..6][5] == 'H' != "Swift."[5];
  }

  lemma MangledNameEligible()
    ensures Eligible("_TtC14SwiftHookTests9TestClass")
  {
    var s := "_TtC14SwiftHookTests9TestClass";
    assert s[..3] == "_Tt";
    MangledEligible(s);
  }

  lemma ObjCNameIneligible()
    ensures !Eligible("NSObject")
  {
    var s := "NSObject";
    assert s == ['N', 'S', 'O', 'b', 'j', 'e', 'c', 't'];
    assert s[..3][0] == 'N' != "_Tt"[0];
    forall i | 0 <= i < |s|
      ensures s[i] != '.'
    {
      assert s[i] in {'N', 'S', 'O', 'b', 'j', 'e', 'c', 't'};
    }
  }

  /** A standard-library class is never walked, whatever else its name holds. */
  lemma StandardLibraryIneligible(name: string)
    requires HasPrefix(name, "Swift.")
    ensures !Eligible(name)
  {
  }

  /** A class with a mangled `_Tt` name is always walked. */
  lemma MangledEligible(name: string)
    requires HasPrefix(name, "_Tt")
    ensures Eligible(name)
  {
    assert name[..3][0] == '_';
  }

  // ---------------------------------------------------------------------------
  // Bounds of the walk, in slots (not bytes)

  /**
   * The end of the walk, as a word index from the class handle. The source takes
   * the handle as a pointer to pointer-sized words and subtracts `classAddressOffset`
   * and adds `classSize` to it, so both fields are counted in words here.
   */
  function VtableEndWord(classSize: u32, classAddressOffset: u32): int {
    classSize as int - classAddressOffset as int
  }

  /** Number of slots the walk visits: from `ivarDestroyer` up to `VtableEndWord`. */
  function SlotCount(classSize: u32, classAddressOffset: u32): int {
    VtableEndWord(classSize, classAddressOffset) - VtableStartWord
  }

  // ---------------------------------------------------------------------------
  // A class's record as a value, and as the object whose slots the hook patches

  /** A snapshot of one class: its name, its two size fields and its slots from `ivarDestroyer` on. */
  datatype ClassImage = ClassImage(name: string, classSize: u32, classAddressOffset: u32, vtable: seq<Slot>)

  /**
   * An eligible class has a non-negative slot count (the source traps otherwise)
   * and its slot memory covers every slot the walk reads.
   */
  predicate WellFormed(img: ClassImage) {
    Eligible(img.name) ==> 0 <= SlotCount(img.classSize, img.classAddressOffset) <= |img.vtable|
  }

  /** Same class, same fields, same number of slots; only slot contents may differ. */
  predicate SameShape(a: ClassImage, b: ClassImage) {
    a.name == b.name && a.classSize == b.classSize && a.classAddressOffset == b.classAddressOffset
    && |a.vtable| == |b.vtable|
  }

  /** A loaded class: the metadata the runtime owns, with slot memory the hook writes in place. */
  class ClassMetadata {
    const name: string
    const classSize: u32
    const classAddressOffset: u32
    const vtable: array<Slot>

    constructor (name: string, classSize: u32, classAddressOffset: u32, slots: seq<Slot>)
      ensures fresh(vtable)
      ensures Image() == ClassImage(name, classSize, classAddressOffset, slots)
    {
      this.name := name;
      this.classSize := classSize;
      this.classAddressOffset := classAddressOffset;
      this.vtable := new Slot[|slots|](i requires 0 <= i < |slots| => slots[i]);
    }

    function Image(): ClassImage
      reads vtable
    {
      ClassImage(name, classSize, classAddressOffset, vtable[..])
    }

    predicate Valid() {
      Eligible(name) ==> 0 <= SlotCount(classSize, classAddressOffset) <= vtable.Length
    }
  }
}
