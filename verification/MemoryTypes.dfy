/** What a page of memory is used for: as the loader numbers it, and as the kernel reads that number. */
module MemoryTypes {

  datatype Option<+T> = None | Some(value: T)

  /** The loader's enumeration, in its order. */
  datatype MemoryType =
    | Free | Bad | Unusable | Special
    | LoaderExecutable | LoaderTemporary | LoaderStack | LoaderHeap
    | Firmware | PageLookupTable
    | PageStructures | PageDirectory | KernelEnvironmentInformation
    | KernelExecutable | KernelStack | KernelLibrary

  /** The number that stands for a type in the loader block. */
  function Code(t: MemoryType): nat {
    match t
    case Free => 0
    case Bad => 1
    case Unusable => 2
    case Special => 3
    case LoaderExecutable => 4
    case LoaderTemporary => 5
    case LoaderStack => 6
    case LoaderHeap => 7
    case Firmware => 8
    case PageLookupTable => 9
    case PageStructures => 10
    case PageDirectory => 11
    case KernelEnvironmentInformation => 12
    case KernelExecutable => 13
    case KernelStack => 14
    case KernelLibrary => 15
  }

  /** The types the loader puts into the loader block. */
  predicate Recorded(t: MemoryType) {
    match t
    case Free | LoaderExecutable | LoaderTemporary | LoaderStack | LoaderHeap | PageLookupTable => false
    case _ => true
  }

  /** The kernel's enumeration of the same numbers. It has no `Unusable`, so the names after `Bad` are one off. */
  function KernelName(code: nat): Option<MemoryType> {
    if code == 0 then Some(Free)
    else if code == 1 then Some(Bad)
    else if code == 2 then Some(Special)
    else if code == 3 then Some(LoaderExecutable)
    else if code == 4 then Some(LoaderTemporary)
    else if code == 5 then Some(LoaderStack)
    else if code == 6 then Some(LoaderHeap)
    else if code == 7 then Some(Firmware)
    else if code == 8 then Some(PageLookupTable)
    else if code == 9 then Some(PageStructures)
    else if code == 10 then Some(PageDirectory)
    else if code == 11 then Some(KernelEnvironmentInformation)
    else if code == 12 then Some(KernelExecutable)
    else if code == 13 then Some(KernelStack)
    else if code == 14 then Some(KernelLibrary)
    else None
  }

  /** The types whose frames the kernel means to mark as used. */
  predicate ToBeMarked(t: MemoryType) {
    match t
    case Bad | Special | Firmware => true
    case KernelEnvironmentInformation | KernelExecutable | KernelStack | KernelLibrary => true
    case _ => false
  }

  /** The kernel marks the frames of a descriptor with this number. */
  predicate Marks(code: nat) {
    KernelName(code).Some? && ToBeMarked(KernelName(code).value)
  }

  /** As what the kernel reads the number of each type that the loader records. */
  lemma ReadAs()
    ensures KernelName(Code(Bad)) == Some(Bad) && KernelName(Code(Unusable)) == Some(Special)
    ensures KernelName(Code(Special)) == Some(LoaderExecutable) && KernelName(Code(Firmware)) == Some(PageLookupTable)
    ensures KernelName(Code(PageStructures)) == Some(PageDirectory)
    ensures KernelName(Code(PageDirectory)) == Some(KernelEnvironmentInformation)
    ensures KernelName(Code(KernelEnvironmentInformation)) == Some(KernelExecutable)
    ensures KernelName(Code(KernelExecutable)) == Some(KernelStack)
    ensures KernelName(Code(KernelStack)) == Some(KernelLibrary) && KernelName(Code(KernelLibrary)) == None
  {
  }

  /** What becomes of a page: its type is recorded by the loader, and the kernel marks the number recorded. */
  lemma MarkedTypes(t: MemoryType)
    ensures (Recorded(t) && Marks(Code(t)))
            <==> t.Bad? || t.Unusable? || t.PageDirectory? || t.KernelEnvironmentInformation? || t.KernelExecutable?
                 || t.KernelStack?
  {
  }

  /**
     A type's frames end up as the kernel means them to exactly if the shift in the
     numbering does not matter for it: special, firmware and library frames stay free
     in its eyes, unusable ones and those of the page directory are marked.
   */
  lemma NumberingAgrees(t: MemoryType)
    ensures ((Recorded(t) && Marks(Code(t)))
             <==> t.Bad? || t.Special? || t.Firmware? || t.KernelEnvironmentInformation? || t.KernelExecutable?
                  || t.KernelStack? || t.KernelLibrary?)
            <==> !(t.Special? || t.Firmware? || t.KernelLibrary? || t.Unusable? || t.PageDirectory?)
  {
  }
}
