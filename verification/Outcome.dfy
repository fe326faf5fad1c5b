/** PANIC stops the hypervisor; an operation that may panic returns an Outcome.

    Three of the reasons are no PANIC of the source. SearchUnderflow stands for a downward search that runs past
    the start of an array, which the source does not notice; PageFault and DivideError for exceptions of the
    processor: an access to physical memory that is not mapped, and a division by zero. The model stops there. */
module Outcomes {
  datatype PanicReason =
    | OutOfMemory
    | SearchUnderflow
    | PageFault
    | DivideError
    | ArenaFull
    | CorruptedArenaList
    | AlreadyMapped
    | EptAlreadyInitialized
    | GuestMemoryAlreadyAllocated
    | NoGuestMemory
    | SetupAlreadyStarted
    | VmcsAlreadyInitialized
    | EptWalkFailed
    | GuestWalkFailed
    | UnsupportedPagingMode
    | CrossesPage
    | PagingAlreadySetUp
    | BadKernelImage
    | CmdlineTooLong
    | KernelDoesNotFit
    | MisalignedKernel

  datatype Outcome<+T> = Ok(value: T) | Panic(reason: PanicReason) {
    predicate IsFailure() {
      Panic?
    }

    function PropagateFailure<U>(): Outcome<U>
      requires Panic?
    {
      Panic(reason)
    }

    function Extract(): T
      requires Ok?
    {
      value
    }
  }

  datatype Option<+T> = None | Some(value: T)
}
