/** How statuses are described: by the first thing that goes wrong. */
module Statuses {
  import opened Bytes
  import opened Uefi

  /** The numbers of Appendix D of the UEFI Specification. */
  lemma StatusNumbers()
    ensures EFI_SUCCESS == 0
    ensures EFI_LOAD_ERROR == 0x8000_0000_0000_0001 && EFI_INVALID_PARAMETER == 0x8000_0000_0000_0002
    ensures EFI_UNSUPPORTED == 0x8000_0000_0000_0003 && EFI_BUFFER_TOO_SMALL == 0x8000_0000_0000_0005
    ensures EFI_DEVICE_ERROR == 0x8000_0000_0000_0007 && EFI_OUT_OF_RESOURCES == 0x8000_0000_0000_0009
    ensures EFI_NOT_FOUND == 0x8000_0000_0000_000E && EFI_INCOMPATIBLE_VERSION == 0x8000_0000_0000_0019
    ensures forall s: Status :: IsError(s) <==> s >= 0x8000_0000_0000_0000
  {
  }

  /** The status of an error if there is one, and else what comes of going on. */
  function Then(o: Option<Error>, s: Status): Status { if o.Some? then o.value else s }

  /** Whether the firmware refuses call number `k` from here, and with which error. */
  function Refused(m: Machine, k: nat): Option<Error> { m.answers(m.tick + k).refusal }

  function When(condition: bool, e: Error): Option<Error> { if condition then Some(e) else None }

  /** Reading from a position behind the end of the file; the all-ones position is the end itself. */
  predicate BehindEnd(position: nat, file: seq<byte>) { position > |file| && position != WORD - 1 }
}
