/**
 * Failure values of the loader. Every `assert` of the original program, and every read of
 * a header, table or name and every copy that would leave the image or the mapped region,
 * becomes one of these. A name comparison that runs off the image is a mismatch instead.
 */
module Errors {

  datatype Error =
    | MultipleMatches        // a second element satisfies the search predicate
    | NoMatch                // no element satisfies the search predicate
    | EntSizeMismatch        // sh_entsize is set and differs from the element size
    | SizeNotMultiple        // sh_size is not a multiple of the element size
    | NotAStringTable        // the `.dynstr` section is not of type SHT_STRTAB
    | NoSectionNameTable     // e_shstrndx is SHN_UNDEF
    | ExaggeratedSize        // mapping length at least two pages beyond the vaddr range
    | LengthBelowRange       // mapping length not above the vaddr range
    | BaseNotPageAligned     // floored base not a multiple of the page size
    | LengthNotPageAligned   // mapping length not a multiple of the page size
    | OutOfBounds            // a read that would leave the image
    | SegmentOutsideMapping  // a segment copy that would leave the image or the mapping

  datatype Option<+T> = None | Some(value: T)

  datatype Result<+T> = Ok(value: T) | Err(error: Error) {
    predicate IsFailure() { Err? }

    function PropagateFailure<U>(): Result<U>
      requires Err?
    {
      Err(error)
    }

    function Extract(): T
      requires Ok?
    {
      value
    }
  }
}
