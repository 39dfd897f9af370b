/** The codec's error type, `MessageErrors`, and what its `Display`, `Debug` and `Error` impls report. */
module Errors {
  import opened Wrappers

  /** The only way decoding fails in this codec. */
  datatype MessageErrors = InvalidMessageData

  /** The `Display` rendering. */
  function Display(e: MessageErrors): string
  {
    "InvalidMessageData"
  }

  /** The `Debug` rendering, written per variant. */
  function Debug(e: MessageErrors): string
  {
    match e
    case InvalidMessageData => "InvalidMessageData"
  }

  /** The deprecated `Error::description` text. */
  function Description(e: MessageErrors): string
  {
    "description() is deprecated; use Display"
  }

  /**
    `Error::source`: a `MessageErrors` never wraps a lower-level error.
    The `dyn Error` a source could point at is narrowed to this type.
   */
  function Source(e: MessageErrors): Option<MessageErrors>
  {
    None
  }

  /** The deprecated `Error::cause`, which defers to `source`. */
  function Cause(e: MessageErrors): Option<MessageErrors>
  {
    Source(e)
  }

  /** `MessageErrors` has exactly one value. */
  lemma OnlyInvalidMessageData(e: MessageErrors)
    ensures e == InvalidMessageData
  {
  }

  /** Both renderings give the variant's name, and no error has an underlying cause. */
  lemma Reporting(e: MessageErrors)
    ensures Display(e) == Debug(e) == "InvalidMessageData"
    ensures Source(e) == None
    ensures Cause(e) == Source(e)
    ensures Description(e) != Display(e)
  {
  }
}
