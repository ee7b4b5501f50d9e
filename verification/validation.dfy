/** The flat error report of the codec framework: one entry per failing leaf. */
module Validation {
  import opened Wrappers
  import opened Codecs

  /** One path segment: the key under the parent, the value found there and the codec it was
      checked against. */
  datatype ContextEntry<A> = ContextEntry(key: string, actual: A, codec: Codec)

  /** A path from the root value (first entry) to the failing leaf (last entry). */
  type Context<A> = seq<ContextEntry<A>>

  datatype ValidationError<A> = ValidationError(value: A, context: Context<A>, message: Option<string>)

  /** Every report the decoder produces carries a non-empty context. */
  predicate HasContexts<A>(errors: seq<ValidationError<A>>)
  {
    forall i :: 0 <= i < |errors| ==> |errors[i].context| > 0
  }
}
