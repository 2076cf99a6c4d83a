/**
 * The exceptions the modelled code raises, as one datatype. Each variant
 * carries the message the source builds at the raise site.
 */
module Errors {

  datatype Failure =
    /** `pr_splitter.errors.ValidationError`: the planner's input checks. */
    | ValidationError(message: string)
    /** `click.BadParameter`: a malformed `--assign` or `--title` value. */
    | BadParameter(message: string)
    /** pydantic's validation error for a record field or validator. */
    | InvalidRecord(field: string, message: string)
    /** Python's `IndexError`: indexing an empty string, or a list out of range. */
    | IndexError
}
