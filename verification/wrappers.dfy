/** Optional values and results of operations that can fail.
    `Result` is failure-compatible, so `:-` propagates the first error. */
module Wrappers {

  /** Python's `None` on the one hand, a present value on the other. */
  datatype Option<+T> = None | Some(value: T)

  /** The outcome of an operation that may raise. */
  datatype Result<+T, +E> = Ok(value: T) | Err(error: E) {

    predicate IsFailure() {
      Err?
    }

    function PropagateFailure<U>(): Result<U, E>
      requires Err?
    {
      Err(error)
    }

    function Extract(): T
      requires Ok?
    {
      value
    }
  }
}

/** The exceptions the modelled code raises, one constructor per kind. */
module Errors {

  datatype Error =
    /** `LeafNode.to_html` on a leaf without a value that is not `<br>`. */
    | LeafWithoutValue
    /** `ParentNode.to_html` on a parent whose tag is `None`. */
    | ParentWithoutTag
    /** `ParentNode.to_html` on a parent whose children are `None`. */
    | ParentWithoutChildren
    /** An odd number of inline delimiters in a plain text node. */
    | UnmatchedDelimiter
    /** `str.split` called with the empty separator. */
    | EmptySeparator
    /** `str.index` did not find the character it looked for. */
    | SubstringNotFound
    /** `extract_title` found no line starting with `"# "`. */
    | NoTitle
    /** Whatever the inline tokenizer behind `text_to_children` raises. */
    | InlineFailure(message: string)
}
