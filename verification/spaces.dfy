/**
 * A `Space` is one cell of a depot: it holds a value, or, when empty, the
 * link to the next empty cell.
 */
module Spaces {
  import opened Links

  datatype Space<T> = Full(value: T) | Empty(link: Link)
  {
    /**
     * `expect_empty`: the link of an empty space; the source panics on a full
     * one, so being empty is the precondition. The by-reference variants
     * `expect_empty_ref` and `expect_empty_mut` return the same link.
     */
    function ExpectEmpty(): (r: Link)
      requires IsEmpty()
      ensures Empty(r) == this
    {
      link
    }

    /**
     * `expect_full`: the value of a full space; panics (precondition) on an
     * empty one. `expect_full_ref` and `expect_full_mut` return the same value.
     */
    function ExpectFull(): (r: T)
      requires IsFull()
      ensures Full(r) == this
    {
      value
    }

    /** `is_full`: the space holds a value. */
    predicate IsFull()
    {
      Full?
    }

    /** `is_empty`: the exact complement of `is_full`. */
    predicate IsEmpty()
      ensures IsEmpty() <==> !IsFull()
    {
      Empty?
    }
  }
}
