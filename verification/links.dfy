/**
 * A `Link` is the pointer an empty space holds to the next empty space:
 * `None` ends the free list. Rust's `usize` indices are modelled as `nat`.
 */
module Links {
  import opened Wrappers

  datatype Link = Link(next: Option<nat>)

  /** `Link::new`: a link to the empty space at `next`. */
  function New(next: nat): (r: Link)
    ensures r.next.Some? && r.next.value == next
  {
    Link(Some(next))
  }

  /** `Link::new_end`: the link that ends the chain. */
  function NewEnd(): (r: Link)
    ensures r.next.None?
  {
    Link(None)
  }

  /**
   * `Link::push_new(current_index, &mut next_link)`: swaps a fresh link to
   * `currentIndex` into the caller's head. The caller's `&mut` head is passed in
   * as `head` and comes back as `newHead`; the returned link is the old head.
   */
  method PushNew(currentIndex: nat, head: Link) returns (pushed: Link, newHead: Link)
    ensures newHead.next == Some(currentIndex)
    ensures pushed == head
  {
    var newLink := New(currentIndex);
    pushed, newHead := head, newLink;
  }
}
