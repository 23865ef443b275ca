/**
 * Shared vocabulary of the chat backend model: nullable values, the HTTP
 * status codes the services raise through ResponseStatusException, and the
 * first-match scan that every repository lookup by key reduces to.
 */
module Common {

  /** A Java reference that may be null, or a JavaScript value that may be null/undefined. */
  datatype Option<+T> = None | Some(value: T)

  /** The statuses ChatRoomService raises; an uncaught NoSuchElementException is mapped to 500. */
  datatype HttpStatus = NotFound | Forbidden | BadRequest | InternalServerError

  /**
   * The outcome of a @Transactional service call. A failure carries no state:
   * the transaction rolls back, so the caller keeps the state it had.
   */
  datatype Result<+T> = Ok(value: T) | Err(status: HttpStatus)

  /** The position of the first element of `xs` satisfying `p`, or `|xs|` when there is none. */
  function FirstIndex<T>(xs: seq<T>, p: T -> bool): (i: nat)
    ensures i <= |xs|
    ensures i < |xs| ==> p(xs[i])
    ensures forall j | 0 <= j < i :: !p(xs[j])
  {
    if |xs| == 0 then 0
    else if p(xs[0]) then 0
    else 1 + FirstIndex(xs[1..], p)
  }

  /** The first element of `xs` satisfying `p`, as a `findFirst()` over a table would give it. */
  function First<T>(xs: seq<T>, p: T -> bool): (r: Option<T>)
    ensures r.Some? ==> r.value in xs && p(r.value)
    ensures r.None? <==> forall x | x in xs :: !p(x)
  {
    var i := FirstIndex(xs, p);
    if i < |xs| then Some(xs[i]) else None
  }

  /** When at most one element satisfies `p`, the first match is that element. */
  lemma {:induction false} FirstOfUnique<T>(xs: seq<T>, p: T -> bool, x: T)
    requires x in xs && p(x)
    requires forall i, j | 0 <= i < j < |xs| :: p(xs[i]) && p(xs[j]) ==> xs[i] == xs[j]
    ensures First(xs, p) == Some(x)
  {
    var i := FirstIndex(xs, p);
    var k :| 0 <= k < |xs| && xs[k] == x;
    if i < k {
      assert xs[i] == xs[k];
    }
  }
}
