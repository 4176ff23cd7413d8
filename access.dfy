/**
 * The owner-or-admin rule that every job- and result-level action of the
 * src controllers applies: the row is looked up first (404), then the
 * signed-in user (401), then "admin or owner" is required (Forbid).
 */
module Access {
  import opened Common

  /** A requester may act on a row when they are an admin or own it. */
  predicate MayAccess<U(==)>(isAdmin: bool, ownerId: U, requesterId: U) {
    isAdmin || ownerId == requesterId
  }

  datatype Gate = NotFound | Unauthorized | Forbid | Allowed

  /**
   * The three checks in the order the actions run them. `owner` is the owner of
   * the row looked up (None when no row has the id); `requester` is the id of the
   * current user (None when the signed-in e-mail matches no user).
   */
  function CheckAccess<U(==)>(owner: Option<U>, requester: Option<U>, isAdmin: bool): (g: Gate)
    ensures owner.None? ==> g == NotFound
    ensures owner.Some? && requester.None? ==> g == Unauthorized
    ensures g == Allowed <==> owner.Some? && requester.Some? && MayAccess(isAdmin, owner.value, requester.value)
    ensures g == Forbid <==> owner.Some? && requester.Some? && !isAdmin && owner.value != requester.value
  {
    if owner.None? then NotFound
    else if requester.None? then Unauthorized
    else if !MayAccess(isAdmin, owner.value, requester.value) then Forbid
    else Allowed
  }

  /** The message an MVC action puts into TempData["Error"] or TempData["Success"] before it redirects. */
  datatype Notice = Error(text: string) | Success(text: string)
}
