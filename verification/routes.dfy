/**
 * The dividend routes: the `requireAdmin` gate and the handlers of
 * `GET/POST /api/dividends` and `PATCH/DELETE /api/dividends/:id`, each over the
 * one shared store. Schema validation (`safeParse`) reaches a handler as its
 * outcome; the session supplies the principal; the clock supplies `now`.
 */
module Routes {
  import opened Wrappers
  import opened Records
  import opened OrderedMaps
  import opened Storage

  /** What the session layer knows about the caller: `req.isAuthenticated()` and `req.user.isAdmin`. */
  datatype Principal = Principal(authenticated: bool, isAdmin: bool)

  /** The outcome of `schema.safeParse(req.body)`. */
  datatype Parsed<T> = Valid(data: T) | Invalid(issues: string)

  /** A response body. */
  datatype Payload =
    | NoContent
    | Message(text: string)
    | Record(record: Dividend)
    | Records(records: seq<Dividend>)
    | ValidationError(issues: string)

  /** What a handler does: send a response, or let an error the store threw escape. */
  datatype Reply = Respond(status: int, payload: Payload) | Thrown(error: string)

  const AdminRequired := "Admin access required"

  /** The verdict of a middleware: call the next handler, or answer at once. */
  datatype Gate = Next | Stop(reply: Reply)

  /**
   * `requireAdmin`: only an authenticated admin gets through; an anonymous caller
   * and an authenticated non-admin both get 403 "Admin access required".
   */
  function RequireAdmin(p: Principal): (g: Gate)
    ensures g.Next? <==> p.authenticated && p.isAdmin
    ensures g.Stop? ==> g.reply == Respond(403, Message(AdminRequired))
  {
    if !p.authenticated || !p.isAdmin then Stop(Respond(403, Message(AdminRequired))) else Next
  }

  /** `GET /api/dividends`: no gate; answers 200 with every record in creation order. */
  method ListDividends(store: MemStorage) returns (reply: Reply)
    requires store.Valid()
    ensures reply.Respond? && reply.status == 200 && reply.payload.Records?
    ensures reply.payload.records == store.GetAllDividends()
  {
    var all := store.GetAllDividends();
    reply := Respond(200, Records(all));
  }

  /**
   * `POST /api/dividends`: a caller the gate stops, or a body that fails the
   * schema (400), leaves the store as it was; otherwise the parsed record is
   * created and returned with 201.
   */
  method PostDividend(store: MemStorage, p: Principal, body: Parsed<NewDividend>, now: Timestamp)
    returns (reply: Reply)
    requires store.Valid()
    modifies store
    ensures store.Valid()
    ensures RequireAdmin(p).Stop? ==> reply == RequireAdmin(p).reply && unchanged(store)
    ensures RequireAdmin(p).Next? && body.Invalid? ==>
              reply == Respond(400, ValidationError(body.issues)) && unchanged(store)
    ensures RequireAdmin(p).Next? && body.Valid? ==>
              && reply == Respond(201, Record(Stamp(body.data, old(store.currentDividendId), now)))
              && store.currentDividendId == old(store.currentDividendId) + 1
              && store.dividends.keys == old(store.dividends.keys) + [old(store.currentDividendId)]
              && store.dividends.entries == old(store.dividends.entries)[old(store.currentDividendId) := reply.payload.record]
              && store.issuedDividendIds == old(store.issuedDividendIds) + {old(store.currentDividendId)}
    ensures store.users == old(store.users) && store.currentUserId == old(store.currentUserId)
    ensures store.issuedUserIds == old(store.issuedUserIds)
  {
    var gate := RequireAdmin(p);
    if gate.Stop? {
      return gate.reply;
    }
    if body.Invalid? {
      return Respond(400, ValidationError(body.issues));
    }
    var created := store.CreateDividend(body.data, now);
    reply := Respond(201, Record(created));
  }

  /**
   * `PATCH /api/dividends/:id`: the gate, then the partial schema (400 on
   * failure, store untouched); a valid patch goes to `updateDividend`, whose
   * merged record is answered with 200. There is no not-found branch: for an
   * unknown id the store's "Dividend not found" error escapes the handler.
   */
  method PatchDividend(store: MemStorage, p: Principal, id: int, body: Parsed<DividendPatch>, now: Timestamp)
    returns (reply: Reply)
    requires store.Valid()
    modifies store
    ensures store.Valid()
    ensures RequireAdmin(p).Stop? ==> reply == RequireAdmin(p).reply && unchanged(store)
    ensures RequireAdmin(p).Next? && body.Invalid? ==>
              reply == Respond(400, ValidationError(body.issues)) && unchanged(store)
    ensures RequireAdmin(p).Next? && body.Valid? && id !in old(store.dividends.entries) ==>
              reply == Thrown(NotFound) && store.dividends == old(store.dividends)
    ensures RequireAdmin(p).Next? && body.Valid? && id in old(store.dividends.entries) ==>
              && reply == Respond(200, Record(Merge(old(store.dividends.entries[id]), body.data, now)))
              && store.dividends.keys == old(store.dividends.keys)
              && store.dividends.entries == old(store.dividends.entries)[id := reply.payload.record]
    ensures store.users == old(store.users) && store.currentUserId == old(store.currentUserId)
    ensures store.issuedUserIds == old(store.issuedUserIds)
    ensures store.currentDividendId == old(store.currentDividendId)
    ensures store.issuedDividendIds == old(store.issuedDividendIds)
  {
    var gate := RequireAdmin(p);
    if gate.Stop? {
      return gate.reply;
    }
    if body.Invalid? {
      return Respond(400, ValidationError(body.issues));
    }
    var result := store.UpdateDividend(id, body.data, now);
    match result
    case Failure(e) => reply := Thrown(e);
    case Success(d) => reply := Respond(200, Record(d));
  }

  /**
   * `DELETE /api/dividends/:id`: the gate, then `deleteDividend`, then 204,
   * whether or not a record had that id.
   */
  method RemoveDividend(store: MemStorage, p: Principal, id: int) returns (reply: Reply)
    requires store.Valid()
    modifies store
    ensures store.Valid()
    ensures RequireAdmin(p).Stop? ==> reply == RequireAdmin(p).reply && unchanged(store)
    ensures RequireAdmin(p).Next? ==>
              && reply == Respond(204, NoContent)
              && store.dividends == Delete(old(store.dividends), id)
    ensures store.users == old(store.users) && store.currentUserId == old(store.currentUserId)
    ensures store.issuedUserIds == old(store.issuedUserIds)
    ensures store.currentDividendId == old(store.currentDividendId)
    ensures store.issuedDividendIds == old(store.issuedDividendIds)
  {
    var gate := RequireAdmin(p);
    if gate.Stop? {
      return gate.reply;
    }
    store.DeleteDividend(id);
    reply := Respond(204, NoContent);
  }
}
