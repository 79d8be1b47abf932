/** The HTTP endpoint layer: each handler makes one registry call and maps
    its outcome (a value, an absence, or a storage error) to a response. */
module Handlers {
  import opened Links

  const OK: int := 200
  const CREATED: int := 201
  const NO_CONTENT: int := 204
  const NOT_FOUND: int := 404
  const INTERNAL_SERVER_ERROR: int := 500

  const NOT_FOUND_BODY: string := "Not Found"

  /** The JSON request body of a PUT: `{"href": "..."}`. */
  datatype Payload = Payload(href: string)

  /** What a handler sends back. `Redirect` stands for the framework's
      redirect to `location`; `NoBody` is a bare status code. */
  datatype Response =
    | Redirect(location: string)
    | Status(code: int, body: string)
    | JsonLink(code: int, link: Link)
    | JsonLinks(code: int, links: seq<Link>)
    | NoBody(code: int)

  predicate IsServerError(resp: Response)
  {
    resp.Status? && resp.code == INTERNAL_SERVER_ERROR
  }

  predicate IsNotFound(resp: Response)
  {
    resp.Status? && resp.code == NOT_FOUND
  }

  // ---------------------------------------------------------------------
  // Outcome -> response: the `match` / `map_err(internal_error)?` of
  // each handler
  // ---------------------------------------------------------------------

  /** `internal_error`: a storage error becomes a 500 carrying its message. */
  function InternalError(e: StorageError): (resp: Response)
    ensures IsServerError(resp) && resp.body == e.msg
  {
    Status(INTERNAL_SERVER_ERROR, e.msg)
  }

  function RedirectResponse(outcome: Result<Option<Link>>): (resp: Response)
    ensures outcome.Err? ==> resp == InternalError(outcome.error)
    ensures outcome == Ok(None) ==> resp == Status(NOT_FOUND, NOT_FOUND_BODY)
    ensures outcome.Ok? && outcome.value.Some? ==> resp == Redirect(outcome.value.value.href)
  {
    match outcome
    case Err(e) => InternalError(e)
    case Ok(Some(link)) => Redirect(link.href)
    case Ok(None) => Status(NOT_FOUND, NOT_FOUND_BODY)
  }

  function PutLinkResponse(outcome: Result<Link>): (resp: Response)
    ensures outcome.Err? ==> resp == InternalError(outcome.error)
    ensures outcome.Ok? ==> resp == JsonLink(CREATED, outcome.value)
  {
    match outcome
    case Err(e) => InternalError(e)
    case Ok(link) => JsonLink(CREATED, link)
  }

  function DeleteLinkResponse(outcome: Result<bool>): (resp: Response)
    ensures outcome.Err? ==> resp == InternalError(outcome.error)
    ensures outcome.Ok? ==> resp == NoBody(NO_CONTENT)  // whether or not a row was removed
  {
    match outcome
    case Err(e) => InternalError(e)
    case Ok(_) => NoBody(NO_CONTENT)
  }

  function GetLinkResponse(outcome: Result<Option<Link>>): (resp: Response)
    ensures outcome.Err? ==> resp == InternalError(outcome.error)
    ensures outcome == Ok(None) ==> resp == Status(NOT_FOUND, NOT_FOUND_BODY)
    ensures outcome.Ok? && outcome.value.Some? ==> resp == JsonLink(OK, outcome.value.value)
  {
    match outcome
    case Err(e) => InternalError(e)
    case Ok(Some(link)) => JsonLink(OK, link)
    case Ok(None) => Status(NOT_FOUND, NOT_FOUND_BODY)
  }

  function GetAllLinksResponse(outcome: Result<seq<Link>>): (resp: Response)
    ensures outcome.Err? ==> resp == InternalError(outcome.error)
    ensures outcome.Ok? ==> resp == JsonLinks(OK, outcome.value)
  {
    match outcome
    case Err(e) => InternalError(e)
    case Ok(links) => JsonLinks(OK, links)
  }

  /** Errors and absence stay apart: a lookup handler answers 500 exactly
      on a storage error and 404 exactly on an absent row. */
  lemma LookupOutcomesDisjoint(outcome: Result<Option<Link>>)
    ensures IsServerError(RedirectResponse(outcome)) <==> outcome.Err?
    ensures IsNotFound(RedirectResponse(outcome)) <==> outcome == Ok(None)
    ensures IsServerError(GetLinkResponse(outcome)) <==> outcome.Err?
    ensures IsNotFound(GetLinkResponse(outcome)) <==> outcome == Ok(None)
  {
  }

  /** The write and listing handlers never answer 404, and answer 500
      exactly on a storage error. */
  lemma OtherOutcomesNeverNotFound(put: Result<Link>, del: Result<bool>, all: Result<seq<Link>>)
    ensures IsServerError(PutLinkResponse(put)) <==> put.Err?
    ensures IsServerError(DeleteLinkResponse(del)) <==> del.Err?
    ensures IsServerError(GetAllLinksResponse(all)) <==> all.Err?
    ensures !IsNotFound(PutLinkResponse(put)) && !IsNotFound(DeleteLinkResponse(del))
    ensures !IsNotFound(GetAllLinksResponse(all))
  {
  }

  // ---------------------------------------------------------------------
  // The handlers against the registry's state
  // ---------------------------------------------------------------------

  /** `GET /{id}`: redirect to the stored destination. Read-only. */
  method HandleRedirect(reg: Registry, id: string, fault: Option<StorageError>) returns (resp: Response)
    ensures fault.Some? ==> resp == Status(INTERNAL_SERVER_ERROR, fault.value.msg)
    ensures fault.None? && id in reg.table ==> resp == Redirect(reg.table[id])
    ensures fault.None? && id !in reg.table ==> resp == Status(NOT_FOUND, NOT_FOUND_BODY)
  {
    var outcome := reg.Get(id, fault);
    resp := RedirectResponse(outcome);
  }

  /** `PUT /{id}`: one upsert of the payload's destination, answered
      with 201 and the record as written. */
  method PutLink(reg: Registry, id: string, payload: Payload, fault: Option<StorageError>)
    returns (resp: Response)
    modifies reg
    ensures fault.Some? ==> resp == Status(INTERNAL_SERVER_ERROR, fault.value.msg)
    ensures fault.Some? ==> reg.table == old(reg.table)
    ensures fault.None? ==> resp == JsonLink(CREATED, Link(id, payload.href))
    ensures fault.None? ==> reg.table == Upserted(old(reg.table), id, payload.href)
  {
    var outcome := reg.Insert(NewLink(id, payload.href), fault);
    resp := PutLinkResponse(outcome);
  }

  /** `DELETE /{id}`: 204 whether or not a row was removed. */
  method DeleteLink(reg: Registry, id: string, fault: Option<StorageError>) returns (resp: Response)
    modifies reg
    ensures fault.Some? ==> resp == Status(INTERNAL_SERVER_ERROR, fault.value.msg)
    ensures fault.Some? ==> reg.table == old(reg.table)
    ensures fault.None? ==> resp == NoBody(NO_CONTENT)
    ensures fault.None? ==> reg.table == Removed(old(reg.table), id)
  {
    var outcome := reg.Delete(id, fault);
    resp := DeleteLinkResponse(outcome);
  }

  /** `GET /debug/{id}`: the stored record as JSON. Read-only. */
  method GetLink(reg: Registry, id: string, fault: Option<StorageError>) returns (resp: Response)
    ensures fault.Some? ==> resp == Status(INTERNAL_SERVER_ERROR, fault.value.msg)
    ensures fault.None? && id in reg.table ==> resp == JsonLink(OK, Link(id, reg.table[id]))
    ensures fault.None? && id !in reg.table ==> resp == Status(NOT_FOUND, NOT_FOUND_BODY)
  {
    var outcome := reg.Get(id, fault);
    resp := GetLinkResponse(outcome);
  }

  /** `GET /debug`: every record, each once, as a JSON array. Read-only. */
  method GetAllLinks(reg: Registry, fault: Option<StorageError>) returns (resp: Response)
    ensures fault.Some? ==> resp == Status(INTERNAL_SERVER_ERROR, fault.value.msg)
    ensures fault.None? ==> resp.JsonLinks? && resp.code == OK && ListsExactly(resp.links, reg.table)
    ensures fault.None? ==> resp.JsonLinks? && |resp.links| == |reg.table|
  {
    var outcome := reg.GetAll(fault);
    resp := GetAllLinksResponse(outcome);
  }

  /** A client session against a fresh, healthy store: create a link,
      follow it, inspect it, delete it, and follow it again. */
  method PromoSession() returns (responses: seq<Response>)
    ensures responses == [
      JsonLink(CREATED, Link("promo", "https://example.com/sale")),
      Redirect("https://example.com/sale"),
      JsonLink(OK, Link("promo", "https://example.com/sale")),
      NoBody(NO_CONTENT),
      Status(NOT_FOUND, NOT_FOUND_BODY),
      NoBody(NO_CONTENT)
    ]
  {
    var reg := new Registry(map[]);
    var put := PutLink(reg, "promo", Payload("https://example.com/sale"), None);
    var follow := HandleRedirect(reg, "promo", None);
    var inspect := GetLink(reg, "promo", None);
    var del := DeleteLink(reg, "promo", None);
    var gone := HandleRedirect(reg, "promo", None);
    var delAgain := DeleteLink(reg, "promo", None);
    responses := [put, follow, inspect, del, gone, delAgain];
  }
}
