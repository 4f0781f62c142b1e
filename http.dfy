/**
 * The slice of JAX-RS `Response` / `ResponseBuilder` that the endpoints use:
 * a status, multi-valued headers, an optional media type and an optional
 * entity.  Header serialisation (the quoting of entity tags) is not modelled.
 */
module Http {
  import opened Wrappers

  /** The `Response.Status` values used: 200, 204, 403 and 500. */
  datatype Status = Ok | NoContent | Forbidden | InternalServerError

  /** A header value: an `EntityTag` object or plain text. */
  datatype HeaderValue = EntityTag(tag: string) | Text(text: string)

  type Headers = map<string, seq<HeaderValue>>

  /** A built response. */
  datatype Response<E> = Response(status: Status, headers: Headers, mediaType: Option<string>, entity: Option<E>)

  const TEXT_PLAIN: string := "text/plain"
  const ETAG: string := "ETag"

  /** `headers` after `header(name, value)`: the value is appended to that header's list. */
  function AddHeader(headers: Headers, name: string, value: HeaderValue): (r: Headers)
    ensures r.Keys == headers.Keys + {name}
    ensures r[name] == (if name in headers then headers[name] else []) + [value]
    ensures forall n :: n in headers && n != name ==> r[n] == headers[n]
  {
    headers[name := (if name in headers then headers[name] else []) + [value]]
  }

  /** `javax.ws.rs.core.Response.ResponseBuilder`. */
  class ResponseBuilder<E> {
    var status: Status
    var headers: Headers
    var mediaType: Option<string>
    var entity: Option<E>

    /** `Response.status(s)`. */
    constructor FromStatus(s: Status)
      ensures status == s && headers == map[] && mediaType == None && entity == None
    {
      status, headers, mediaType, entity := s, map[], None, None;
    }

    /** `Response.ok(e)`. */
    constructor WithEntity(e: E)
      ensures status == Ok && headers == map[] && mediaType == None && entity == Some(e)
    {
      status, headers, mediaType, entity := Ok, map[], None, Some(e);
    }

    /** `Response.serverError()`. */
    constructor ServerError()
      ensures status == InternalServerError && headers == map[] && mediaType == None && entity == None
    {
      status, headers, mediaType, entity := InternalServerError, map[], None, None;
    }

    /** `builder.header(name, value)`. */
    method Header(name: string, value: HeaderValue)
      modifies this
      ensures headers == AddHeader(old(headers), name, value)
      ensures status == old(status) && mediaType == old(mediaType) && entity == old(entity)
    {
      headers := AddHeader(headers, name, value);
    }

    /** `builder.entity(e)`. */
    method Entity(e: E)
      modifies this
      ensures entity == Some(e)
      ensures status == old(status) && headers == old(headers) && mediaType == old(mediaType)
    {
      entity := Some(e);
    }

    /** `builder.type(mt)`. */
    method Type(mt: string)
      modifies this
      ensures mediaType == Some(mt)
      ensures status == old(status) && headers == old(headers) && entity == old(entity)
    {
      mediaType := Some(mt);
    }

    /** `builder.build()`: the response carries exactly what was set. */
    function Build(): (r: Response<E>)
      reads this
      ensures r.status == status && r.headers == headers
      ensures r.mediaType == mediaType && r.entity == entity
    {
      Response(status, headers, mediaType, entity)
    }
  }
}
