/** The HTTP values the gateway reads and builds: the fields of an inbound
    request that its rules look at, and responses as goproxy.NewResponse
    creates them and `Header.Set` / `Header.Add` complete them. */
module Http {

  datatype Option<+T> = None | Some(value: T)

  /** An inbound request: the method (`verb`), the Host header, the URL's decoded
      path and its raw (still encoded) query string, without the `?`. */
  datatype Request = Request(verb: string, host: string, path: string, rawQuery: string)

  const MethodGet: string := "GET"

  const StatusOK: int := 200
  const StatusPermanentRedirect: int := 308
  const StatusNotFound: int := 404
  const StatusInternalServerError: int := 500

  /** http.Header: every key carries the list of its values, in order. */
  type Header = map<string, seq<string>>

  /** Header.Set: `key` now has `value` as its only value. */
  function HeaderSet(h: Header, key: string, value: string): (h': Header)
    ensures h'.Keys == h.Keys + {key}
    ensures h'[key] == [value]
    ensures forall k :: k in h && k != key ==> h'[k] == h[k]
  {
    h[key := [value]]
  }

  /** Header.Add: `value` is appended to the values `key` already has. */
  function HeaderAdd(h: Header, key: string, value: string): (h': Header)
    ensures h'.Keys == h.Keys + {key}
    ensures h'[key] == (if key in h then h[key] else []) + [value]
    ensures forall k :: k in h && k != key ==> h'[k] == h[k]
  {
    h[key := (if key in h then h[key] else []) + [value]]
  }

  /** A response. `body` holds the bytes sent back; `delayed` records that the
      handler held the request for its fixed wait before answering (the wait
      itself is not modelled). */
  datatype Response = Response(status: int, header: Header, body: string, delayed: bool)

  /** The response holds exactly `values` under `key`. */
  predicate HasHeader(resp: Response, key: string, values: seq<string>)
  {
    key in resp.header && resp.header[key] == values
  }

  /** goproxy.NewResponse: a fresh response whose only header is the
      content type, answered without delay. */
  function NewResponse(contentType: string, status: int, body: string): (resp: Response)
    ensures resp.status == status && resp.body == body && !resp.delayed
    ensures resp.header.Keys == {"Content-Type"} && HasHeader(resp, "Content-Type", [contentType])
  {
    Response(status, HeaderAdd(map[], "Content-Type", contentType), body, false)
  }
}
