/** The parts of an HTTP request the handlers and interceptors use. */
module Servlet {
  import opened Wrappers
  import opened Text

  /** A request attribute's value: a boxed Long, a String, or any other object. */
  datatype Attribute = LongValue(l: int) | StringValue(s: string) | OtherValue

  /** What the request line and the connection fix: URI, method, query string,
      headers and the peer address. Header names are case-insensitive, so the
      map is keyed by each name with its ASCII letters lower-cased. */
  datatype RequestInfo = RequestInfo(
    requestUri: string,
    httpMethod: string,
    queryString: Option<string>,
    headers: map<string, string>,
    remoteAddr: string)

  /** `getHeader(name)`: the value under the name, whatever the case of its letters. */
  function GetHeader(info: RequestInfo, name: string): (r: Option<string>)
    ensures r.Some? <==> LowerAscii(name) in info.headers
    ensures r.Some? ==> r.value == info.headers[LowerAscii(name)]
  {
    var key := LowerAscii(name);
    if key in info.headers then Some(info.headers[key]) else None
  }

  /** Two spellings of a header name that differ only in case find the same value. */
  lemma HeaderNameCaseIgnored(info: RequestInfo, a: string, b: string)
    requires |a| == |b| && forall i :: 0 <= i < |a| ==> LowerChar(a[i]) == LowerChar(b[i])
    ensures GetHeader(info, a) == GetHeader(info, b)
  {
    assert LowerAscii(a) == LowerAscii(b);
  }

  /** The header the proxy sends as `x-forwarded-for` is the one the
      interceptor reads as `X-Forwarded-For`. */
  lemma ForwardedForHeaderFolded(info: RequestInfo)
    ensures GetHeader(info, "X-Forwarded-For") == GetHeader(info, "x-forwarded-for")
  {
    HeaderNameCaseIgnored(info, "X-Forwarded-For", "x-forwarded-for");
  }

  /** One request in flight: fixed request data and mutable attributes. */
  class HttpRequest {
    const info: RequestInfo
    var attributes: map<string, Attribute>

    constructor (info: RequestInfo)
      ensures this.info == info && attributes == map[]
    {
      this.info := info;
      attributes := map[];
    }

    method SetAttribute(name: string, value: Attribute)
      modifies this
      ensures attributes == old(attributes)[name := value]
    {
      attributes := attributes[name := value];
    }
  }
}
