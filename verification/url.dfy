/**
  The redirect lookup of the seed URL (`url/url.go`, `GetRedirectURL`). The HTTP
  request itself is external: its outcome is the input `Response`, and the
  model is the decision taken on it.
*/
module Url {
  import Fmt

  /** Response headers, keyed by canonical header name, as `net/http` stores them. */
  type Header = map<string, seq<string>>

  /** `http.Header.Get`: the first value stored under `key`, or "" when there is none. */
  function HeaderGet(h: Header, key: string): (v: string)
    ensures key in h && |h[key]| > 0 ==> v == h[key][0]
    ensures key !in h ==> v == ""
  {
    if key in h && |h[key]| > 0 then h[key][0] else ""
  }

  /**
    What the single GET of the seed URL gave: a transport failure, or a response
    (redirects are not followed, so a 3xx response comes back as it is).
  */
  datatype Response =
    | TransportError
    | Response(statusCode: int, header: Header)

  /**
    The three ways `GetRedirectURL` ends: it returns the `Location` value, it
    returns an error carrying a message, or (on a transport failure) it ends the
    whole process with exit status 1 and returns nothing.
  */
  datatype Resolution =
    | Redirect(url: string)
    | StatusError(message: string)
    | ExitOnTransportError

  /** The five status codes accepted as a redirect: 301, 302, 303, 307 and 308. */
  predicate IsRedirectStatus(code: int)
  {
    code == 301 || code == 302 || code == 303 || code == 307 || code == 308
  }

  const StatusErrorPrefix := "unexpected status code: "

  function GetRedirectURL(resp: Response): (r: Resolution)
    ensures r.ExitOnTransportError? <==> resp.TransportError?
    ensures r.Redirect? <==> resp.Response? && IsRedirectStatus(resp.statusCode)
    ensures r.Redirect? ==> r.url == HeaderGet(resp.header, "Location")
    ensures r.StatusError? ==>
      && StatusErrorPrefix <= r.message
      && Fmt.ParseInt(r.message[|StatusErrorPrefix|..]).Some?
      && Fmt.ParseInt(r.message[|StatusErrorPrefix|..]).value == resp.statusCode
  {
    match resp
    case TransportError => ExitOnTransportError
    case Response(code, header) =>
      if IsRedirectStatus(code) then Redirect(HeaderGet(header, "Location"))
      else
        var message := StatusErrorPrefix + Fmt.FormatInt(code);
        assert message[|StatusErrorPrefix|..] == Fmt.FormatInt(code);
        Fmt.ParseIntOfFormatInt(code);
        StatusError(message)
  }

  /** A non-redirect status, 200 and 304 included, never yields a URL; the message names it. */
  lemma NonRedirectStatusFails(code: int, h: Header)
    requires !IsRedirectStatus(code)
    ensures GetRedirectURL(Response(code, h)) == StatusError(StatusErrorPrefix + Fmt.FormatInt(code))
  {
  }

  /** Two different non-redirect statuses give two different error messages. */
  lemma StatusErrorsDistinguishCodes(a: int, b: int, h: Header, k: Header)
    requires !IsRedirectStatus(a) && !IsRedirectStatus(b) && a != b
    ensures GetRedirectURL(Response(a, h)) != GetRedirectURL(Response(b, k))
  {
    var ma := StatusErrorPrefix + Fmt.FormatInt(a);
    var mb := StatusErrorPrefix + Fmt.FormatInt(b);
    if ma == mb {
      assert ma[|StatusErrorPrefix|..] == Fmt.FormatInt(a);
      assert mb[|StatusErrorPrefix|..] == Fmt.FormatInt(b);
      Fmt.FormatIntInjective(a, b);
    }
  }

  /** A redirect without a `Location` header is still a success, with the empty URL. */
  lemma RedirectWithoutLocation(code: int, h: Header)
    requires IsRedirectStatus(code) && "Location" !in h
    ensures GetRedirectURL(Response(code, h)) == Redirect("")
  {
  }
}
