/** Target URLs and the normaliser applied to every target before it is used. */
module Urls {
  import opened Optional

  /** A parsed URL, one field per field of Go's net/url.URL; `user` is absent when no user information is set. */
  datatype Url = Url(
    scheme: string,
    opaquePart: string,
    user: Option<string>,
    host: string,
    path: string,
    rawPath: string,
    forceQuery: bool,
    rawQuery: string,
    fragment: string)

  /** The schemes a dispatcher uses verbatim; its constructor always sets exactly these two. */
  const SupportedSchemes: set<string> := {"http", "https"}

  /** `http://<host>/` and nothing else. */
  function HostOnly(host: string): Url
  {
    Url("http", "", None, host, "/", "", false, "", "")
  }

  /** Makes a host-only routing hint dispatchable: a URL with a supported scheme is kept as it is,
      any other URL becomes `http://<its host>/`, and an absent URL stays absent. */
  function SanitizeUrl(u: Option<Url>): (r: Option<Url>)
    ensures r.None? <==> u.None?
    ensures u.Some? && u.value.scheme in SupportedSchemes ==> r == u
    ensures u.Some? && u.value.scheme !in SupportedSchemes ==>
      r.value.scheme == "http" && r.value.host == u.value.host && r.value.path == "/" &&
      r.value.opaquePart == "" && r.value.user.None? && r.value.rawPath == "" &&
      !r.value.forceQuery && r.value.rawQuery == "" && r.value.fragment == ""
    ensures r.Some? ==> r.value.scheme in SupportedSchemes && r.value.host == u.value.host
  {
    match u
    case None => None
    case Some(url) => if url.scheme in SupportedSchemes then u else Some(HostOnly(url.host))
  }

  /** Sanitizing twice is sanitizing once: every sanitized URL already has a supported scheme. */
  lemma SanitizeIdempotent(u: Option<Url>)
    ensures SanitizeUrl(SanitizeUrl(u)) == SanitizeUrl(u)
  {
  }

  /** A host-only hint `h` (no scheme, no path) is dispatched as `http://h/`. */
  lemma SanitizeHostOnlyHint(h: string)
    ensures SanitizeUrl(Some(Url("", "", None, h, "", "", false, "", ""))) == Some(HostOnly(h))
  {
  }
}
