/** What the crawl and the snapshot share about the web: failed requests and `urljoin`. */
module Web {

  /** `fetch(url)` raised: the request failed or the response status was an error. */
  datatype FetchError = FetchError(url: string)

  /** `urljoin(base, ref)`, left uninterpreted and assumed total. */
  type Join = (string, string) -> string
}
