/** `makeRequest` (main.go), reduced to what its callers can observe: a body,
    a Content-Type and a status, or an error. The network is a finite map
    from URL to the response the server would send; a URL missing from it
    is a transport error. Decompression is a given function. */
module Transport {
  import opened Wrappers
  import opened Text

  datatype Response = Response(body: Bytes, contentType: string, status: int)

  datatype FetchError = NetworkError | DecodeError

  /** What the outside world answers: the raw response per URL, and gzip
      decompression (None when the payload is not valid gzip). */
  datatype Network = Network(server: map<string, Response>, gunzip: Bytes -> Option<Bytes>)

  /** The `.gz` suffix test that selects decompression: the URL string is
      inspected, not the Content-Type. */
  function IsGzipURL(url: string): (r: bool)
    ensures r <==> exists p :: url == p + ".gz"
  {
    GzipSuffix(url);
    HasSuffix(url, ".gz")
  }

  lemma GzipSuffix(url: string)
    ensures HasSuffix(url, ".gz") <==> exists p :: url == p + ".gz"
  {
    if HasSuffix(url, ".gz") {
      assert url == url[..|url| - 3] + ".gz";
    }
    if exists p :: url == p + ".gz" {
      var p :| url == p + ".gz";
      assert url[|url| - 3..] == ".gz";
    }
  }

  /** One request. A transport error comes exactly from a URL the server
      does not know; a decode error comes exactly from a `.gz` URL whose
      payload does not decompress; a successful `.gz` fetch returns the
      decompressed payload; a URL without the suffix gets the raw response,
      whatever its Content-Type; a successful fetch always keeps the
      server's Content-Type and status. */
  function Fetch(net: Network, url: string): (r: Result<Response, FetchError>)
    ensures r == Failure(NetworkError) <==> url !in net.server
    ensures r == Failure(DecodeError) ==> IsGzipURL(url)
    ensures url in net.server && !IsGzipURL(url) ==> r == Success(net.server[url])
    ensures r.Success? ==> url in net.server && r.value.contentType == net.server[url].contentType
                           && r.value.status == net.server[url].status
    ensures url in net.server && IsGzipURL(url) ==>
              (r == Failure(DecodeError) <==> net.gunzip(net.server[url].body).None?)
    ensures r.Success? && IsGzipURL(url) ==> net.gunzip(net.server[url].body) == Some(r.value.body)
  {
    if url !in net.server then Failure(NetworkError)
    else
      var raw := net.server[url];
      if IsGzipURL(url) then
        match net.gunzip(raw.body)
        case None => Failure(DecodeError)
        case Some(plain) => Success(raw.(body := plain))
      else Success(raw)
  }

  /** Decompression is transparent: a `.gz` URL whose payload decompresses
      to the body served at a plain URL (same Content-Type and status)
      fetches exactly what the plain URL fetches. */
  lemma GzipTransparent(net: Network, gz: string, plain: string)
    requires IsGzipURL(gz) && !IsGzipURL(plain)
    requires gz in net.server && plain in net.server
    requires net.gunzip(net.server[gz].body) == Some(net.server[plain].body)
    requires net.server[gz].contentType == net.server[plain].contentType
    requires net.server[gz].status == net.server[plain].status
    ensures Fetch(net, gz) == Fetch(net, plain)
  {
  }
}
