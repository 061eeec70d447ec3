/**
  Concrete requests mapped by the model: the GET /test request of
  request_info_test.go; a POST whose body "hello" is captured raw or as
  base64 and left readable for the handler; two empty bodies, one that
  closing leaves readable and one that closing ends; and a chunked body
  whose trailer reaches the request only once the body is read.
*/
module Scenarios {
  import opened Wrappers
  import Base64
  import HttpNote
  import Marshal

  /** The URL httptest.NewRequest parses from "/test": a path and nothing else. */
  const TestURL := HttpNote.URL("", "", None, "", "/test", "", false, "", "", "")

  /** The record the test expects: method, URL path, protocol, host, remote address and request URI, every other field empty. */
  const TestRecord := HttpNote.RequestInfo(
    "GET", Some(HttpNote.URLInfo("", "", None, "", "/test", "", false, "", "", "")), "HTTP/1.1", 1, 1,
    map[], [], "", 0, [], false, "example.com", map[], "", map[], "", None, map[], "192.0.2.1:1234", "/test")

  /** The bytes of "hello". */
  const Hello: seq<Base64.byte> := [0x68, 0x65, 0x6c, 0x6c, 0x6f]

  /**
    GET /test as httptest.NewRequest builds it (body http.NoBody, host
    example.com, remote address 192.0.2.1:1234), mapped with encodeBytes
    set: the record the test expects, whatever the URL codec.
  */
  method MapTestRequest(codec: HttpNote.UrlCodec) returns (ri: Option<HttpNote.RequestInfo>)
    ensures ri == Some(TestRecord)
  {
    var body := new HttpNote.Body.NoBody();
    var r := new HttpNote.Request(
      "GET", Some(TestURL), "HTTP/1.1", 1, 1, map[], body, 0, [], false,
      "example.com", map[], map[], None, map[], "192.0.2.1:1234", "/test");
    ri := HttpNote.MapRequest(r, true, codec);
  }

  /** The test record writes the seven fields always written, and the URL. */
  lemma TestRecordWrites()
    ensures Marshal.AlwaysWritten + {Marshal.Url} <= Marshal.MarshalRequestInfo(TestRecord).Keys
  {
    Marshal.RequestInfoAlwaysWritten(TestRecord);
    Marshal.RequestInfoSparseBody(TestRecord);
  }

  /** The test record's empty body, content length, transfer encoding, close flag and form encodings are not written. */
  lemma TestRecordSkipsScalars()
    ensures Marshal.MarshalRequestInfo(TestRecord).Keys !! {
      Marshal.Body, Marshal.BodyBase64, Marshal.ContentLength, Marshal.TransferEncoding,
      Marshal.Close, Marshal.FormEncoded, Marshal.PostFormEncoded}
  {
    Marshal.RequestInfoSparseBody(TestRecord);
    Marshal.RequestInfoSparseScalars(TestRecord);
  }

  /** The test record's empty header, forms and trailer, and its absent multipart form, are not written. */
  lemma TestRecordSkipsMaps()
    ensures Marshal.MarshalRequestInfo(TestRecord).Keys !! {
      Marshal.Header, Marshal.Form, Marshal.PostForm, Marshal.MultipartForm, Marshal.Trailer}
  {
    Marshal.RequestInfoSparseMaps(TestRecord);
  }

  /** The test record's URL is written as an object holding only its path. */
  lemma TestRecordURL()
    ensures Marshal.MarshalRequestInfo(TestRecord)[Marshal.Url]
      == Marshal.URLObject(map[Marshal.Path := Marshal.Str("/test")])
  {
    var u := TestRecord.url.value;
    assert Marshal.RequestInfoField(TestRecord, Marshal.Url) == Some(Marshal.URLObject(Marshal.MarshalURLInfo(u)));
    var m := Marshal.MarshalURLInfo(u);
    forall k: Marshal.URLKey
      ensures k in m <==> k == Marshal.Path
    {
      assert k in m <==> Marshal.URLInfoField(u, k).Some?;
    }
    assert m == map[Marshal.Path := Marshal.Str("/test")];
  }

  /** "hello" in base64 is "aGVsbG8=". */
  lemma HelloBase64()
    ensures Base64.Encode(Hello) == "aGVsbG8="
    ensures Base64.Decode("aGVsbG8=") == Some(Hello)
  {
    assert Hello[3..] == [0x6c, 0x6f];
    assert Base64.EncodeBlock(0x68, 0x65, 0x6c) == "aGVs";
    assert Base64.Encode([0x6c, 0x6f]) == "bG8=";
    Base64.DecodeEncode(Hello);
  }

  /**
    POST / with the body "hello", mapped with encodeBytes set: the record
    holds the body only as its base64 text, and the handler that runs next
    still reads "hello" from the body.
  */
  method MapHelloEncoded(codec: HttpNote.UrlCodec) returns (ri: Option<HttpNote.RequestInfo>, after: HttpNote.ReadOutcome)
    ensures ri.Some? && ri.value.body == [] && ri.value.bodyBase64 == "aGVsbG8="
    ensures after == HttpNote.Read(Hello)
  {
    var body := new HttpNote.Body(HttpNote.Read(Hello), map[]);
    var r := new HttpNote.Request(
      "POST", Some(TestURL.(path := "/")), "HTTP/1.1", 1, 1, map[], body, 5, [], false,
      "example.com", map[], map[], None, map[], "192.0.2.1:1234", "/");
    ri := HttpNote.MapRequest(r, true, codec);
    HelloBase64();
    var delivered;
    after, delivered := r.body.ReadAll();
  }

  /** The same request mapped with encodeBytes unset: the record holds the raw bytes and no base64 text. */
  method MapHelloRaw(codec: HttpNote.UrlCodec) returns (ri: Option<HttpNote.RequestInfo>, after: HttpNote.ReadOutcome)
    ensures ri.Some? && ri.value.body == Hello && ri.value.bodyBase64 == ""
    ensures after == HttpNote.Read(Hello)
  {
    var body := new HttpNote.Body(HttpNote.Read(Hello), map[]);
    var r := new HttpNote.Request(
      "POST", Some(TestURL.(path := "/")), "HTTP/1.1", 1, 1, map[], body, 5, [], false,
      "example.com", map[], map[], None, map[], "192.0.2.1:1234", "/");
    ri := HttpNote.MapRequest(r, false, codec);
    var delivered;
    after, delivered := r.body.ReadAll();
  }

  /**
    POST / with Content-Length 0, whose body net/http sets to http.NoBody:
    nothing is captured, and closing it does nothing, so the handler still
    reads an empty body without error.
  */
  method MapNoBodyStaysReadable(codec: HttpNote.UrlCodec) returns (ri: Option<HttpNote.RequestInfo>, after: HttpNote.ReadOutcome)
    ensures ri.Some? && ri.value.body == [] && ri.value.bodyBase64 == ""
    ensures after == HttpNote.Read([])
  {
    var body := new HttpNote.Body.NoBody();
    var r := new HttpNote.Request(
      "POST", Some(TestURL.(path := "/")), "HTTP/1.1", 1, 1, map[], body, 0, [], false,
      "example.com", map[], map[], None, map[], "192.0.2.1:1234", "/");
    ri := HttpNote.MapRequest(r, true, codec);
    var delivered;
    after, delivered := r.body.ReadAll();
  }

  /**
    POST / with a chunked body that holds no data: a server body, so the
    mapper captures nothing and closes it, and a later read fails.
  */
  method MapEmptyChunkedBodyCloses(codec: HttpNote.UrlCodec) returns (ri: Option<HttpNote.RequestInfo>, after: HttpNote.ReadOutcome)
    ensures ri.Some? && ri.value.body == [] && ri.value.bodyBase64 == ""
    ensures ri.value.contentLength == -1 && ri.value.transferEncoding == ["chunked"]
    ensures after == HttpNote.ReadFailed
  {
    var body := new HttpNote.Body(HttpNote.Read([]), map[]);
    var r := new HttpNote.Request(
      "POST", Some(TestURL.(path := "/")), "HTTP/1.1", 1, 1, map[], body, -1, ["chunked"], false,
      "example.com", map[], map[], None, map[], "192.0.2.1:1234", "/");
    ri := HttpNote.MapRequest(r, true, codec);
    var delivered;
    after, delivered := r.body.ReadAll();
  }

  /**
    POST / with a chunked body "hello" whose header declares the trailer
    X-Sum, and whose client sends X-Sum: 1 after the last chunk. The first
    mapping clones the trailer before the read and so records the declared
    key with no values; its read fills the request's trailer, so a second
    mapping records the value.
  */
  method MapTrailerTwice(codec: HttpNote.UrlCodec) returns (first: Option<HttpNote.RequestInfo>, second: Option<HttpNote.RequestInfo>)
    ensures first.Some? && first.value.trailer == map["X-Sum" := []]
    ensures second.Some? && second.value.trailer == map["X-Sum" := ["1"]]
    ensures first != second
  {
    var body := new HttpNote.Body(HttpNote.Read(Hello), map["X-Sum" := ["1"]]);
    var r := new HttpNote.Request(
      "POST", Some(TestURL.(path := "/")), "HTTP/1.1", 1, 1, map["Trailer" := ["X-Sum"]], body, -1, ["chunked"], false,
      "example.com", map[], map[], None, map["X-Sum" := []], "192.0.2.1:1234", "/");
    first, second := HttpNote.MapRequestTwice(r, true, codec);
    assert HttpNote.MergeTrailer(map["X-Sum" := []], map["X-Sum" := ["1"]]) == map["X-Sum" := ["1"]];
  }
}
