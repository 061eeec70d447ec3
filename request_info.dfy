/**
  The mapping of request_info.go: an inbound HTTP request is turned into a
  plain RequestInfo record. The request is an object whose body stream the
  mapper drains and puts back; URLs, user-info, forms and multipart file
  headers are values. Reads of a body or of a multipart file are abstract
  outcomes: the bytes the read returns, or a failure.
*/
module HttpNote {
  import opened Wrappers
  import Base64

  type byte = Base64.byte

  /** http.Header and textproto.MIMEHeader: a key with its list of values. */
  type Header = map<string, seq<string>>

  /** url.Values, the parsed form of a query or a request body. */
  type Values = map<string, seq<string>>

  /** What reading a stream to its end yields (io.ReadAll). */
  datatype ReadOutcome = Read(bytes: seq<byte>) | ReadFailed

  /** What multipart.FileHeader.Open yields: a failure, or a file whose full read has this outcome. */
  datatype OpenOutcome = OpenFailed | Opened(read: ReadOutcome)

  /** url.Userinfo: a user name and a password that may or may not have been given. */
  datatype Userinfo = Userinfo(username: string, password: string, passwordSet: bool)

  /** The fields of url.URL that the mapper copies. */
  datatype URL = URL(
    scheme: string, opaqueData: string, user: Option<Userinfo>, host: string, path: string,
    rawPath: string, forceQuery: bool, rawQuery: string, fragment: string, rawFragment: string)

  /** multipart.FileHeader, with the outcome of opening and reading the file it describes. */
  datatype FileHeader = FileHeader(filename: string, header: Header, size: int, content: OpenOutcome)

  /** multipart.Form: simple values, and file headers (None is a nil entry) per field name. */
  datatype MultipartForm = MultipartForm(value: Values, file: map<string, seq<Option<FileHeader>>>)

  /**
    The two net/url routines the mapper calls: Values.Encode, which
    re-serialises a form, and Userinfo.String, which gives "user" or
    "user:password" with escaping. Their definitions are not part of this
    model, so they are passed in.
  */
  datatype UrlCodec = UrlCodec(encodeValues: Values -> string, userinfoString: Userinfo -> string)

  // The snapshot records.

  datatype UserInfo = UserInfo(username: string, password: string, encoded: string)

  datatype URLInfo = URLInfo(
    scheme: string, opaqueData: string, user: Option<UserInfo>, host: string, path: string,
    rawPath: string, forceQuery: bool, rawQuery: string, fragment: string, rawFragment: string)

  datatype FileHeaderInfo = FileHeaderInfo(
    filename: string, mimeHeader: Header, size: int, file: seq<byte>, fileBase64: string)

  datatype FormInfo = FormInfo(value: Values, file: map<string, seq<FileHeaderInfo>>)

  datatype RequestInfo = RequestInfo(
    requestMethod: string, url: Option<URLInfo>, proto: string, protoMajor: int, protoMinor: int,
    header: Header, body: seq<byte>, bodyBase64: string, contentLength: int,
    transferEncoding: seq<string>, close: bool, host: string,
    form: Values, formEncoded: string, postForm: Values, postFormEncoded: string,
    multipartForm: Option<FormInfo>, trailer: Header, remoteAddr: string, requestURI: string)

  /** Captured bytes: raw, or as base64 text. */
  datatype Content = Content(raw: seq<byte>, base64: string)

  /** A content holds bytes in at most one of its two forms. */
  predicate Exclusive(c: Content)
  {
    c.raw == [] || c.base64 == ""
  }

  /** Whether a content holds any bytes at all. */
  predicate Populated(c: Content)
  {
    c.raw != [] || c.base64 != ""
  }

  /**
    Stores bytes that were read successfully: raw when encodeBytes is
    false, otherwise as their base64 text (section 4 of RFC 4648).
  */
  function Store(bytes: seq<byte>, encodeBytes: bool): (c: Content)
    ensures Exclusive(c)
    ensures Populated(c) <==> bytes != []
    ensures !encodeBytes ==> c.raw == bytes && c.base64 == ""
    ensures encodeBytes ==> c.raw == [] && Base64.Decode(c.base64) == Some(bytes)
  {
    Base64.EncodeEmpty(bytes);
    Base64.DecodeEncode(bytes);
    if !encodeBytes then Content(bytes, "") else Content([], Base64.Encode(bytes))
  }

  /** The body read succeeded and gave at least one byte: the case in which the body is captured. */
  predicate Captures(read: ReadOutcome)
  {
    read.Read? && read.bytes != []
  }

  /** The Body and BodyBase64 fields of the record, given the outcome of reading the body. */
  function CaptureBody(read: ReadOutcome, encodeBytes: bool): (c: Content)
    ensures Exclusive(c)
    ensures Populated(c) <==> Captures(read)
    ensures Captures(read) && !encodeBytes ==> c.raw == read.bytes
    ensures Captures(read) && encodeBytes ==> Base64.Decode(c.base64) == Some(read.bytes)
  {
    if Captures(read) then Store(read.bytes, encodeBytes) else Content([], "")
  }

  /** The user-info record: name and encoded form always, the password only when one was given. */
  function MapUserinfo(u: Userinfo, codec: UrlCodec): (ui: UserInfo)
    ensures ui.username == u.username && ui.encoded == codec.userinfoString(u)
    ensures u.passwordSet ==> ui.password == u.password
    ensures !u.passwordSet ==> ui.password == ""
  {
    var ui := UserInfo(u.username, "", codec.userinfoString(u));
    if u.passwordSet then ui.(password := u.password) else ui
  }

  /** The URL record: nil for a nil URL, otherwise the nine fields verbatim and the mapped user-info. */
  function MapURL(u: Option<URL>, codec: UrlCodec): (ui: Option<URLInfo>)
    ensures ui.Some? <==> u.Some?
    ensures u.Some? ==>
      var v, w := u.value, ui.value;
      && w.scheme == v.scheme && w.opaqueData == v.opaqueData && w.host == v.host
      && w.path == v.path && w.rawPath == v.rawPath && w.forceQuery == v.forceQuery
      && w.rawQuery == v.rawQuery && w.fragment == v.fragment && w.rawFragment == v.rawFragment
      && (w.user.Some? <==> v.user.Some?)
      && (v.user.Some? ==> w.user.value == MapUserinfo(v.user.value, codec))
  {
    match u
    case None => None
    case Some(v) =>
      var user := match v.user case None => None case Some(x) => Some(MapUserinfo(x, codec));
      Some(URLInfo(v.scheme, v.opaqueData, user, v.host, v.path, v.rawPath, v.forceQuery,
                   v.rawQuery, v.fragment, v.rawFragment))
  }

  /**
    One file header: nil for nil; otherwise the name, MIME header and size
    always, and the content only when both the open and the read succeed.
  */
  function MapFileHeader(fh: Option<FileHeader>, encodeBytes: bool): (fhi: Option<FileHeaderInfo>)
    ensures fhi.Some? <==> fh.Some?
    ensures fh.Some? ==>
      var h, i := fh.value, fhi.value;
      && i.filename == h.filename && i.mimeHeader == h.header && i.size == h.size
      && Exclusive(Content(i.file, i.fileBase64))
      && (Populated(Content(i.file, i.fileBase64)) <==> h.content.Opened? && Captures(h.content.read))
      && (h.content.Opened? && h.content.read.Read? ==>
            if encodeBytes then Base64.Decode(i.fileBase64) == Some(h.content.read.bytes)
            else i.file == h.content.read.bytes)
  {
    match fh
    case None => None
    case Some(h) =>
      var fhi := FileHeaderInfo(h.filename, h.header, h.size, [], "");
      if h.content.Opened? && h.content.read.Read? then
        var c := Store(h.content.read.bytes, encodeBytes);
        Some(fhi.(file := c.raw, fileBase64 := c.base64))
      else Some(fhi)
  }

  /** The records of the non-nil entries of one field's file list, in their order. */
  function MapFileHeaders(v: seq<Option<FileHeader>>, encodeBytes: bool): seq<FileHeaderInfo>
  {
    if v == [] then []
    else
      var init := MapFileHeaders(v[..|v| - 1], encodeBytes);
      match v[|v| - 1]
      case None => init
      case Some(h) => init + [MapFileHeader(Some(h), encodeBytes).value]
  }

  /** The positions of the non-nil entries of v, in increasing order. */
  function NonNilPositions(v: seq<Option<FileHeader>>): seq<int>
  {
    if v == [] then []
    else NonNilPositions(v[..|v| - 1]) + (if v[|v| - 1].Some? then [|v| - 1] else [])
  }

  /** The positions NonNilPositions gives are the non-nil entries of v, each once, in increasing order. */
  lemma {:induction false} NonNilPositionsExact(v: seq<Option<FileHeader>>)
    ensures forall j :: 0 <= j < |NonNilPositions(v)| ==> 0 <= NonNilPositions(v)[j] < |v|
    ensures forall j :: 0 <= j < |NonNilPositions(v)| ==> v[NonNilPositions(v)[j]].Some?
    ensures forall j, k :: 0 <= j < k < |NonNilPositions(v)| ==> NonNilPositions(v)[j] < NonNilPositions(v)[k]
    ensures forall i :: 0 <= i < |v| && v[i].Some? ==> i in NonNilPositions(v)
  {
    if v != [] {
      var u, last := v[..|v| - 1], |v| - 1;
      NonNilPositionsExact(u);
      var pos, all := NonNilPositions(u), NonNilPositions(v);
      assert all == pos + if v[last].Some? then [last] else [];
      forall j | 0 <= j < |all|
        ensures 0 <= all[j] < |v| && v[all[j]].Some?
      {
        if j < |pos| {
          assert all[j] == pos[j] && u[pos[j]] == v[pos[j]];
        }
      }
      forall j, k | 0 <= j < k < |all|
        ensures all[j] < all[k]
      {
        if k < |pos| {
          assert all[j] == pos[j] && all[k] == pos[k];
        } else {
          assert all[j] == pos[j] && pos[j] < |u|;
        }
      }
      forall i | 0 <= i < |v| && v[i].Some?
        ensures i in all
      {
        if i < last {
          assert u[i] == v[i];
          assert i in pos;
        }
      }
    }
  }

  /** The j-th record MapFileHeaders gives maps the entry at the j-th non-nil position. */
  lemma {:induction false} MapFileHeadersAtPositions(v: seq<Option<FileHeader>>, encodeBytes: bool)
    ensures var r, pos := MapFileHeaders(v, encodeBytes), NonNilPositions(v);
      && |r| == |pos|
      && (forall j :: 0 <= j < |pos| ==> 0 <= pos[j] < |v| && Some(r[j]) == MapFileHeader(v[pos[j]], encodeBytes))
  {
    if v != [] {
      var u := v[..|v| - 1];
      MapFileHeadersAtPositions(u, encodeBytes);
      assert forall i :: 0 <= i < |u| ==> u[i] == v[i];
      var r, pos := MapFileHeaders(u, encodeBytes), NonNilPositions(u);
      match v[|v| - 1]
      case None =>
        assert MapFileHeaders(v, encodeBytes) == r && NonNilPositions(v) == pos;
      case Some(h) =>
        assert MapFileHeaders(v, encodeBytes) == r + [MapFileHeader(Some(h), encodeBytes).value];
        assert NonNilPositions(v) == pos + [|v| - 1];
    }
  }

  /**
    MapFileHeaders keeps exactly the non-nil entries, in their original
    order: its j-th record maps the j-th non-nil entry, the positions of
    those entries increase, and every non-nil entry has a position.
  */
  lemma MapFileHeadersKeepsOrder(v: seq<Option<FileHeader>>, encodeBytes: bool)
    ensures var r, pos := MapFileHeaders(v, encodeBytes), NonNilPositions(v);
      && |r| == |pos|
      && (forall j :: 0 <= j < |pos| ==> 0 <= pos[j] < |v| && v[pos[j]].Some?)
      && (forall j :: 0 <= j < |pos| ==> Some(r[j]) == MapFileHeader(v[pos[j]], encodeBytes))
      && (forall j, k :: 0 <= j < k < |pos| ==> pos[j] < pos[k])
      && (forall i :: 0 <= i < |v| && v[i].Some? ==> i in pos)
  {
    NonNilPositionsExact(v);
    MapFileHeadersAtPositions(v, encodeBytes);
  }

  /** The multipart record: simple values as they are, and the records of each field's files. */
  function FormInfoOf(f: MultipartForm, encodeBytes: bool): (fi: FormInfo)
    ensures fi.value == f.value
    ensures fi.file.Keys == f.file.Keys
    ensures forall k :: k in f.file ==> fi.file[k] == MapFileHeaders(f.file[k], encodeBytes)
  {
    FormInfo(
      if |f.value| > 0 then f.value else map[],
      if |f.file| > 0 then map k | k in f.file :: MapFileHeaders(f.file[k], encodeBytes) else map[])
  }

  /** The record of a request's multipart form: nil for nil, FormInfoOf otherwise. */
  function MultipartInfoOf(f: Option<MultipartForm>, encodeBytes: bool): (fi: Option<FormInfo>)
    ensures fi.Some? <==> f.Some?
    ensures f.Some? ==> fi.value == FormInfoOf(f.value, encodeBytes)
  {
    match f
    case None => None
    case Some(form) => Some(FormInfoOf(form, encodeBytes))
  }

  /**
    MapForm: nil for nil; otherwise builds the file map field by field,
    in whatever order the map is walked, appending the record of each
    non-nil file header.
  */
  method MapForm(f: Option<MultipartForm>, encodeBytes: bool) returns (fi: Option<FormInfo>)
    ensures fi.Some? <==> f.Some?
    ensures f.Some? ==> fi.value == FormInfoOf(f.value, encodeBytes)
  {
    if f.None? {
      return None;
    }
    var form := f.value;
    var info := FormInfo(map[], map[]);
    if |form.value| > 0 {
      info := info.(value := form.value);
    }
    if |form.file| > 0 {
      var fileMap: map<string, seq<FileHeaderInfo>> := map[];
      var todo := form.file.Keys;
      while todo != {}
        invariant todo <= form.file.Keys
        invariant fileMap.Keys == form.file.Keys - todo
        invariant forall k :: k in fileMap ==> fileMap[k] == MapFileHeaders(form.file[k], encodeBytes)
        decreases |todo|
      {
        var k :| k in todo;
        var v := form.file[k];
        var slice: seq<FileHeaderInfo> := [];
        var i := 0;
        while i < |v|
          invariant 0 <= i <= |v|
          invariant slice == MapFileHeaders(v[..i], encodeBytes)
        {
          assert v[..i + 1][..i] == v[..i];
          if v[i].Some? {
            var fhi := MapFileHeader(v[i], encodeBytes);
            slice := slice + [fhi.value];
          }
          i := i + 1;
        }
        assert v[..i] == v;
        fileMap := fileMap[k := slice];
        todo := todo - {k};
      }
      info := info.(file := fileMap);
    }
    fi := Some(info);
  }

  /**
    The trailer a read with this outcome hands over: the trailer the client
    sent when the read reached the end, nothing when it failed.
  */
  function Delivered(read: ReadOutcome, sent: Header): (d: Header)
    ensures read.Read? ==> d == sent
    ensures read.ReadFailed? ==> d == map[]
  {
    if read.Read? then sent else map[]
  }

  /** net/http's mergeSetHeader, which fills the request's trailer when its body is read to the end. */
  function MergeTrailer(declared: Header, delivered: Header): (t: Header)
    ensures delivered == map[] ==> t == declared
  {
    declared + delivered
  }

  /** Each key handed over replaces the request's entry for it, and the other entries stay. */
  lemma MergeTrailerEntries(declared: Header, delivered: Header)
    ensures MergeTrailer(declared, delivered).Keys == declared.Keys + delivered.Keys
    ensures forall k :: k in delivered ==> MergeTrailer(declared, delivered)[k] == delivered[k]
    ensures forall k :: k in declared && k !in delivered ==> MergeTrailer(declared, delivered)[k] == declared[k]
  {
  }

  /**
    A request body (an io.ReadCloser), seen through what reading it to the
    end yields. Reading drains it, and a read that reaches the end hands
    over the trailer the client sent after a chunked body; closing a server
    body makes later reads fail, while closing an io.NopCloser does nothing.
  */
  class Body {
    var unread: ReadOutcome
    var trailerAtEnd: Header
    var closed: bool
    const nopClose: bool

    /**
      A body net/http's server hands over for a request with content: the
      content, and the trailer the client sends after it (empty unless the
      body is chunked); closing it ends later reads.
    */
    constructor (content: ReadOutcome, trailer: Header)
      ensures unread == content && trailerAtEnd == trailer && !closed && !nopClose
    {
      unread := content;
      trailerAtEnd := trailer;
      closed := false;
      nopClose := false;
    }

    /** io.NopCloser(bytes.NewBuffer(bytes)). */
    constructor Buffer(bytes: seq<byte>)
      ensures unread == Read(bytes) && trailerAtEnd == map[] && !closed && nopClose
    {
      unread := Read(bytes);
      trailerAtEnd := map[];
      closed := false;
      nopClose := true;
    }

    /** http.NoBody: reads give no bytes, and Close does nothing. */
    constructor NoBody()
      ensures unread == Read([]) && trailerAtEnd == map[] && !closed && nopClose
    {
      unread := Read([]);
      trailerAtEnd := map[];
      closed := false;
      nopClose := true;
    }

    /** What a full read would yield now. */
    function Pending(): ReadOutcome
      reads this
    {
      if closed then ReadFailed else unread
    }

    /**
      io.ReadAll: the pending outcome, and the trailer handed over on the
      way; a successful read reaches the end, so it leaves nothing unread
      and hands over the trailer once.
    */
    method ReadAll() returns (r: ReadOutcome, delivered: Header)
      modifies this`unread, this`trailerAtEnd
      ensures r == old(Pending())
      ensures delivered == Delivered(r, old(trailerAtEnd))
      ensures unread == if r.Read? then Read([]) else old(unread)
      ensures trailerAtEnd == if r.Read? then map[] else old(trailerAtEnd)
    {
      r := Pending();
      delivered := map[];
      if r.Read? {
        unread := Read([]);
        delivered := trailerAtEnd;
        trailerAtEnd := map[];
      }
    }

    method Close()
      modifies this`closed
      ensures closed == (old(closed) || !nopClose)
    {
      if !nopClose {
        closed := true;
      }
    }
  }

  /**
    http.Request: the mapper replaces only its body, and reading the body to
    the end fills its trailer.
  */
  class Request {
    var requestMethod: string
    var url: Option<URL>
    var proto: string
    var protoMajor: int
    var protoMinor: int
    var header: Header
    var body: Body
    var contentLength: int
    var transferEncoding: seq<string>
    var close: bool
    var host: string
    var form: Values
    var postForm: Values
    var multipartForm: Option<MultipartForm>
    var trailer: Header
    var remoteAddr: string
    var requestURI: string

    constructor (
      requestMethod: string, url: Option<URL>, proto: string, protoMajor: int, protoMinor: int,
      header: Header, body: Body, contentLength: int, transferEncoding: seq<string>, close: bool,
      host: string, form: Values, postForm: Values, multipartForm: Option<MultipartForm>,
      trailer: Header, remoteAddr: string, requestURI: string)
      ensures this.requestMethod == requestMethod && this.url == url && this.proto == proto
      ensures this.protoMajor == protoMajor && this.protoMinor == protoMinor
      ensures this.header == header && this.body == body && this.contentLength == contentLength
      ensures this.transferEncoding == transferEncoding && this.close == close && this.host == host
      ensures this.form == form && this.postForm == postForm && this.multipartForm == multipartForm
      ensures this.trailer == trailer && this.remoteAddr == remoteAddr && this.requestURI == requestURI
    {
      this.requestMethod := requestMethod;
      this.url := url;
      this.proto := proto;
      this.protoMajor := protoMajor;
      this.protoMinor := protoMinor;
      this.header := header;
      this.body := body;
      this.contentLength := contentLength;
      this.transferEncoding := transferEncoding;
      this.close := close;
      this.host := host;
      this.form := form;
      this.postForm := postForm;
      this.multipartForm := multipartForm;
      this.trailer := trailer;
      this.remoteAddr := remoteAddr;
      this.requestURI := requestURI;
    }
  }

  /**
    What the mapper copies from a request apart from its body and trailer:
    the fields reading the body leaves alone.
  */
  datatype RequestHead = RequestHead(
    requestMethod: string, url: Option<URL>, proto: string, protoMajor: int, protoMinor: int,
    header: Header, contentLength: int, transferEncoding: seq<string>, close: bool, host: string,
    form: Values, postForm: Values, multipartForm: Option<MultipartForm>, remoteAddr: string, requestURI: string)

  /** The head of r, as it is now. */
  function Head(r: Request): (h: RequestHead)
    reads r`requestMethod, r`url, r`proto, r`protoMajor, r`protoMinor, r`header, r`contentLength
    reads r`transferEncoding, r`close, r`host, r`form, r`postForm, r`multipartForm
    reads r`remoteAddr, r`requestURI
  {
    RequestHead(
      r.requestMethod, r.url, r.proto, r.protoMajor, r.protoMinor, r.header, r.contentLength,
      r.transferEncoding, r.close, r.host, r.form, r.postForm, r.multipartForm, r.remoteAddr, r.requestURI)
  }

  /**
    The record MapRequest produces for a request with head h, whose trailer
    is trailer when it is cloned before the body is read, and whose body is
    captured as body: scalar fields verbatim, header and trailer copied when
    non-empty, the body captured, each form with its encoding when
    non-empty, and the multipart record exactly when the request has a
    multipart form.
  */
  function RecordOf(h: RequestHead, trailer: Header, body: Content, encodeBytes: bool, codec: UrlCodec): (ri: RequestInfo)
    ensures ri.requestMethod == h.requestMethod && ri.proto == h.proto
    ensures ri.protoMajor == h.protoMajor && ri.protoMinor == h.protoMinor
    ensures ri.contentLength == h.contentLength && ri.transferEncoding == h.transferEncoding
    ensures ri.close == h.close && ri.host == h.host
    ensures ri.remoteAddr == h.remoteAddr && ri.requestURI == h.requestURI
    ensures ri.url == MapURL(h.url, codec)
    ensures ri.header == h.header && ri.trailer == trailer
    ensures ri.body == body.raw && ri.bodyBase64 == body.base64
    ensures ri.form == h.form && ri.postForm == h.postForm
    ensures ri.formEncoded == if |h.form| > 0 then codec.encodeValues(h.form) else ""
    ensures ri.postFormEncoded == if |h.postForm| > 0 then codec.encodeValues(h.postForm) else ""
    ensures ri.multipartForm.Some? <==> h.multipartForm.Some?
    ensures h.multipartForm.Some? ==> ri.multipartForm.value == FormInfoOf(h.multipartForm.value, encodeBytes)
  {
    RequestInfo(
      h.requestMethod, MapURL(h.url, codec), h.proto, h.protoMajor, h.protoMinor,
      if |h.header| > 0 then h.header else map[], body.raw, body.base64, h.contentLength,
      h.transferEncoding, h.close, h.host,
      if |h.form| > 0 then h.form else map[],
      if |h.form| > 0 then codec.encodeValues(h.form) else "",
      if |h.postForm| > 0 then h.postForm else map[],
      if |h.postForm| > 0 then codec.encodeValues(h.postForm) else "",
      MultipartInfoOf(h.multipartForm, encodeBytes),
      if |trailer| > 0 then trailer else map[], h.remoteAddr, h.requestURI)
  }

  /**
    The body step of MapRequest: read the whole body, which merges the
    trailer the read hands over into the request's trailer; when the read
    gives bytes, store them and put a buffer holding the same bytes in
    place of the body, so that a later read yields them again; then close
    whatever body the request now has.
  */
  method CaptureAndRestoreBody(r: Request, encodeBytes: bool) returns (c: Content)
    modifies r`body, r`trailer, r.body
    ensures c == CaptureBody(old(r.body.Pending()), encodeBytes)
    ensures r.trailer == MergeTrailer(old(r.trailer), Delivered(old(r.body.Pending()), old(r.body.trailerAtEnd)))
    // the body left behind is captured alike and hands over no further trailer
    ensures CaptureBody(r.body.Pending(), encodeBytes) == c && Delivered(r.body.Pending(), r.body.trailerAtEnd) == map[]
    // a captured body is put back: a fresh buffer that a later read finds intact
    ensures Captures(old(r.body.Pending())) ==>
      && fresh(r.body) && r.body.nopClose && r.body.trailerAtEnd == map[]
      && r.body.Pending() == old(r.body.Pending())
      && old(r.body).unread == Read([]) && old(r.body).trailerAtEnd == map[]
      && old(r.body).closed == old(r.body.closed)
    // otherwise the body stays in place: one whose Close does nothing reads as before, any other is closed
    ensures !Captures(old(r.body.Pending())) ==>
      && r.body == old(r.body)
      && r.body.closed == (old(r.body.closed) || !r.body.nopClose)
      && !Captures(r.body.Pending())
      && (r.body.nopClose ==> r.body.Pending() == old(r.body.Pending()))
      && (!r.body.nopClose ==> r.body.Pending() == ReadFailed)
      && r.body.trailerAtEnd == if old(r.body.Pending()).Read? then map[] else old(r.body.trailerAtEnd)
  {
    c := Content([], "");
    var bodyBytes, delivered := r.body.ReadAll();
    r.trailer := MergeTrailer(r.trailer, delivered);
    if bodyBytes.Read? && |bodyBytes.bytes| > 0 {
      if !encodeBytes {
        c := c.(raw := bodyBytes.bytes);
      } else {
        c := c.(base64 := Base64.Encode(bodyBytes.bytes));
      }
      r.body := new Body.Buffer(bodyBytes.bytes);
    }
    r.body.Close();
  }

  /**
    MapRequest: nil for a nil request; otherwise the record of RecordOf for
    the head and trailer of the request as it was, the trailer being cloned
    before the body is read, and for the content captured from the body.
    The body is put back, and the trailer it hands over merged, as
    CaptureAndRestoreBody describes.
  */
  method MapRequest(r: Request?, encodeBytes: bool, codec: UrlCodec) returns (ri: Option<RequestInfo>)
    modifies (if r == null then {} else {r})`body, (if r == null then {} else {r})`trailer
    modifies if r == null then {} else {r.body}
    ensures r == null ==> ri == None
    ensures r != null ==> ri == Some(RecordOf(old(Head(r)), old(r.trailer), CaptureBody(old(r.body.Pending()), encodeBytes), encodeBytes, codec))
    ensures r != null ==>
      r.trailer == MergeTrailer(old(r.trailer), Delivered(old(r.body.Pending()), old(r.body.trailerAtEnd)))
    ensures r != null ==>
      && CaptureBody(r.body.Pending(), encodeBytes) == CaptureBody(old(r.body.Pending()), encodeBytes)
      && Delivered(r.body.Pending(), r.body.trailerAtEnd) == map[]
    ensures r != null && Captures(old(r.body.Pending())) ==>
      && fresh(r.body) && r.body.nopClose && r.body.trailerAtEnd == map[]
      && r.body.Pending() == old(r.body.Pending())
      && old(r.body).unread == Read([]) && old(r.body).trailerAtEnd == map[]
      && old(r.body).closed == old(r.body.closed)
    ensures r != null && !Captures(old(r.body.Pending())) ==>
      && r.body == old(r.body)
      && r.body.closed == (old(r.body.closed) || !r.body.nopClose)
      && !Captures(r.body.Pending())
      && (r.body.nopClose ==> r.body.Pending() == old(r.body.Pending()))
      && (!r.body.nopClose ==> r.body.Pending() == ReadFailed)
      && r.body.trailerAtEnd == if old(r.body.Pending()).Read? then map[] else old(r.body.trailerAtEnd)
  {
    if r == null {
      return None;
    }
    // every field is read before the body step, which changes only the body and the trailer;
    // the forms are mapped before that step here and after it in Go, and neither reads what the other changes
    var h, trailer := Head(r), r.trailer;
    var info := RequestInfo(
      h.requestMethod, None, h.proto, h.protoMajor, h.protoMinor, map[], [], "", h.contentLength,
      h.transferEncoding, h.close, h.host, map[], "", map[], "", None, map[], h.remoteAddr, h.requestURI);
    info := info.(header := if |h.header| > 0 then h.header else map[]);
    info := info.(trailer := if |trailer| > 0 then trailer else map[]);
    info := info.(url := MapURL(h.url, codec));
    info := info.(form := if |h.form| > 0 then h.form else map[],
                  formEncoded := if |h.form| > 0 then codec.encodeValues(h.form) else "");
    info := info.(postForm := if |h.postForm| > 0 then h.postForm else map[],
                  postFormEncoded := if |h.postForm| > 0 then codec.encodeValues(h.postForm) else "");
    var mf := MapForm(h.multipartForm, encodeBytes);
    assert mf == MultipartInfoOf(h.multipartForm, encodeBytes);
    info := info.(multipartForm := mf);
    var body := CaptureAndRestoreBody(r, encodeBytes);
    info := info.(body := body.raw, bodyBase64 := body.base64);
    ri := Some(info);
  }

  /** Records of one request head for two trailers differ in the trailer alone. */
  lemma RecordOfTrailer(h: RequestHead, t: Header, t': Header, body: Content, encodeBytes: bool, codec: UrlCodec)
    ensures RecordOf(h, t', body, encodeBytes, codec)
      == RecordOf(h, t, body, encodeBytes, codec).(trailer := if |t'| > 0 then t' else map[])
  {
  }

  /**
    Mapping a request twice: the body the first mapping leaves behind
    captures alike, and the rest of the head is untouched, so the second
    record is the first one with the trailer the first read merged in; the
    two are equal when that read handed over nothing.
  */
  method MapRequestTwice(r: Request, encodeBytes: bool, codec: UrlCodec)
    returns (first: Option<RequestInfo>, second: Option<RequestInfo>)
    modifies r`body, r`trailer, r.body
    ensures first == Some(RecordOf(old(Head(r)), old(r.trailer), CaptureBody(old(r.body.Pending()), encodeBytes), encodeBytes, codec))
    ensures r.trailer == MergeTrailer(old(r.trailer), Delivered(old(r.body.Pending()), old(r.body.trailerAtEnd)))
    ensures second == Some(first.value.(trailer := if |r.trailer| > 0 then r.trailer else map[]))
    ensures Delivered(old(r.body.Pending()), old(r.body.trailerAtEnd)) == map[] ==> first == second
  {
    ghost var captured := CaptureBody(r.body.Pending(), encodeBytes);
    ghost var head, declared := Head(r), r.trailer;
    first := MapRequest(r, encodeBytes, codec);
    assert first == Some(RecordOf(head, declared, captured, encodeBytes, codec));
    // reading the body leaves the head alone, and the body left behind captures alike
    assert Head(r) == head;
    assert CaptureBody(r.body.Pending(), encodeBytes) == captured;
    ghost var between := r.trailer;
    second := MapRequest(r, encodeBytes, codec);
    assert second == Some(RecordOf(head, between, captured, encodeBytes, codec));
    assert r.trailer == between;
    RecordOfTrailer(head, declared, between, captured, encodeBytes, codec);
  }
}
