/**
  The MarshalZerologObject methods of request_info.go: what each snapshot
  record writes into a log event. A written object is the map from the
  keys written to their values; a key is absent exactly when the method
  skips it. Each record type has its own key type, whose Name is the JSON
  key. A zerolog dictionary built by walking a Go map is a map from
  strings to values, since the walk order is not fixed.

  The decoders below read a written object back into a record. Their
  round-trip lemmas show that sparse writing loses nothing at the level of
  these values: every skipped field holds its zero value, except that a
  negative content length is read back as zero. Bytes are kept as bytes
  here; zerolog writes them as a JSON string.
*/
module Marshal {
  import opened Wrappers
  import HttpNote

  type byte = HttpNote.byte

  datatype UserKey = Username | Password | Encoded
  {
    function Name(): string
    {
      match this
      case Username => "username"
      case Password => "password"
      case Encoded => "encoded"
    }
  }

  datatype URLKey = Scheme | OpaqueData | User | Host | Path | RawPath | ForceQuery | RawQuery | Fragment | RawFragment
  {
    function Name(): string
    {
      match this
      case Scheme => "scheme"
      case OpaqueData => "opaque"
      case User => "user"
      case Host => "host"
      case Path => "path"
      case RawPath => "raw_path"
      case ForceQuery => "force_query"
      case RawQuery => "raw_query"
      case Fragment => "fragment"
      case RawFragment => "raw_fragment"
    }
  }

  datatype FileHeaderKey = Filename | MimeHeader | Size | File | FileBase64
  {
    function Name(): string
    {
      match this
      case Filename => "filename"
      case MimeHeader => "mime_header"
      case Size => "size"
      case File => "file"
      case FileBase64 => "file_base64"
    }
  }

  datatype FormKey = Value | File
  {
    function Name(): string
    {
      match this
      case Value => "value"
      case File => "file"
    }
  }

  datatype RequestKey =
    | Method | Url | Proto | ProtoMajor | ProtoMinor | Header | Body | BodyBase64
    | ContentLength | TransferEncoding | Close | Host | Form | FormEncoded | PostForm
    | PostFormEncoded | MultipartForm | Trailer | RemoteAddr | RequestUri
  {
    function Name(): string
    {
      match this
      case Method => "method"
      case Url => "url"
      case Proto => "proto"
      case ProtoMajor => "proto_major"
      case ProtoMinor => "proto_minor"
      case Header => "header"
      case Body => "body"
      case BodyBase64 => "body_base64"
      case ContentLength => "content_length"
      case TransferEncoding => "transfer_encoding"
      case Close => "close"
      case Host => "host"
      case Form => "form"
      case FormEncoded => "form_encoded"
      case PostForm => "post_form"
      case PostFormEncoded => "post_form_encoded"
      case MultipartForm => "multipart_form"
      case Trailer => "trailer"
      case RemoteAddr => "remote_addr"
      case RequestUri => "request_uri"
    }
  }

  /** Distinct keys of one object have distinct JSON names, so no field of a record overwrites another. */
  lemma UserKeyNamesDistinct(a: UserKey, b: UserKey)
    ensures a.Name() == b.Name() ==> a == b
  {
  }

  lemma URLKeyNamesDistinct(a: URLKey, b: URLKey)
    ensures a.Name() == b.Name() ==> a == b
  {
  }

  lemma FileHeaderKeyNamesDistinct(a: FileHeaderKey, b: FileHeaderKey)
    ensures a.Name() == b.Name() ==> a == b
  {
  }

  lemma FormKeyNamesDistinct(a: FormKey, b: FormKey)
    ensures a.Name() == b.Name() ==> a == b
  {
  }

  lemma RequestKeyNamesDistinct(a: RequestKey, b: RequestKey)
    ensures a.Name() == b.Name() ==> a == b
  {
  }

  /**
    The values a zerolog event can hold: one constructor per Event, Dict
    and Array method the marshal methods call, and one per kind of nested
    object.
  */
  datatype Json =
    | Str(str: string)
    | Int(num: int)
    | Bool(flag: bool)
    | Bytes(bytes: seq<byte>)
    | Strs(strs: seq<string>)
    | Dict(entries: map<string, Json>)
    | Array(items: seq<Json>)
    | UserObject(user: map<UserKey, Json>)
    | URLObject(url: map<URLKey, Json>)
    | FileHeaderObject(fileHeader: map<FileHeaderKey, Json>)
    | FormObject(form: map<FormKey, Json>)

  /** A header-like map written as a dictionary with one string list per key. */
  function StrsDict(h: map<string, seq<string>>): Json
  {
    Dict(map k | k in h :: Strs(h[k]))
  }

  /** The value written when the condition holds, and None when the field is skipped. */
  function WrittenIf(condition: bool, v: Json): (w: Option<Json>)
    ensures w.Some? <==> condition
    ensures condition ==> w.value == v
  {
    if condition then Some(v) else None
  }

  /** What UserInfo writes under each key: each field only when it is not empty. */
  function UserInfoField(ui: HttpNote.UserInfo, k: UserKey): Option<Json>
  {
    match k
    case Username => WrittenIf(ui.username != "", Str(ui.username))
    case Password => WrittenIf(ui.password != "", Str(ui.password))
    case Encoded => WrittenIf(ui.encoded != "", Str(ui.encoded))
  }

  function MarshalUserInfo(ui: HttpNote.UserInfo): map<UserKey, Json>
  {
    map k | UserInfoField(ui, k).Some? :: UserInfoField(ui, k).value
  }

  /** Each user-info field is written exactly when it is not empty. */
  lemma UserInfoSparse(ui: HttpNote.UserInfo)
    ensures Username in MarshalUserInfo(ui) <==> ui.username != ""
    ensures Password in MarshalUserInfo(ui) <==> ui.password != ""
    ensures Encoded in MarshalUserInfo(ui) <==> ui.encoded != ""
  {
  }

  /** What URLInfo writes under each key: every field only when it is not empty, false or nil. */
  function URLInfoField(u: HttpNote.URLInfo, k: URLKey): Option<Json>
  {
    match k
    case Scheme => WrittenIf(u.scheme != "", Str(u.scheme))
    case OpaqueData => WrittenIf(u.opaqueData != "", Str(u.opaqueData))
    case User => (match u.user case None => None case Some(user) => Some(UserObject(MarshalUserInfo(user))))
    case Host => WrittenIf(u.host != "", Str(u.host))
    case Path => WrittenIf(u.path != "", Str(u.path))
    case RawPath => WrittenIf(u.rawPath != "", Str(u.rawPath))
    case ForceQuery => WrittenIf(u.forceQuery, Bool(u.forceQuery))
    case RawQuery => WrittenIf(u.rawQuery != "", Str(u.rawQuery))
    case Fragment => WrittenIf(u.fragment != "", Str(u.fragment))
    case RawFragment => WrittenIf(u.rawFragment != "", Str(u.rawFragment))
  }

  function MarshalURLInfo(u: HttpNote.URLInfo): map<URLKey, Json>
  {
    map k | URLInfoField(u, k).Some? :: URLInfoField(u, k).value
  }

  /** Each URL field is written exactly when it is not empty, not false and not nil: nothing is written unconditionally. */
  lemma URLInfoSparse(u: HttpNote.URLInfo)
    ensures Scheme in MarshalURLInfo(u) <==> u.scheme != ""
    ensures OpaqueData in MarshalURLInfo(u) <==> u.opaqueData != ""
    ensures User in MarshalURLInfo(u) <==> u.user.Some?
    ensures URLKey.Host in MarshalURLInfo(u) <==> u.host != ""
    ensures Path in MarshalURLInfo(u) <==> u.path != ""
    ensures RawPath in MarshalURLInfo(u) <==> u.rawPath != ""
    ensures ForceQuery in MarshalURLInfo(u) <==> u.forceQuery
    ensures RawQuery in MarshalURLInfo(u) <==> u.rawQuery != ""
    ensures Fragment in MarshalURLInfo(u) <==> u.fragment != ""
    ensures RawFragment in MarshalURLInfo(u) <==> u.rawFragment != ""
  {
  }

  /** What FileHeaderInfo writes under each key: every field only when it is not empty, the size when it is not zero. */
  function FileHeaderInfoField(fhi: HttpNote.FileHeaderInfo, k: FileHeaderKey): Option<Json>
  {
    match k
    case Filename => WrittenIf(fhi.filename != "", Str(fhi.filename))
    case MimeHeader => WrittenIf(|fhi.mimeHeader| > 0, StrsDict(fhi.mimeHeader))
    case Size => WrittenIf(fhi.size != 0, Int(fhi.size))
    case File => WrittenIf(|fhi.file| > 0, Bytes(fhi.file))
    case FileBase64 => WrittenIf(fhi.fileBase64 != "", Str(fhi.fileBase64))
  }

  function MarshalFileHeaderInfo(fhi: HttpNote.FileHeaderInfo): map<FileHeaderKey, Json>
  {
    map k | FileHeaderInfoField(fhi, k).Some? :: FileHeaderInfoField(fhi, k).value
  }

  /** Each file-header field is written exactly when it is not empty; the size exactly when it is not zero. */
  lemma FileHeaderInfoSparse(fhi: HttpNote.FileHeaderInfo)
    ensures Filename in MarshalFileHeaderInfo(fhi) <==> fhi.filename != ""
    ensures MimeHeader in MarshalFileHeaderInfo(fhi) <==> |fhi.mimeHeader| > 0
    ensures Size in MarshalFileHeaderInfo(fhi) <==> fhi.size != 0
    ensures FileHeaderKey.File in MarshalFileHeaderInfo(fhi) <==> |fhi.file| > 0
    ensures FileBase64 in MarshalFileHeaderInfo(fhi) <==> fhi.fileBase64 != ""
  {
  }

  /** FileHeaderInfos: one object per record, in the order of the list. */
  function MarshalFileHeaderInfos(v: seq<HttpNote.FileHeaderInfo>): (a: seq<Json>)
    ensures |a| == |v|
    ensures forall i :: 0 <= i < |v| ==> a[i] == FileHeaderObject(MarshalFileHeaderInfo(v[i]))
  {
    if v == [] then [] else [FileHeaderObject(MarshalFileHeaderInfo(v[0]))] + MarshalFileHeaderInfos(v[1..])
  }

  /** What FormInfo writes under each key: the value dictionary, and the file dictionary of arrays, each when not empty. */
  function FormInfoField(fi: HttpNote.FormInfo, k: FormKey): Option<Json>
  {
    match k
    case Value => WrittenIf(|fi.value| > 0, StrsDict(fi.value))
    case File => WrittenIf(|fi.file| > 0, Dict(map name | name in fi.file :: Array(MarshalFileHeaderInfos(fi.file[name]))))
  }

  function MarshalFormInfo(fi: HttpNote.FormInfo): map<FormKey, Json>
  {
    map k | FormInfoField(fi, k).Some? :: FormInfoField(fi, k).value
  }

  /** Each dictionary is written exactly when its map is not empty; the file dictionary has an entry per field name. */
  lemma FormInfoSparse(fi: HttpNote.FormInfo)
    ensures Value in MarshalFormInfo(fi) <==> |fi.value| > 0
    ensures FormKey.File in MarshalFormInfo(fi) <==> |fi.file| > 0
    ensures FormKey.File in MarshalFormInfo(fi) ==>
      MarshalFormInfo(fi)[FormKey.File].Dict? && MarshalFormInfo(fi)[FormKey.File].entries.Keys == fi.file.Keys
  {
  }

  /** The keys RequestInfo writes whatever the record holds. */
  const AlwaysWritten: set<RequestKey> := {Method, Proto, ProtoMajor, ProtoMinor, RequestKey.Host, RemoteAddr, RequestUri}

  /**
    What RequestInfo writes under each key: method, proto, its two version
    numbers, host, remote address and request URI always; every other
    field only when it is not empty, not nil, true, or (for the content
    length) positive.
  */
  function RequestInfoField(ri: HttpNote.RequestInfo, k: RequestKey): Option<Json>
  {
    match k
    case Method => Some(Str(ri.requestMethod))
    case Url => (match ri.url case None => None case Some(u) => Some(URLObject(MarshalURLInfo(u))))
    case Proto => Some(Str(ri.proto))
    case ProtoMajor => Some(Int(ri.protoMajor))
    case ProtoMinor => Some(Int(ri.protoMinor))
    case Header => WrittenIf(|ri.header| > 0, StrsDict(ri.header))
    case Body => WrittenIf(|ri.body| > 0, Bytes(ri.body))
    case BodyBase64 => WrittenIf(ri.bodyBase64 != "", Str(ri.bodyBase64))
    case ContentLength => WrittenIf(ri.contentLength > 0, Int(ri.contentLength))
    case TransferEncoding => WrittenIf(|ri.transferEncoding| > 0, Strs(ri.transferEncoding))
    case Close => WrittenIf(ri.close, Bool(ri.close))
    case Host => Some(Str(ri.host))
    case Form => WrittenIf(|ri.form| > 0, StrsDict(ri.form))
    case FormEncoded => WrittenIf(ri.formEncoded != "", Str(ri.formEncoded))
    case PostForm => WrittenIf(|ri.postForm| > 0, StrsDict(ri.postForm))
    case PostFormEncoded => WrittenIf(ri.postFormEncoded != "", Str(ri.postFormEncoded))
    case MultipartForm =>
      (match ri.multipartForm case None => None case Some(f) => Some(FormObject(MarshalFormInfo(f))))
    case Trailer => WrittenIf(|ri.trailer| > 0, StrsDict(ri.trailer))
    case RemoteAddr => Some(Str(ri.remoteAddr))
    case RequestUri => Some(Str(ri.requestURI))
  }

  function MarshalRequestInfo(ri: HttpNote.RequestInfo): map<RequestKey, Json>
  {
    map k | RequestInfoField(ri, k).Some? :: RequestInfoField(ri, k).value
  }

  /** Method, proto, the version numbers, host, remote address and request URI are always written, as they are. */
  lemma RequestInfoAlwaysWritten(ri: HttpNote.RequestInfo)
    ensures AlwaysWritten <= MarshalRequestInfo(ri).Keys
    ensures MarshalRequestInfo(ri)[Method] == Str(ri.requestMethod)
    ensures MarshalRequestInfo(ri)[RequestKey.Host] == Str(ri.host)
  {
  }

  /** The URL is written exactly when present; the body and its base64 text exactly when not empty; the content length exactly when positive. */
  lemma RequestInfoSparseBody(ri: HttpNote.RequestInfo)
    ensures Url in MarshalRequestInfo(ri) <==> ri.url.Some?
    ensures Body in MarshalRequestInfo(ri) <==> |ri.body| > 0
    ensures BodyBase64 in MarshalRequestInfo(ri) <==> ri.bodyBase64 != ""
    ensures ContentLength in MarshalRequestInfo(ri) <==> ri.contentLength > 0
  {
  }

  /** The transfer encoding and the two form encodings are written exactly when not empty; close exactly when true. */
  lemma RequestInfoSparseScalars(ri: HttpNote.RequestInfo)
    ensures TransferEncoding in MarshalRequestInfo(ri) <==> |ri.transferEncoding| > 0
    ensures Close in MarshalRequestInfo(ri) <==> ri.close
    ensures FormEncoded in MarshalRequestInfo(ri) <==> ri.formEncoded != ""
    ensures PostFormEncoded in MarshalRequestInfo(ri) <==> ri.postFormEncoded != ""
  {
  }

  /** Header, form, post form and trailer are written exactly when not empty; the multipart form exactly when present. */
  lemma RequestInfoSparseMaps(ri: HttpNote.RequestInfo)
    ensures Header in MarshalRequestInfo(ri) <==> |ri.header| > 0
    ensures Form in MarshalRequestInfo(ri) <==> |ri.form| > 0
    ensures PostForm in MarshalRequestInfo(ri) <==> |ri.postForm| > 0
    ensures MultipartForm in MarshalRequestInfo(ri) <==> ri.multipartForm.Some?
    ensures Trailer in MarshalRequestInfo(ri) <==> |ri.trailer| > 0
  {
  }

  // Reading a written object back: a missing key, or a value of another shape, reads as the zero value.

  function StrAt<K>(m: map<K, Json>, k: K): string
  {
    if k in m && m[k].Str? then m[k].str else ""
  }

  function IntAt<K>(m: map<K, Json>, k: K): int
  {
    if k in m && m[k].Int? then m[k].num else 0
  }

  function BoolAt<K>(m: map<K, Json>, k: K): bool
  {
    k in m && m[k].Bool? && m[k].flag
  }

  function BytesAt<K>(m: map<K, Json>, k: K): seq<byte>
  {
    if k in m && m[k].Bytes? then m[k].bytes else []
  }

  function StrsAt<K>(m: map<K, Json>, k: K): seq<string>
  {
    if k in m && m[k].Strs? then m[k].strs else []
  }

  /** The header-like map a dictionary of string lists holds. */
  function DictStrs(j: Json): map<string, seq<string>>
  {
    if j.Dict? then map k | k in j.entries :: if j.entries[k].Strs? then j.entries[k].strs else [] else map[]
  }

  function HeaderAt<K>(m: map<K, Json>, k: K): map<string, seq<string>>
  {
    if k in m then DictStrs(m[k]) else map[]
  }

  function UnmarshalUserInfo(m: map<UserKey, Json>): HttpNote.UserInfo
  {
    HttpNote.UserInfo(StrAt(m, Username), StrAt(m, Password), StrAt(m, Encoded))
  }

  function UserAt(m: map<URLKey, Json>): Option<HttpNote.UserInfo>
  {
    if User in m && m[User].UserObject? then Some(UnmarshalUserInfo(m[User].user)) else None
  }

  function UnmarshalURLInfo(m: map<URLKey, Json>): HttpNote.URLInfo
  {
    HttpNote.URLInfo(
      StrAt(m, Scheme), StrAt(m, OpaqueData),
      UserAt(m),
      StrAt(m, URLKey.Host), StrAt(m, Path), StrAt(m, RawPath), BoolAt(m, ForceQuery),
      StrAt(m, RawQuery), StrAt(m, Fragment), StrAt(m, RawFragment))
  }

  function UnmarshalFileHeaderInfo(m: map<FileHeaderKey, Json>): HttpNote.FileHeaderInfo
  {
    HttpNote.FileHeaderInfo(
      StrAt(m, Filename), HeaderAt(m, MimeHeader), IntAt(m, Size), BytesAt(m, FileHeaderKey.File), StrAt(m, FileBase64))
  }

  function UnmarshalFileHeaderInfos(a: seq<Json>): seq<HttpNote.FileHeaderInfo>
  {
    seq(|a|, i requires 0 <= i < |a| =>
      UnmarshalFileHeaderInfo(if a[i].FileHeaderObject? then a[i].fileHeader else map[]))
  }

  /** The file lists a dictionary of arrays holds, per field name. */
  function FilesAt(m: map<FormKey, Json>): map<string, seq<HttpNote.FileHeaderInfo>>
  {
    var files := if FormKey.File in m && m[FormKey.File].Dict? then m[FormKey.File].entries else map[];
    map name | name in files :: if files[name].Array? then UnmarshalFileHeaderInfos(files[name].items) else []
  }

  function UnmarshalFormInfo(m: map<FormKey, Json>): HttpNote.FormInfo
  {
    HttpNote.FormInfo(HeaderAt(m, Value), FilesAt(m))
  }

  function URLAt(m: map<RequestKey, Json>): Option<HttpNote.URLInfo>
  {
    if Url in m && m[Url].URLObject? then Some(UnmarshalURLInfo(m[Url].url)) else None
  }

  function FormAt(m: map<RequestKey, Json>): Option<HttpNote.FormInfo>
  {
    if MultipartForm in m && m[MultipartForm].FormObject? then Some(UnmarshalFormInfo(m[MultipartForm].form)) else None
  }

  function UnmarshalRequestInfo(m: map<RequestKey, Json>): HttpNote.RequestInfo
  {
    HttpNote.RequestInfo(
      StrAt(m, Method),
      URLAt(m),
      StrAt(m, Proto), IntAt(m, ProtoMajor), IntAt(m, ProtoMinor),
      HeaderAt(m, Header), BytesAt(m, Body), StrAt(m, BodyBase64), IntAt(m, ContentLength),
      StrsAt(m, TransferEncoding), BoolAt(m, Close), StrAt(m, RequestKey.Host),
      HeaderAt(m, Form), StrAt(m, FormEncoded), HeaderAt(m, PostForm), StrAt(m, PostFormEncoded),
      FormAt(m),
      HeaderAt(m, Trailer), StrAt(m, RemoteAddr), StrAt(m, RequestUri))
  }

  // Round trips: what is skipped is exactly what reads back as the zero value.

  /** A header-like map written only when not empty reads back as itself, and as empty when skipped. */
  lemma HeaderRoundTrip<K>(h: map<string, seq<string>>, m: map<K, Json>, k: K)
    requires k in m <==> |h| > 0
    requires k in m ==> m[k] == StrsDict(h)
    ensures HeaderAt(m, k) == h
  {
    if |h| == 0 {
      assert h == map[];
    } else {
      var d := DictStrs(StrsDict(h));
      assert d.Keys == h.Keys;
      assert forall key :: key in h ==> d[key] == h[key];
    }
  }

  lemma UserInfoRoundTrip(ui: HttpNote.UserInfo)
    ensures UnmarshalUserInfo(MarshalUserInfo(ui)) == ui
  {
  }

  /** The scheme, opaque data, host and path of a URL read back as themselves. */
  lemma URLInfoLocationRoundTrip(u: HttpNote.URLInfo)
    ensures var m := MarshalURLInfo(u);
      && StrAt(m, Scheme) == u.scheme && StrAt(m, OpaqueData) == u.opaqueData
      && StrAt(m, URLKey.Host) == u.host && StrAt(m, Path) == u.path && StrAt(m, RawPath) == u.rawPath
  {
  }

  /** The query and fragment parts of a URL read back as themselves. */
  lemma URLInfoQueryRoundTrip(u: HttpNote.URLInfo)
    ensures var m := MarshalURLInfo(u);
      && BoolAt(m, ForceQuery) == u.forceQuery && StrAt(m, RawQuery) == u.rawQuery
      && StrAt(m, Fragment) == u.fragment && StrAt(m, RawFragment) == u.rawFragment
  {
  }

  /** The user of a URL reads back as itself. */
  lemma URLInfoUserRoundTrip(u: HttpNote.URLInfo)
    ensures UserAt(MarshalURLInfo(u)) == u.user
  {
    match u.user
    case None =>
      assert URLInfoField(u, User) == None;
    case Some(user) =>
      assert URLInfoField(u, User) == Some(UserObject(MarshalUserInfo(user)));
      UserInfoRoundTrip(user);
  }

  lemma URLInfoRoundTrip(u: HttpNote.URLInfo)
    ensures UnmarshalURLInfo(MarshalURLInfo(u)) == u
  {
    URLInfoLocationRoundTrip(u);
    URLInfoQueryRoundTrip(u);
    URLInfoUserRoundTrip(u);
  }

  lemma FileHeaderInfoRoundTrip(fhi: HttpNote.FileHeaderInfo)
    ensures UnmarshalFileHeaderInfo(MarshalFileHeaderInfo(fhi)) == fhi
  {
    HeaderRoundTrip(fhi.mimeHeader, MarshalFileHeaderInfo(fhi), MimeHeader);
  }

  lemma FileHeaderInfosRoundTrip(v: seq<HttpNote.FileHeaderInfo>)
    ensures UnmarshalFileHeaderInfos(MarshalFileHeaderInfos(v)) == v
  {
    var w := UnmarshalFileHeaderInfos(MarshalFileHeaderInfos(v));
    forall i | 0 <= i < |v|
      ensures w[i] == v[i]
    {
      FileHeaderInfoRoundTrip(v[i]);
    }
  }

  /** The file dictionary of a form reads back as the form's files. */
  lemma FormInfoFilesRoundTrip(fi: HttpNote.FormInfo)
    ensures FilesAt(MarshalFormInfo(fi)) == fi.file
  {
    var files := FilesAt(MarshalFormInfo(fi));
    if |fi.file| == 0 {
      assert FormInfoField(fi, FormKey.File) == None;
      assert fi.file == map[];
    } else {
      assert FormInfoField(fi, FormKey.File).Some?;
      forall name | name in fi.file
        ensures files[name] == fi.file[name]
      {
        FileHeaderInfosRoundTrip(fi.file[name]);
      }
    }
  }

  lemma FormInfoRoundTrip(fi: HttpNote.FormInfo)
    ensures UnmarshalFormInfo(MarshalFormInfo(fi)) == fi
  {
    HeaderRoundTrip(fi.value, MarshalFormInfo(fi), Value);
    FormInfoFilesRoundTrip(fi);
  }


  /** The fields a request always writes read back as themselves. */
  lemma RequestInfoAlwaysRoundTrip(ri: HttpNote.RequestInfo)
    ensures var m := MarshalRequestInfo(ri);
      && StrAt(m, Method) == ri.requestMethod && StrAt(m, Proto) == ri.proto
      && IntAt(m, ProtoMajor) == ri.protoMajor && IntAt(m, ProtoMinor) == ri.protoMinor
      && StrAt(m, RequestKey.Host) == ri.host && StrAt(m, RemoteAddr) == ri.remoteAddr
      && StrAt(m, RequestUri) == ri.requestURI
  {
  }

  /** The body, its base64 text and the content length read back as themselves; a content length that is not positive reads back as zero. */
  lemma RequestInfoBodyRoundTrip(ri: HttpNote.RequestInfo)
    ensures var m := MarshalRequestInfo(ri);
      && BytesAt(m, Body) == ri.body && StrAt(m, BodyBase64) == ri.bodyBase64
      && IntAt(m, ContentLength) == (if ri.contentLength > 0 then ri.contentLength else 0)
  {
  }

  /** The transfer encoding, close and the two form encodings read back as themselves. */
  lemma RequestInfoScalarsRoundTrip(ri: HttpNote.RequestInfo)
    ensures var m := MarshalRequestInfo(ri);
      && StrsAt(m, TransferEncoding) == ri.transferEncoding && BoolAt(m, Close) == ri.close
      && StrAt(m, FormEncoded) == ri.formEncoded && StrAt(m, PostFormEncoded) == ri.postFormEncoded
  {
  }

  /** The four header-like maps of a request read back as themselves. */
  lemma RequestInfoHeadersRoundTrip(ri: HttpNote.RequestInfo)
    ensures var m := MarshalRequestInfo(ri);
      HeaderAt(m, Header) == ri.header && HeaderAt(m, Form) == ri.form
      && HeaderAt(m, PostForm) == ri.postForm && HeaderAt(m, Trailer) == ri.trailer
  {
    var m := MarshalRequestInfo(ri);
    HeaderRoundTrip(ri.header, m, Header);
    HeaderRoundTrip(ri.form, m, Form);
    HeaderRoundTrip(ri.postForm, m, PostForm);
    HeaderRoundTrip(ri.trailer, m, Trailer);
  }

  /** The URL of a request reads back as itself. */
  lemma RequestInfoURLRoundTrip(ri: HttpNote.RequestInfo)
    ensures URLAt(MarshalRequestInfo(ri)) == ri.url
  {
    match ri.url
    case None =>
      assert RequestInfoField(ri, Url) == None;
    case Some(u) =>
      assert RequestInfoField(ri, Url) == Some(URLObject(MarshalURLInfo(u)));
      URLInfoRoundTrip(u);
  }

  /** The multipart form of a request reads back as itself. */
  lemma RequestInfoFormRoundTrip(ri: HttpNote.RequestInfo)
    ensures FormAt(MarshalRequestInfo(ri)) == ri.multipartForm
  {
    var m := MarshalRequestInfo(ri);
    match ri.multipartForm
    case None =>
      assert RequestInfoField(ri, MultipartForm) == None;
    case Some(f) =>
      assert RequestInfoField(ri, MultipartForm) == Some(FormObject(MarshalFormInfo(f)));
      FormInfoRoundTrip(f);
  }

  /**
    Sparse writing loses nothing: reading the written object back gives
    the record, except that a content length that is not positive reads
    back as zero.
  */
  lemma RequestInfoRoundTrip(ri: HttpNote.RequestInfo)
    ensures UnmarshalRequestInfo(MarshalRequestInfo(ri))
      == ri.(contentLength := if ri.contentLength > 0 then ri.contentLength else 0)
  {
    RequestInfoAlwaysRoundTrip(ri);
    RequestInfoBodyRoundTrip(ri);
    RequestInfoScalarsRoundTrip(ri);
    RequestInfoHeadersRoundTrip(ri);
    RequestInfoURLRoundTrip(ri);
    RequestInfoFormRoundTrip(ri);
  }

  /** Two records with non-negative content lengths that write the same object are equal. */
  lemma MarshalRequestInfoInjective(a: HttpNote.RequestInfo, b: HttpNote.RequestInfo)
    requires a.contentLength >= 0 && b.contentLength >= 0
    requires MarshalRequestInfo(a) == MarshalRequestInfo(b)
    ensures a == b
  {
    RequestInfoRoundTrip(a);
    RequestInfoRoundTrip(b);
  }

  /**
    A password that was given but is empty is not written: apart from the
    encoded form, the user object is the one a user without a password
    gives.
  */
  lemma EmptyPasswordNotWritten(u: HttpNote.Userinfo, codec: HttpNote.UrlCodec)
    requires u.passwordSet && u.password == ""
    ensures var given, absent := MarshalUserInfo(HttpNote.MapUserinfo(u, codec)),
        MarshalUserInfo(HttpNote.MapUserinfo(u.(passwordSet := false), codec));
      && Password !in given
      && given.Keys - {Encoded} == absent.Keys - {Encoded}
      && forall k :: k in given && k != Encoded ==> given[k] == absent[k]
  {
  }
}
