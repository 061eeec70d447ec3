# httpnote request snapshot, modelled in Dafny

httpnote logs inbound HTTP requests. Its core, `request_info.go`, turns a
`*http.Request` into a plain `RequestInfo` record (`MapRequest`, with
`MapForm` and `MapFileHeader` for multipart forms) and writes that record
into a zerolog event sparsely: a few fields always, every other field only
when it holds something (the `MarshalZerologObject` methods and
`FileHeaderInfos.MarshalZerologArray`).

The model has five modules:

- `Wrappers` (`wrappers.dfy`): `Option`, standing for Go's nil pointers.
- `Base64` (`base64.dfy`): `base64.StdEncoding` as the padded alphabet of
  section 4 of RFC 4648. Encoding and a strict decoder are proved to be
  inverse in both directions.
- `HttpNote` (`request_info.dfy`): the records as datatypes.
  - The request is a `Request` class whose `body` field holds a `Body`
    object: an `io.ReadCloser` seen through what reading it to the end
    yields, and the trailer a chunked body hands over at its end.
  - `MapRequest` reads the body to the end. A body that gave bytes is
    replaced by a buffer holding them. Any other body is left in place and
    closed, so a server body then fails later reads.
  - A read that reaches the end merges the client's trailer into the
    request's `Trailer`, as net/http's `mergeSetHeader` does.
  - `MapRequest` and `MapForm` are methods proved against the functions
    `RecordOf` and `FormInfoOf`.
  - The URL, user-info and file-header mappings are functions.
- `Marshal` (`marshal.dfy`): each marshal method is a function from a
  record to the object it writes.
  - The object is a map from that record's keys to JSON-like values, and
    a key is present exactly when the Go method writes it.
  - Decoders read the object back, and round-trip lemmas show that sparse
    writing loses no information at the level of these values.
  - The JSON key of each field is the `Name` of its key, and the keys of
    one object have distinct names.
- `Scenarios` (`scenarios.dfy`): the request of `request_info_test.go`; a
  body captured raw, captured as base64, or not captured at all; and a
  chunked request mapped twice, whose trailer values show only the second
  time.

`url.Values.Encode` and `url.Userinfo.String` are library routines, so they
are the two fields of a `UrlCodec` parameter. Stream reads and
`FileHeader.Open` are abstract outcomes: the bytes read, or a failure.

Five behaviours of the code a reader might not expect, all kept by the
model:

- A password given as empty is copied as "" and then not written. It
  shows only in the encoded user-info.
- After a successful read the original body is not closed: `Close` is
  called on the replacement buffer, where it does nothing.
- The multipart `File` map keeps a field even when every entry of its list
  is nil. The field then maps to an empty list.
- `Trailer` is cloned before the body is read. The record therefore holds
  only the declared trailer keys, each with an empty list. Reading the body
  then fills the request's own `Trailer` with the values the client sent,
  so mapping the same chunked request again records those values.
- A body whose read fails or gives no bytes is not put back. It is closed
  in place: `http.NoBody` stays readable, but a server body fails every
  later read.

## Model

| member | source | states |
|---|---|---|
| Base64.Encode | request_info.go:326 | the standard base64 text of b has 4 letters per started 3-byte group |
| Base64.DecodeEncode | request_info.go:326 | decoding the encoding of any bytes gives those bytes back |
| Base64.EncodeDecode | request_info.go:326 | any text the decoder accepts is the encoding of what it decodes to |
| Base64.EncodeInjective | request_info.go:373 | different bytes never get the same base64 text |
| Base64.EncodeEmpty | request_info.go:322-327 | the encoding is empty exactly for empty bytes |
| HttpNote.Store | request_info.go:322-327 | stored bytes are raw or base64, never both; raw when encodeBytes is false; base64 text that decodes to them when true |
| HttpNote.CaptureBody | request_info.go:320-328 | Body or BodyBase64 is set exactly when the read succeeded with at least one byte, and then in exactly one form, chosen by encodeBytes |
| HttpNote.MapUserinfo | request_info.go:308-317 | username and encoded form always set; the password only when the URL gave one, otherwise "" |
| HttpNote.MapURL | request_info.go:294-318 | nil gives nil; otherwise the nine URL fields are copied verbatim, and the user is present exactly when the URL has one, mapped by MapUserinfo |
| HttpNote.MapFileHeader | request_info.go:354-379 | nil gives nil; name, MIME header and size are always copied; content is set exactly when open and read succeed with bytes, in exactly one form chosen by encodeBytes |
| HttpNote.NonNilPositionsExact | request_info.go:398-402 | the positions kept are exactly the non-nil entries, increasing |
| HttpNote.MapFileHeadersAtPositions | request_info.go:396-404 | the j-th record of a field's list maps the j-th non-nil file header |
| HttpNote.MapFileHeadersKeepsOrder | request_info.go:395-405 | nil entries are skipped, every non-nil entry is mapped, and order is kept |
| HttpNote.FormInfoOf | request_info.go:386-410 | Value as given; File with exactly the field names of the form, each mapped to the records of its non-nil file headers |
| HttpNote.MapForm | request_info.go:381-411 | nil gives nil; otherwise the loops over the file map and each list build exactly FormInfoOf |
| HttpNote.MapFileHeaders | request_info.go:396-404 | records of one field's file list; its contract is stated by NonNilPositionsExact, MapFileHeadersAtPositions and MapFileHeadersKeepsOrder |
| HttpNote.MultipartInfoOf | request_info.go:346-349 | a multipart record exactly when the request has a multipart form, and then FormInfoOf it |
| HttpNote.Delivered | request_info.go:321 | a read that reaches the end hands over the trailer the client sent; a failed read hands over nothing |
| HttpNote.MergeTrailer | request_info.go:321 | the request's trailer after the read: the declared one, with each key handed over replacing its entry; unchanged when nothing is handed over |
| HttpNote.MergeTrailerEntries | request_info.go:321 | the merged trailer has the declared and the delivered keys; a delivered key holds the delivered values, every other key its declared values |
| HttpNote.Body.constructor | request_info.go:321-332 | a body net/http's server hands over: its content and the trailer sent after it, open, and closed for real by Close |
| HttpNote.Body.ReadAll | request_info.go:321 | a read yields what the body holds; a successful read leaves it drained and hands over its trailer once, a failed one hands over nothing |
| HttpNote.Body.Close | request_info.go:332 | closing a server body makes later reads fail; closing an io.NopCloser buffer does nothing |
| HttpNote.Body.Buffer | request_info.go:329 | the replacement buffer holds the bytes read, has no trailer and does nothing on Close |
| HttpNote.Body.NoBody | request_info.go:321-332 | http.NoBody, the body of a request without content: reads give no bytes, no trailer, and Close does nothing |
| HttpNote.RecordOf | request_info.go:271-349 | from the request's head and its trailer as cloned: scalar fields verbatim; URL by MapURL; header and trailer copied; each form with its encoding only when non-empty; multipart record exactly when there is a multipart form |
| HttpNote.RecordOfTrailer | request_info.go:289-292 | two records of the same head and body differ only in the trailer each was given |
| HttpNote.CaptureAndRestoreBody | request_info.go:320-332 | the content is CaptureBody of the read, and the trailer the read hands over is merged into the request's. A captured body is replaced by a fresh buffer that reads back the same bytes. Otherwise the body stays in place and is not capturable: one whose Close does nothing (http.NoBody) reads as before, any other is closed and its reads fail |
| HttpNote.MapRequest | request_info.go:266-352 | nil gives nil; otherwise the steps of the Go function build exactly RecordOf the request's head and trailer as they were, with the body captured; the body is put back or left, and the trailer merged, as CaptureAndRestoreBody states |
| HttpNote.MapRequestTwice | request_info.go:289-332 | mapping the same request twice: the second record is the first with the trailer the first read merged in, since the body left behind captures alike; the two are equal when that read handed over nothing |
| Marshal.MarshalUserInfo | request_info.go:184-196 | the user object; keys written: UserInfoSparse; values: UserInfoRoundTrip |
| Marshal.MarshalURLInfo | request_info.go:136-176 | the URL object; keys written: URLInfoSparse; values: URLInfoRoundTrip |
| Marshal.MarshalFileHeaderInfo | request_info.go:239-264 | the file-header object; keys written: FileHeaderInfoSparse; values: FileHeaderInfoRoundTrip |
| Marshal.MarshalFormInfo | request_info.go:211-229 | the form object; keys written: FormInfoSparse; values: FormInfoRoundTrip |
| Marshal.MarshalRequestInfo | request_info.go:36-121 | the request object; keys written: RequestInfoAlwaysWritten and the RequestInfoSparse lemmas; values: RequestInfoRoundTrip |
| Marshal.UserInfoSparse | request_info.go:184-196 | each user-info key is written exactly when its field is not empty |
| Marshal.EmptyPasswordNotWritten | request_info.go:189-191 | a password given as empty is not written; apart from the encoded form the object equals the one for a user without a password |
| Marshal.URLInfoSparse | request_info.go:136-176 | every URL key is written exactly when its field is non-empty, true or non-nil; none is written unconditionally |
| Marshal.FileHeaderInfoSparse | request_info.go:239-264 | each file-header key is written exactly when its field is non-empty; size exactly when non-zero |
| Marshal.MarshalFileHeaderInfos | request_info.go:205-209 | the array has one object per record, in the order of the list |
| Marshal.FormInfoSparse | request_info.go:211-229 | value and file are written exactly when their maps are non-empty; the file dictionary has one entry per field name |
| Marshal.RequestInfoAlwaysWritten | request_info.go:36-121 | method, proto, proto_major, proto_minor, host, remote_addr and request_uri are always written; method and host hold the record's values |
| Marshal.RequestInfoSparseBody | request_info.go:39-67 | url exactly when present; body and body_base64 exactly when non-empty; content_length exactly when positive |
| Marshal.RequestInfoSparseScalars | request_info.go:69-103 | transfer_encoding, form_encoded and post_form_encoded exactly when non-empty; close exactly when true |
| Marshal.RequestInfoSparseMaps | request_info.go:48-116 | header, form, post_form and trailer exactly when non-empty; multipart_form exactly when present |
| Marshal.UserInfoRoundTrip | request_info.go:184-196 | reading the written user object back gives the record |
| Marshal.URLInfoLocationRoundTrip | request_info.go:137-159 | scheme, opaque, host, path and raw_path read back as written |
| Marshal.URLInfoQueryRoundTrip | request_info.go:161-175 | force_query, raw_query, fragment and raw_fragment read back as written |
| Marshal.URLInfoUserRoundTrip | request_info.go:145-147 | the user reads back as written, or as nil when skipped |
| Marshal.URLInfoRoundTrip | request_info.go:136-176 | reading the written URL object back gives the record |
| Marshal.HeaderRoundTrip | request_info.go:48-55 | a header map written as a dictionary of string lists, or skipped when empty, reads back as itself |
| Marshal.FileHeaderInfoRoundTrip | request_info.go:239-264 | reading the written file-header object back gives the record |
| Marshal.FileHeaderInfosRoundTrip | request_info.go:205-209 | reading the written array back gives the list |
| Marshal.FormInfoFilesRoundTrip | request_info.go:221-228 | the file dictionary reads back as the form's file lists |
| Marshal.FormInfoRoundTrip | request_info.go:211-229 | reading the written form object back gives the record |
| Marshal.RequestInfoAlwaysRoundTrip | request_info.go:36-121 | the always-written fields read back as the record's values |
| Marshal.RequestInfoBodyRoundTrip | request_info.go:57-67 | body and body_base64 read back as written; a content length that is not positive reads back as 0 |
| Marshal.RequestInfoScalarsRoundTrip | request_info.go:69-103 | transfer_encoding, close and both form encodings read back as written |
| Marshal.RequestInfoHeadersRoundTrip | request_info.go:48-116 | header, form, post_form and trailer read back as written |
| Marshal.RequestInfoURLRoundTrip | request_info.go:39-41 | the url object reads back as the URL record |
| Marshal.RequestInfoFormRoundTrip | request_info.go:105-107 | the multipart_form object reads back as the form record |
| Marshal.RequestInfoRoundTrip | request_info.go:36-121 | sparse writing loses nothing: reading back gives the record, except that a content length that is not positive becomes 0 |
| Marshal.MarshalRequestInfoInjective | request_info.go:36-121 | two records with non-negative content lengths that write the same object are equal |
| Scenarios.MapTestRequest | request_info_test.go:17-33 | GET /test with no body, mapped with encodeBytes, gives exactly the record the test expects, whatever the codec |
| Scenarios.TestRecordWrites | request_info.go:36-121 | the test record writes the seven always-written keys and url |
| Scenarios.TestRecordSkipsScalars | request_info.go:57-103 | the test record writes no body, body_base64, content_length, transfer_encoding, close or form encodings |
| Scenarios.TestRecordSkipsMaps | request_info.go:48-116 | the test record writes no header, form, post_form, multipart_form or trailer |
| Scenarios.TestRecordURL | request_info.go:136-176 | the test record's url object holds only its path |
| Scenarios.HelloBase64 | request_info.go:326 | "hello" is stored as "aGVsbG8=", which decodes back to "hello" |
| Scenarios.MapHelloEncoded | request_info.go:320-332 | a "hello" body with encodeBytes is kept only as base64, and the handler still reads "hello" |
| Scenarios.MapHelloRaw | request_info.go:320-332 | a "hello" body without encodeBytes is kept raw, and the handler still reads "hello" |
| Scenarios.MapNoBodyStaysReadable | request_info.go:321-332 | a POST with Content-Length 0 (body http.NoBody) captures nothing, and the handler still reads an empty body without error |
| Scenarios.MapEmptyChunkedBodyCloses | request_info.go:321-332 | an empty chunked server body captures nothing and is closed, so a later read fails |
| Scenarios.MapTrailerTwice | request_info.go:289-292 | a chunked request declaring trailer X-Sum, whose client sends X-Sum: 1, records X-Sum with no values the first time and with "1" the second time |
| Marshal.UserKeyNamesDistinct | request_info.go:185-195 | the three user-info keys have distinct JSON names |
| Marshal.URLKeyNamesDistinct | request_info.go:137-175 | the ten URL keys have distinct JSON names |
| Marshal.FileHeaderKeyNamesDistinct | request_info.go:240-263 | the five file-header keys have distinct JSON names |
| Marshal.FormKeyNamesDistinct | request_info.go:212-228 | value and file have distinct JSON names |
| Marshal.RequestKeyNamesDistinct | request_info.go:36-121 | the twenty request keys have distinct JSON names |

## Left out

- zerolog's JSON bytes and field order are not modelled. A written object is a map, and so is every dictionary built by walking a Go map, whose walk order is random. A `Bytes` value keeps its bytes, while zerolog writes them as a JSON string and replaces invalid UTF-8 with U+FFFD, so a raw binary body or file is lossy in the real log; base64 (encodeBytes) is the lossless form.
- `url.Values.Encode` and `url.Userinfo.String` are parameters (`UrlCodec`). Their output is not modelled.
- Stream I/O is not modelled. A body read or a multipart file read is an abstract outcome.
- `MapFileHeader` never closes the file it opens, and the model claims nothing about releasing it.
- Aliasing is not modelled: Form, PostForm, the multipart Value and the MIME header are shared with the request in Go, and records here are values. Header and Trailer clones are plain copies.
- A nil map or slice and an empty one are the same value in the model. So are a nil multipart list and an empty one.
- `int64` widths are not modelled: ContentLength, Size and the protocol numbers are unbounded integers.
- Marshal.RequestInfoRoundTrip: a negative ContentLength is not written, so it reads back as 0.
- A nil `Body` on the request is not modelled: an inbound server request always has one.
- The trailer a body hands over is whatever its constructor was given. net/http's checks on which keys may be sent as a trailer are not modelled.
- `MapRequest` maps the forms before the body step, while the Go function does so after it. Neither step reads what the other changes, so the record is the same.
- A nil entry inside `FileHeaderInfos` is not modelled: `MapForm` never produces one.
- `cmd/httpnote/main.go` and `handler.go` are not part of this model. They hold process start-up, log rotation, the HTTP listener and a thin zerolog wrapper.
