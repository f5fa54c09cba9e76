/** `Immich.Upload`: reads the whole file, computes its SHA-1 checksum, builds the
    multipart form and the POST to `<server>/api/assets`, and classifies the reply. */
module ImmichUploader {
  import opened Wrappers
  import opened Strings
  import Strconv
  import Hex
  import opened Multipart
  import opened Http

  /** A SHA-1 digest. */
  type Digest = d: seq<Hex.byte> | |d| == 20 witness seq(20, _ => 0 as Hex.byte)

  /** The client configuration: server base URL and API key. */
  datatype Immich = Immich(server: string, token: string)

  /** The JSON reply `{id, status}` of the assets endpoint. */
  datatype ApiResponse = ApiResponse(id: string, status: string)

  /** What the upload takes from code outside the model. */
  datatype Externals = Externals(
    sha1: seq<Hex.byte> -> Digest,       // crypto/sha1
    marshal: seq<string> -> string,      // json.Marshal of a []string
    random: Entropy,                     // the bytes of the multipart boundary
    now: string,                         // time.Now().Format(time.RFC3339), read once
    urlError: string -> Option<string>)  // why http.NewRequest rejects a URL, None if it parses

  /** What `client.Do` and `io.ReadAll` give back; `decoded` is what `json.Unmarshal`
      makes of `body`. */
  datatype Exchange =
    | TransportFailure(cause: string)
    | BodyUnreadable(cause: string)
    | Response(status: int, body: string, decoded: Result<ApiResponse, string>)

  datatype UploadError =
    | SourceUnreadable(cause: string)
    | RequestInvalid(cause: string)
    | TransportFailed(cause: string)
    | ResponseUnreadable(cause: string)
    | StatusRejected(status: int, body: string)
    | ResponseMalformed(cause: string)

  const AssetsPath: string := "/api/assets"
  const DeviceId: string := "telegram"
  const StatusPrefix: string := "ошибка API: статус "
  const BodySeparator: string := ", тело: "

  /** The message of the error `Upload` returns, as `fmt.Errorf` formats it: the fixed
      text of the failing step, then what that step reported. */
  function ErrorText(e: UploadError): (text: string) {
    ErrorPrefix(e) + ErrorDetail(e)
  }

  /** The fixed text of each message, in front of the cause (or of the status). */
  function ErrorPrefix(e: UploadError): (prefix: string)
    ensures |prefix| > 11 && (prefix[7], prefix[11]) == KindMarks(e)
  {
    match e
    case SourceUnreadable(_) => "ошибка чтения файла: "
    case RequestInvalid(_) => "ошибка создания запроса: "
    case TransportFailed(_) => "ошибка выполнения запроса: "
    case ResponseUnreadable(_) => "не удалось прочитать ответ: "
    case StatusRejected(_, _) => StatusPrefix
    case ResponseMalformed(_) => "не удалось распарсить ответ от API: "
  }

  /** What the failing step reported: its cause, or the status and the body. */
  function ErrorDetail(e: UploadError): (detail: string) {
    match e
    case StatusRejected(status, body) => Strconv.FormatInt(status) + BodySeparator + body
    case _ => e.cause
  }

  /** Two characters of each message that tell its kind apart from the five others. */
  function KindMarks(e: UploadError): (marks: (char, char)) {
    match e
    case SourceUnreadable(_) => ('ч', 'и')
    case RequestInvalid(_) => ('с', 'а')
    case TransportFailed(_) => ('в', 'л')
    case ResponseUnreadable(_) => ('о', 'п')
    case StatusRejected(_, _) => ('A', ' ')
    case ResponseMalformed(_) => ('о', 'р')
  }

  lemma MarksOfPrefix(prefix: string, rest: string)
    requires |prefix| > 11
    ensures |prefix + rest| > 11 && (prefix + rest)[7] == prefix[7] && (prefix + rest)[11] == prefix[11]
  {
  }

  /** Errors whose messages carry the same marks are of the same kind. */
  lemma SameMarksSameKind(e1: UploadError, e2: UploadError)
    requires KindMarks(e1) == KindMarks(e2)
    ensures ErrorPrefix(e1) == ErrorPrefix(e2)
    ensures e1.StatusRejected? <==> e2.StatusRejected?
    ensures !e1.StatusRejected? && e1.cause == e2.cause ==> e1 == e2
  {
  }

  /** No message's fixed text starts with another's unless the two are the same text:
      the fixed texts are pairwise incomparable. */
  lemma ErrorPrefixesIncomparable(e1: UploadError, e2: UploadError)
    ensures HasPrefix(ErrorPrefix(e1), ErrorPrefix(e2)) ==> ErrorPrefix(e1) == ErrorPrefix(e2)
    ensures ErrorPrefix(e1) == ErrorPrefix(e2) ==>
      (e1.SourceUnreadable? <==> e2.SourceUnreadable?) && (e1.RequestInvalid? <==> e2.RequestInvalid?)
      && (e1.TransportFailed? <==> e2.TransportFailed?) && (e1.ResponseUnreadable? <==> e2.ResponseUnreadable?)
      && (e1.StatusRejected? <==> e2.StatusRejected?) && (e1.ResponseMalformed? <==> e2.ResponseMalformed?)
  {
    var p1, p2 := ErrorPrefix(e1), ErrorPrefix(e2);
    if HasPrefix(p1, p2) {
      assert p1[7] == p2[7] && p1[11] == p2[11];
      SameMarksSameKind(e1, e2);
    }
    if p1 == p2 {
      SameMarksSameKind(e1, e2);
    }
  }

  /** Distinct errors have distinct messages: the reply the user gets names the failing
      step and carries its cause (or the status and body) unchanged. */
  lemma ErrorTextInjective(e1: UploadError, e2: UploadError)
    requires ErrorText(e1) == ErrorText(e2)
    ensures e1 == e2
  {
    MarksOfPrefix(ErrorPrefix(e1), ErrorDetail(e1));
    MarksOfPrefix(ErrorPrefix(e2), ErrorDetail(e2));
    SameMarksSameKind(e1, e2);
    if e1.StatusRejected? {
      StatusTextDeterminesStatusAndBody(e1.status, e1.body, e2.status, e2.body);
    } else {
      DropCommonPrefix(ErrorPrefix(e1), ErrorDetail(e1), ErrorDetail(e2));
    }
  }

  /** The text of a rejected status determines both the status and the body. */
  lemma StatusTextDeterminesStatusAndBody(s1: int, b1: string, s2: int, b2: string)
    requires ErrorText(StatusRejected(s1, b1)) == ErrorText(StatusRejected(s2, b2))
    ensures s1 == s2 && b1 == b2
  {
    var f1, f2 := Strconv.FormatInt(s1), Strconv.FormatInt(s2);
    assert ErrorPrefix(StatusRejected(s1, b1)) == ErrorPrefix(StatusRejected(s2, b2));
    DropCommonPrefix(ErrorPrefix(StatusRejected(s1, b1)), f1 + BodySeparator + b1, f2 + BodySeparator + b2);
    Strconv.FormatIntChars(s1, ',');
    Strconv.FormatIntChars(s2, ',');
    assert BodySeparator[0] == ',';
    PairInjective(BodySeparator, f1, b1, f2, b2);
    Strconv.FormatIntInjective(s1, s2);
  }

  /** `f + sep + b` determines `f` and `b` when `f` cannot contain the first character of `sep`. */
  lemma PairInjective(sep: string, f1: string, b1: string, f2: string, b2: string)
    requires |sep| > 0 && sep[0] !in f1 && sep[0] !in f2
    requires f1 + sep + b1 == f2 + sep + b2
    ensures f1 == f2 && b1 == b2
  {
    assert f1 + sep + b1 == f1 + (sep + b1);
    assert f2 + sep + b2 == f2 + (sep + b2);
    SplitAtFirst(f1, sep + b1, f2, sep + b2, sep[0]);
    DropCommonPrefix(sep, b1, b2);
  }

  lemma DropCommonPrefix(p: string, x: string, y: string)
    requires p + x == p + y
    ensures x == y
  {
    assert x == (p + x)[|p|..];
    assert y == (p + y)[|p|..];
  }

  /** Two texts that both start with `c` after a `c`-free head split at the same place. */
  lemma SplitAtFirst(f1: string, r1: string, f2: string, r2: string, c: char)
    requires c !in f1 && c !in f2
    requires |r1| > 0 && r1[0] == c && |r2| > 0 && r2[0] == c
    requires f1 + r1 == f2 + r2
    ensures f1 == f2 && r1 == r2
  {
    var t := f1 + r1;
    assert t[|f1|] == c && t[|f2|] == c;
    assert forall i :: 0 <= i < |f1| ==> t[i] == f1[i];
    assert forall i :: 0 <= i < |f2| ==> t[i] == f2[i];
    assert |f1| == |f2|;
    assert f1 == t[..|f1|] && f2 == t[..|f2|];
    assert r1 == t[|f1|..] && r2 == t[|f2|..];
  }

  /** The `x-immich-checksum` value: SHA-1 over the whole content, hex encoded. */
  function Checksum(ext: Externals, content: seq<Hex.byte>): (c: string)
    ensures |c| == 40
    ensures forall i :: 0 <= i < |c| ==> Hex.IsLowerHex(c[i])
    ensures Hex.Decode(c) == Some(ext.sha1(content))
  {
    Hex.DecodeEncode(ext.sha1(content));
    Hex.Encode(ext.sha1(content))
  }

  /** The parts of the upload form, in the order they are written. */
  function FormFields(ext: Externals, content: seq<Hex.byte>, filename: string, tags: seq<string>): (parts: seq<Part>) {
    var checksum := Checksum(ext, content);
    [ FilePart("assetData", filename, content),
      FieldPart("deviceAssetId", checksum),
      FieldPart("deviceId", DeviceId),
      FieldPart("fileCreatedAt", ext.now),
      FieldPart("fileModifiedAt", ext.now)
    ] + (if |tags| > 0 then [FieldPart("tags", ext.marshal(tags))] else [])
  }

  /** The headers of the upload request, under the keys `Header.Set` stores them at. */
  function UploadHeaders(im: Immich, ext: Externals, content: seq<Hex.byte>): (headers: map<string, string>) {
    map[
      CanonicalHeaderKey("Content-Type") := FormDataContentType(Hex.Encode(ext.random)),
      CanonicalHeaderKey("Accept") := "application/json",
      CanonicalHeaderKey("x-immich-checksum") := Checksum(ext, content),
      CanonicalHeaderKey("x-api-key") := im.token
    ]
  }

  /** The value of the first text field called `name`. */
  function FieldValue(parts: seq<Part>, name: string): (r: Option<string>)
    ensures r.Some? ==> exists i :: 0 <= i < |parts| && parts[i] == FieldPart(name, r.value)
    ensures r.None? ==> forall i :: 0 <= i < |parts| ==> !(parts[i].FieldPart? && parts[i].field == name)
  {
    if parts == [] then None
    else if parts[0].FieldPart? && parts[0].field == name then Some(parts[0].value)
    else FieldValue(parts[1..], name)
  }

  /** Parts before `k` that are not the wanted text field do not change the lookup. */
  lemma {:induction false} FieldValueSkip(parts: seq<Part>, name: string, k: nat)
    requires k <= |parts|
    requires forall i :: 0 <= i < k ==> !(parts[i].FieldPart? && parts[i].field == name)
    ensures FieldValue(parts, name) == FieldValue(parts[k..], name)
  {
    if k > 0 {
      FieldValueSkip(parts[1..], name, k - 1);
      assert parts[1..][k - 1..] == parts[k..];
    }
  }

  function FieldNames(parts: seq<Part>): (names: seq<string>)
    ensures |names| == |parts|
    ensures forall i :: 0 <= i < |parts| ==> names[i] == parts[i].field
  {
    if parts == [] then [] else [parts[0].field] + FieldNames(parts[1..])
  }

  /** The fields come in a fixed order: the file, then the checksum, the device,
      the two timestamps, and `tags` last and only when there are tags. */
  lemma FormFieldOrder(ext: Externals, content: seq<Hex.byte>, filename: string, tags: seq<string>)
    ensures FieldNames(FormFields(ext, content, filename, tags))
         == ["assetData", "deviceAssetId", "deviceId", "fileCreatedAt", "fileModifiedAt"]
            + (if |tags| > 0 then ["tags"] else [])
    ensures FormFields(ext, content, filename, tags)[0] == FilePart("assetData", filename, content)
  {
  }

  /** One checksum is both the `deviceAssetId` field and the `x-immich-checksum` header,
      and it is the hex text of the content's SHA-1. */
  lemma ChecksumShared(im: Immich, ext: Externals, content: seq<Hex.byte>, filename: string, tags: seq<string>)
    ensures FieldValue(FormFields(ext, content, filename, tags), "deviceAssetId") == Some(Checksum(ext, content))
    ensures "X-Immich-Checksum" in UploadHeaders(im, ext, content)
    ensures UploadHeaders(im, ext, content)["X-Immich-Checksum"] == Checksum(ext, content)
    ensures Hex.Decode(Checksum(ext, content)) == Some(ext.sha1(content))
  {
    ChecksumKey();
    var fs := FormFields(ext, content, filename, tags);
    FieldValueSkip(fs, "deviceAssetId", 1);
  }

  /** Creation and modification time are the same timestamp. */
  lemma TimestampsIdentical(ext: Externals, content: seq<Hex.byte>, filename: string, tags: seq<string>)
    ensures FieldValue(FormFields(ext, content, filename, tags), "fileCreatedAt") == Some(ext.now)
    ensures FieldValue(FormFields(ext, content, filename, tags), "fileModifiedAt") == Some(ext.now)
  {
    var fs := FormFields(ext, content, filename, tags);
    FieldValueSkip(fs, "fileCreatedAt", 3);
    FieldValueSkip(fs, "fileModifiedAt", 4);
  }

  /** The `tags` field exists exactly when there are tags, and then holds their JSON text. */
  lemma TagsFieldIffTags(ext: Externals, content: seq<Hex.byte>, filename: string, tags: seq<string>)
    ensures FieldValue(FormFields(ext, content, filename, tags), "tags")
         == if |tags| > 0 then Some(ext.marshal(tags)) else None
  {
    var fs := FormFields(ext, content, filename, tags);
    FieldValueSkip(fs, "tags", 5);
  }

  lemma ChecksumKey()
    ensures CanonicalHeaderKey("x-immich-checksum") == "X-Immich-Checksum"
  {
    assert IsToken("x-immich-checksum");
  }

  lemma ApiKeyKey()
    ensures CanonicalHeaderKey("x-api-key") == "X-Api-Key"
  {
    assert IsToken("x-api-key");
  }

  lemma ContentTypeKey()
    ensures CanonicalHeaderKey("Content-Type") == "Content-Type"
  {
    assert IsToken("Content-Type");
  }

  lemma AcceptKey()
    ensures CanonicalHeaderKey("Accept") == "Accept"
  {
    assert IsToken("Accept");
  }

  /** The four headers land under four distinct keys, so none overwrites another. */
  lemma UploadHeaderKeys(im: Immich, ext: Externals, content: seq<Hex.byte>)
    ensures UploadHeaders(im, ext, content).Keys
         == {"Content-Type", "Accept", "X-Immich-Checksum", "X-Api-Key"}
    ensures UploadHeaders(im, ext, content)["X-Api-Key"] == im.token
    ensures UploadHeaders(im, ext, content)["Accept"] == "application/json"
    ensures UploadHeaders(im, ext, content)["Content-Type"]
         == FormDataPrefix + Hex.Encode(ext.random)
  {
    ChecksumKey();
    ApiKeyKey();
    ContentTypeKey();
    AcceptKey();
    HexBoundaryUnquoted(ext.random);
  }

  /** The response handling of `(*Immich).Upload`: the status is checked before the body is looked at as JSON. */
  function Classify(status: int, body: string, decoded: Result<ApiResponse, string>): (r: Result<string, UploadError>)
    ensures !(200 <= status < 300) ==> r == Failure(StatusRejected(status, body))
    ensures 200 <= status < 300 && decoded.Failure? ==> r == Failure(ResponseMalformed(decoded.error))
    ensures r.Success? <==> 200 <= status < 300 && decoded.Success?
    ensures r.Success? ==> r.value == decoded.value.id
  {
    if status < 200 || status >= 300 then Failure(StatusRejected(status, body))
    else match decoded
      case Failure(e) => Failure(ResponseMalformed(e))
      case Success(resp) => Success(resp.id)
  }

  /** A status outside 2xx decides the result whatever the body would decode to. */
  lemma RejectedBeforeParsing(status: int, body: string, d1: Result<ApiResponse, string>, d2: Result<ApiResponse, string>)
    requires !(200 <= status < 300)
    ensures Classify(status, body, d1) == Classify(status, body, d2)
    ensures Classify(status, body, d1).Failure? && Classify(status, body, d1).error.StatusRejected?
  {
  }

  /** What `Upload` returns, given what the outside world does. */
  function UploadResult(im: Immich, source: Result<seq<Hex.byte>, string>, ext: Externals, exchange: Exchange)
    : (r: Result<string, UploadError>)
  {
    if source.Failure? then Failure(SourceUnreadable(source.error))
    else if ext.urlError(im.server + AssetsPath).Some? then Failure(RequestInvalid(ext.urlError(im.server + AssetsPath).value))
    else match exchange
      case TransportFailure(cause) => Failure(TransportFailed(cause))
      case BodyUnreadable(cause) => Failure(ResponseUnreadable(cause))
      case Response(status, body, decoded) => Classify(status, body, decoded)
  }

  /** An upload returns an id only when the file was read, the request was sent, the
      reply had a 2xx status and the reply decoded; the id is the decoded one. */
  lemma UploadSucceedsOnlyOn2xx(im: Immich, source: Result<seq<Hex.byte>, string>, ext: Externals, exchange: Exchange)
    ensures UploadResult(im, source, ext, exchange).Success?
        <==> source.Success? && ext.urlError(im.server + AssetsPath).None?
             && exchange.Response? && 200 <= exchange.status < 300 && exchange.decoded.Success?
    ensures UploadResult(im, source, ext, exchange).Success?
        ==> UploadResult(im, source, ext, exchange).value == exchange.decoded.value.id
  {
  }

  /** The form building of `(*Immich).Upload`: the multipart form, written field by field and closed. */
  method WriteForm(ext: Externals, buf: seq<Hex.byte>, filename: string, tags: seq<string>, checksum: string)
    returns (writer: Writer)
    requires checksum == Checksum(ext, buf)
    ensures fresh(writer) && writer.closed
    ensures writer.boundary == Hex.Encode(ext.random)
    ensures writer.parts == FormFields(ext, buf, filename, tags)
  {
    writer := new Writer(ext.random);
    writer.CreateFormFile("assetData", filename, buf);
    writer.WriteField("deviceAssetId", checksum);
    writer.WriteField("deviceId", DeviceId);
    var now := ext.now;
    writer.WriteField("fileCreatedAt", now);
    writer.WriteField("fileModifiedAt", now);
    if |tags| > 0 {
      var tagJson := ext.marshal(tags);
      writer.WriteField("tags", tagJson);
    }
    writer.Close();
  }

  /** The request building of `(*Immich).Upload` once the URL has parsed: the POST and its four headers. */
  method NewUploadRequest(im: Immich, ext: Externals, buf: seq<Hex.byte>, body: seq<Part>,
                          contentType: string, checksum: string)
    returns (req: Request)
    requires contentType == FormDataContentType(Hex.Encode(ext.random))
    requires checksum == Checksum(ext, buf)
    ensures fresh(req) && req.verb == "POST" && req.url == im.server + AssetsPath && req.body == body
    ensures req.header == UploadHeaders(im, ext, buf)
  {
    req := new Request("POST", im.server + AssetsPath, body);
    req.Set("Content-Type", contentType);
    req.Set("Accept", "application/json");
    req.Set("x-immich-checksum", checksum);
    req.Set("x-api-key", im.token);
  }

  /** `(*Immich).Upload`. `sent` is the request handed to the HTTP client, or null when
      none was built. */
  method Upload(im: Immich, source: Result<seq<Hex.byte>, string>, filename: string, tags: seq<string>,
                ext: Externals, exchange: Exchange)
    returns (sent: Request?, result: Result<string, UploadError>)
    ensures result == UploadResult(im, source, ext, exchange)
    ensures sent != null <==> source.Success? && ext.urlError(im.server + AssetsPath).None?
    ensures sent != null ==> fresh(sent) && sent.verb == "POST" && sent.url == im.server + AssetsPath
    ensures sent != null ==> sent.body == FormFields(ext, source.value, filename, tags)
    ensures sent != null ==> sent.header == UploadHeaders(im, ext, source.value)
  {
    if source.Failure? {
      return null, Failure(SourceUnreadable(source.error));
    }
    var buf := source.value;
    var checksum := Hex.Encode(ext.sha1(buf));
    var writer := WriteForm(ext, buf, filename, tags, checksum);

    var urlError := ext.urlError(im.server + AssetsPath);
    if urlError.Some? {
      return null, Failure(RequestInvalid(urlError.value));
    }
    sent := NewUploadRequest(im, ext, buf, writer.parts, writer.ContentType(), checksum);

    match exchange
    case TransportFailure(cause) =>
      result := Failure(TransportFailed(cause));
    case BodyUnreadable(cause) =>
      result := Failure(ResponseUnreadable(cause));
    case Response(status, body, decoded) =>
      result := Classify(status, body, decoded);
  }
}
