/** The decision logic of the Telegram bot (`bot.Handle`): which chats are served, how a
    message's media becomes a file name, and what each handler does with the outcome of
    the Telegram calls and of the upload. Each handler is a function from the event and
    those outcomes to the effects it has. */
module Bot {
  import opened Wrappers
  import opened Strings
  import opened Strconv
  import ImmichUploader

  // ---------------------------------------------------------------- allow-list

  /** The ids of the pieces that are valid int64 decimals, in order, duplicates kept. */
  function ParsedIds(pieces: seq<string>): (ids: seq<int>)
    ensures |ids| <= |pieces|
    ensures forall i :: 0 <= i < |ids| ==> IsInt64(ids[i])
  {
    if pieces == [] then []
    else
      (match ParseInt64(pieces[0]) case Some(v) => [v] case None => []) + ParsedIds(pieces[1..])
  }

  /** The allow-list configured by the `ALLOWED_CHAT_IDS` text (`""` when the variable
      is unset): spaces removed, split at commas, unparsable pieces dropped. */
  function AllowedChats(raw: string): (ids: seq<int>)
    ensures forall i :: 0 <= i < |ids| ==> IsInt64(ids[i])
  {
    if raw == "" then [] else ParsedIds(Split(RemoveChar(raw, ' '), ','))
  }

  lemma {:induction false} ParsedIdsAppend(a: seq<string>, b: seq<string>)
    ensures ParsedIds(a + b) == ParsedIds(a) + ParsedIds(b)
  {
    if a != [] {
      assert (a + b)[0] == a[0] && (a + b)[1..] == a[1..] + b;
      ParsedIdsAppend(a[1..], b);
    } else {
      assert a + b == b;
    }
  }

  /** An id is configured exactly when some piece parses to it. */
  lemma {:induction false} ParsedIdsMembership(pieces: seq<string>, id: int)
    ensures id in ParsedIds(pieces) <==> exists i :: 0 <= i < |pieces| && ParseInt64(pieces[i]) == Some(id)
  {
    if pieces != [] {
      ParsedIdsMembership(pieces[1..], id);
      if id in ParsedIds(pieces[1..]) {
        var i :| 0 <= i < |pieces[1..]| && ParseInt64(pieces[1..][i]) == Some(id);
        assert ParseInt64(pieces[i + 1]) == Some(id);
      }
      if exists i :: 0 <= i < |pieces| && ParseInt64(pieces[i]) == Some(id) {
        var i :| 0 <= i < |pieces| && ParseInt64(pieces[i]) == Some(id);
        if i > 0 {
          assert ParseInt64(pieces[1..][i - 1]) == Some(id);
        }
      }
    }
  }

  lemma ParsedIdsSnoc(pieces: seq<string>, k: nat)
    requires k < |pieces|
    ensures ParsedIds(pieces[..k + 1])
         == ParsedIds(pieces[..k]) + (match ParseInt64(pieces[k]) case Some(v) => [v] case None => [])
  {
    ParsedIdsAppend(pieces[..k], [pieces[k]]);
    assert pieces[..k + 1] == pieces[..k] + [pieces[k]];
  }

  /** The `ALLOWED_CHAT_IDS` loop of `bot.Handle`: append the id of every piece that parses. */
  method ParseAllowedChats(raw: string) returns (allowedChats: seq<int>)
    ensures allowedChats == AllowedChats(raw)
    ensures forall i :: 0 <= i < |allowedChats| ==> IsInt64(allowedChats[i])
  {
    allowedChats := [];
    if raw != "" {
      var ids := Split(RemoveChar(raw, ' '), ',');
      for k := 0 to |ids|
        invariant allowedChats == ParsedIds(ids[..k])
      {
        var id := ParseInt64(ids[k]);
        ParsedIdsSnoc(ids, k);
        if id.Some? {
          allowedChats := allowedChats + [id.value];
        }
      }
      assert ids[..|ids|] == ids;
    }
  }

  /** `isAllowedChat`: a linear scan that stops at the first match. */
  method IsAllowedChat(chatId: int, allowedChats: seq<int>) returns (allowed: bool)
    ensures allowed <==> chatId in allowedChats
  {
    for k := 0 to |allowedChats|
      invariant chatId !in allowedChats[..k]
    {
      if allowedChats[k] == chatId {
        return true;
      }
      assert allowedChats[..k + 1] == allowedChats[..k] + [allowedChats[k]];
    }
    assert allowedChats[..|allowedChats|] == allowedChats;
    return false;
  }

  /** The text an operator would write for a list of ids: their decimals joined by commas. */
  function IdsText(ids: seq<int>): (text: string) {
    Join(seq(|ids|, i requires 0 <= i < |ids| => FormatInt(ids[i])), ',')
  }

  lemma {:induction false} ParsedIdsOfDecimals(ids: seq<int>, pieces: seq<string>)
    requires forall i :: 0 <= i < |ids| ==> IsInt64(ids[i])
    requires |pieces| == |ids| && forall i :: 0 <= i < |ids| ==> pieces[i] == FormatInt(ids[i])
    ensures ParsedIds(pieces) == ids
  {
    if ids != [] {
      ParseFormat(ids[0]);
      ParsedIdsOfDecimals(ids[1..], pieces[1..]);
    }
  }

  lemma {:induction false} JoinWithout(parts: seq<string>, sep: char, c: char)
    requires c != sep
    requires forall i :: 0 <= i < |parts| ==> c !in parts[i]
    ensures c !in Join(parts, sep)
  {
    if |parts| > 1 {
      JoinWithout(parts[1..], sep, c);
    }
  }

  /** Any list of int64 ids written as comma-separated decimals is configured exactly,
      in order and with duplicates; an empty list gives the empty text and allows nothing. */
  lemma ConfigRoundTrip(ids: seq<int>)
    requires forall i :: 0 <= i < |ids| ==> IsInt64(ids[i])
    ensures AllowedChats(IdsText(ids)) == ids
  {
    var pieces := seq(|ids|, i requires 0 <= i < |ids| => FormatInt(ids[i]));
    if ids != [] {
      var text := IdsText(ids);
      forall i | 0 <= i < |pieces| ensures ' ' !in pieces[i] && ',' !in pieces[i] {
        FormatIntChars(ids[i], ' ');
        FormatIntChars(ids[i], ',');
      }
      JoinWithout(pieces, ',', ' ');
      assert RemoveChar(text, ' ') == text;
      assert text != "" by {
        if |pieces| > 1 {
          assert Join(pieces, ',') == pieces[0] + [','] + Join(pieces[1..], ',');
        }
      }
      SplitJoin(pieces, ',');
      ParsedIdsOfDecimals(ids, pieces);
    }
  }

  /** Spaces anywhere are dropped before splitting, so the text is read as if it had none. */
  lemma SpacesIgnored(raw: string)
    ensures AllowedChats(raw) == AllowedChats(RemoveChar(raw, ' '))
  {
    var stripped := RemoveChar(raw, ' ');
    if raw != "" && stripped == "" {
      assert Split(stripped, ',') == [""];
      ParseNeedsDigit("");
      assert ParsedIds([""]) == [];
    }
  }

  // ---------------------------------------------------------------- file names

  /** The name of a photo: the message's file id, always `.jpg`. */
  function PhotoName(fileId: string): (name: string) {
    "photo_" + fileId + ".jpg"
  }

  /** The name of a video: the fetched file's id, always `.mp4`. */
  function VideoName(fileId: string): (name: string) {
    "video_" + fileId + ".mp4"
  }

  /** The extension of an image document without a file name, chosen by MIME prefix. */
  function ImageExtension(mime: string): (ext: string)
    ensures ext == ".png" <==> HasPrefix(mime, "image/png")
    ensures ext == ".webp" <==> !HasPrefix(mime, "image/png") && HasPrefix(mime, "image/webp")
    ensures ext == ".heic" <==> !HasPrefix(mime, "image/png") && !HasPrefix(mime, "image/webp")
                                && (HasPrefix(mime, "image/heic") || HasPrefix(mime, "image/heif"))
    ensures ext == ".jpg" <==> !HasPrefix(mime, "image/png") && !HasPrefix(mime, "image/webp")
                               && !HasPrefix(mime, "image/heic") && !HasPrefix(mime, "image/heif")
  {
    if HasPrefix(mime, "image/png") then ".png"
    else if HasPrefix(mime, "image/webp") then ".webp"
    else if HasPrefix(mime, "image/heic") || HasPrefix(mime, "image/heif") then ".heic"
    else ".jpg"
  }

  /** The extension of a video document without a file name, chosen by MIME prefix. */
  function VideoExtension(mime: string): (ext: string)
    ensures ext == ".mov" <==> HasPrefix(mime, "video/quicktime")
    ensures ext == ".avi" <==> !HasPrefix(mime, "video/quicktime") && HasPrefix(mime, "video/x-msvideo")
    ensures ext == ".mp4" <==> !HasPrefix(mime, "video/quicktime") && !HasPrefix(mime, "video/x-msvideo")
  {
    if HasPrefix(mime, "video/quicktime") then ".mov"
    else if HasPrefix(mime, "video/x-msvideo") then ".avi"
    else ".mp4"
  }

  /** A document keeps its own non-empty name; otherwise it is `<prefix><file id><ext>`. */
  function DocumentName(declared: string, prefix: string, fileId: string, ext: string): (name: string)
    ensures declared != "" ==> name == declared
    ensures declared == "" ==> HasPrefix(name, prefix + fileId) && name[|prefix| + |fileId|..] == ext
  {
    if declared != "" then declared
    else
      var name := prefix + fileId + ext;
      assert name[..|prefix| + |fileId|] == prefix + fileId;
      name
  }

  // ---------------------------------------------------------------- handlers

  datatype Kind = Photo | Video | Document

  /** The media object of a message: file id, declared MIME type and declared file
      name (empty when none; photos and videos use only the id). */
  datatype Attachment = Attachment(fileId: string, mime: string, fileName: string)

  /** An incoming message: the chat, which handler receives it, and its media object
      (`None` when the message's `Photo`, `Video` or `Document` is nil). */
  datatype Event = Event(chatId: int, kind: Kind, attachment: Option<Attachment>)

  /** What `bot.FileByID` and then `bot.File` did; `fileId` is the id of the file
      `FileByID` returned. */
  datatype Fetch = LookupFailed | Unreadable | Fetched(fileId: string)

  /** What a handler does: the file id it asks `FileByID` for, the file name it hands to
      `Upload`, the reply it sends, and the metric label it counts (which also
      refreshes the last-processed time). */
  datatype Effects = Effects(
    lookup: Option<string>,
    upload: Option<string>,
    reply: Option<string>,
    metric: Option<string>)

  const Ignored: Effects := Effects(None, None, None, None)

  /** The two replies for a failed fetch in one branch. */
  datatype FetchReplies = FetchReplies(lookupFailed: string, unreadable: string)

  const PhotoReplies: FetchReplies := FetchReplies("Не удалось загрузить фото.", "Ошибка чтения файла.")
  const VideoReplies: FetchReplies := FetchReplies("Не удалось получить видео.", "Ошибка чтения видео.")
  const ImageDocumentReplies: FetchReplies := FetchReplies("Не удалось получить файл.", "Ошибка чтения файла.")

  function MissingReply(kind: Kind): (reply: string) {
    match kind
    case Photo => "Нет фото."
    case Video => "Нет видео."
    case Document => "Нет документа."
  }

  /** The reply to a failed upload: a fixed prefix and the upload's error message. */
  function UploadFailedReply(e: ImmichUploader.UploadError): (reply: string) {
    "Ошибка при отправке на API: " + ImmichUploader.ErrorText(e)
  }

  /** Fetch, name, upload and count, as every branch does it; `name` maps the fetched
      file's id to the upload's file name. */
  function Transfer(asked: string, fetch: Fetch, name: string -> string, replies: FetchReplies, metricLabel: string,
                    upload: Result<string, ImmichUploader.UploadError>): (e: Effects)
    ensures e.lookup == Some(asked)
    ensures e.metric.Some? <==> fetch.Fetched? && upload.Success?
    ensures e.metric.Some? ==> e.metric == Some(metricLabel) && e.reply.None?
    ensures e.upload.Some? <==> fetch.Fetched?
    ensures fetch.Fetched? ==> e.upload == Some(name(fetch.fileId))
    ensures fetch.LookupFailed? ==> e == Effects(Some(asked), None, Some(replies.lookupFailed), None)
    ensures fetch.Unreadable? ==> e == Effects(Some(asked), None, Some(replies.unreadable), None)
    ensures fetch.Fetched? && upload.Failure? ==> e.reply == Some(UploadFailedReply(upload.error)) && e.metric.None?
  {
    match fetch
    case LookupFailed => Effects(Some(asked), None, Some(replies.lookupFailed), None)
    case Unreadable => Effects(Some(asked), None, Some(replies.unreadable), None)
    case Fetched(fileId) =>
      match upload
      case Failure(err) => Effects(Some(asked), Some(name(fileId)), Some(UploadFailedReply(err)), None)
      case Success(_) => Effects(Some(asked), Some(name(fileId)), None, Some(metricLabel))
  }

  /** The `OnPhoto` handler of `bot.Handle`. */
  function HandlePhoto(allowedChats: seq<int>, chatId: int, photo: Option<Attachment>, fetch: Fetch,
                       upload: Result<string, ImmichUploader.UploadError>): (e: Effects)
    ensures chatId !in allowedChats ==> e == Ignored
    ensures chatId in allowedChats && photo.None? ==> e == Effects(None, None, Some("Нет фото."), None)
    ensures e.lookup.Some? ==> photo.Some? && e.lookup == Some(photo.value.fileId)
    ensures e.upload.Some? ==> photo.Some? && fetch.Fetched? && e.upload == Some(PhotoName(photo.value.fileId))
    ensures e.metric.Some? ==> upload.Success? && e.metric == Some("photo")
  {
    if chatId !in allowedChats then Ignored
    else match photo
      case None => Effects(None, None, Some(MissingReply(Photo)), None)
      case Some(p) => Transfer(p.fileId, fetch, _ => PhotoName(p.fileId), PhotoReplies, "photo", upload)
  }

  /** The `OnVideo` handler of `bot.Handle`. */
  function HandleVideo(allowedChats: seq<int>, chatId: int, video: Option<Attachment>, fetch: Fetch,
                       upload: Result<string, ImmichUploader.UploadError>): (e: Effects)
    ensures chatId !in allowedChats ==> e == Ignored
    ensures chatId in allowedChats && video.None? ==> e == Effects(None, None, Some("Нет видео."), None)
    ensures e.lookup.Some? ==> video.Some? && e.lookup == Some(video.value.fileId)
    ensures e.upload.Some? ==> video.Some? && fetch.Fetched? && e.upload == Some(VideoName(fetch.fileId))
    ensures e.metric.Some? ==> upload.Success? && e.metric == Some("video")
  {
    if chatId !in allowedChats then Ignored
    else match video
      case None => Effects(None, None, Some(MissingReply(Video)), None)
      case Some(v) => Transfer(v.fileId, fetch, VideoName, VideoReplies, "video", upload)
  }

  /** The `OnDocument` handler of `bot.Handle`: images first, then videos, the rest ignored. */
  function HandleDocument(allowedChats: seq<int>, chatId: int, doc: Option<Attachment>, fetch: Fetch,
                          upload: Result<string, ImmichUploader.UploadError>): (e: Effects)
    ensures chatId !in allowedChats ==> e == Ignored
    ensures chatId in allowedChats && doc.None? ==> e == Effects(None, None, Some("Нет документа."), None)
    ensures chatId in allowedChats && doc.Some? ==>
      (e == Ignored <==> !HasPrefix(doc.value.mime, "image/") && !HasPrefix(doc.value.mime, "video/"))
    ensures e.lookup.Some? ==> doc.Some? && e.lookup == Some(doc.value.fileId)
    ensures e.upload.Some? ==>
      (doc.Some? && fetch.Fetched? &&
       e.upload == Some(if HasPrefix(doc.value.mime, "image/")
                        then DocumentName(doc.value.fileName, "image_", fetch.fileId, ImageExtension(doc.value.mime))
                        else DocumentName(doc.value.fileName, "video_", fetch.fileId, VideoExtension(doc.value.mime))))
    ensures e.metric.Some? ==>
      (doc.Some? && upload.Success? &&
       e.metric == Some(if HasPrefix(doc.value.mime, "image/") then "document_image" else "document_video"))
  {
    if chatId !in allowedChats then Ignored
    else match doc
      case None => Effects(None, None, Some(MissingReply(Document)), None)
      case Some(d) =>
        if HasPrefix(d.mime, "image/") then
          Transfer(d.fileId, fetch, id => DocumentName(d.fileName, "image_", id, ImageExtension(d.mime)),
                   ImageDocumentReplies, "document_image", upload)
        else if HasPrefix(d.mime, "video/") then
          Transfer(d.fileId, fetch, id => DocumentName(d.fileName, "video_", id, VideoExtension(d.mime)),
                   VideoReplies, "document_video", upload)
        else Ignored
  }

  /** The dispatch of an event to the handler `bot.Handle` registers for its kind. */
  function HandleEvent(allowedChats: seq<int>, ev: Event, fetch: Fetch,
                       upload: Result<string, ImmichUploader.UploadError>): (e: Effects)
    ensures e != Ignored ==> ev.chatId in allowedChats
    ensures e.lookup.Some? ==> ev.attachment.Some? && e.lookup == Some(ev.attachment.value.fileId)
    ensures e.upload.Some? ==> e.lookup.Some? && fetch.Fetched?
  {
    match ev.kind
    case Photo => HandlePhoto(allowedChats, ev.chatId, ev.attachment, fetch, upload)
    case Video => HandleVideo(allowedChats, ev.chatId, ev.attachment, fetch, upload)
    case Document => HandleDocument(allowedChats, ev.chatId, ev.attachment, fetch, upload)
  }

  // ---------------------------------------------------------------- properties

  /** A chat off the list causes no fetch, no upload, no reply and no metric. */
  lemma NotAllowedIgnored(allowedChats: seq<int>, ev: Event, fetch: Fetch,
                          upload: Result<string, ImmichUploader.UploadError>)
    requires ev.chatId !in allowedChats
    ensures HandleEvent(allowedChats, ev, fetch, upload) == Ignored
  {
  }

  /** With `ALLOWED_CHAT_IDS` unset or empty, or holding no digit at all, every event is ignored. */
  lemma NoConfiguredIdsIgnoresAll(raw: string, ev: Event, fetch: Fetch,
                                  upload: Result<string, ImmichUploader.UploadError>)
    requires forall i :: 0 <= i < |raw| ==> !IsDigit(raw[i])
    ensures AllowedChats(raw) == []
    ensures HandleEvent(AllowedChats(raw), ev, fetch, upload) == Ignored
  {
    if raw != "" {
      var stripped := RemoveChar(raw, ' ');
      RemoveKeepsNoDigit(raw);
      var pieces := Split(stripped, ',');
      forall i | 0 <= i < |pieces| ensures ParseInt64(pieces[i]) == None {
        SplitKeepsChars(stripped, ',', i);
        ParseNeedsDigit(pieces[i]);
      }
      NothingParses(pieces);
    }
  }

  /** When no piece of the text is a valid int64 decimal (`"1a,x2"`, `"abc"`, `""`),
      nothing is configured and every event is ignored. */
  lemma NoValidIdIgnoresAll(raw: string, ev: Event, fetch: Fetch,
                            upload: Result<string, ImmichUploader.UploadError>)
    requires forall i :: 0 <= i < |Split(RemoveChar(raw, ' '), ',')| ==>
               ParseInt64(Split(RemoveChar(raw, ' '), ',')[i]) == None
    ensures AllowedChats(raw) == []
    ensures HandleEvent(AllowedChats(raw), ev, fetch, upload) == Ignored
  {
    if raw != "" {
      NothingParses(Split(RemoveChar(raw, ' '), ','));
    }
  }

  lemma RemoveKeepsNoDigit(raw: string)
    requires forall i :: 0 <= i < |raw| ==> !IsDigit(raw[i])
    ensures forall j :: 0 <= j < |RemoveChar(raw, ' ')| ==> !IsDigit(RemoveChar(raw, ' ')[j])
  {
    var stripped := RemoveChar(raw, ' ');
    forall j | 0 <= j < |stripped| ensures !IsDigit(stripped[j]) {
      var c := stripped[j];
      assert multiset(stripped)[c] > 0;
      assert multiset(raw)[c] > 0;
    }
  }

  lemma {:induction false} NothingParses(pieces: seq<string>)
    requires forall i :: 0 <= i < |pieces| ==> ParseInt64(pieces[i]) == None
    ensures ParsedIds(pieces) == []
  {
    if pieces != [] {
      NothingParses(pieces[1..]);
    }
  }

  /** Every character of a piece comes from the split string. */
  lemma {:induction false} SplitKeepsChars(s: string, sep: char, k: int)
    requires 0 <= k < |Split(s, sep)|
    ensures forall j :: 0 <= j < |Split(s, sep)[k]| ==> Split(s, sep)[k][j] in s
  {
    if s != [] {
      var rest := Split(s[1..], sep);
      if s[0] == sep {
        if k > 0 { SplitKeepsChars(s[1..], sep, k - 1); }
      } else {
        if k > 0 { SplitKeepsChars(s[1..], sep, k); }
        else { SplitKeepsChars(s[1..], sep, 0); }
      }
    }
  }

  /** An allowed message whose photo, video or document is nil gets the fixed "none"
      reply and nothing else happens. */
  lemma MissingMediaReplies(allowedChats: seq<int>, ev: Event, fetch: Fetch,
                            upload: Result<string, ImmichUploader.UploadError>)
    requires ev.chatId in allowedChats && ev.attachment.None?
    ensures HandleEvent(allowedChats, ev, fetch, upload) == Effects(None, None, Some(MissingReply(ev.kind)), None)
  {
  }

  /** When `FileByID` or `File` fails, the user is told with the branch's fixed message,
      and nothing is uploaded or counted. */
  lemma FailedFetchReplies(allowedChats: seq<int>, ev: Event, fetch: Fetch,
                           upload: Result<string, ImmichUploader.UploadError>)
    requires ev.chatId in allowedChats && ev.attachment.Some? && !fetch.Fetched?
    requires ev.kind == Document ==> HasPrefix(ev.attachment.value.mime, "image/")
                                     || HasPrefix(ev.attachment.value.mime, "video/")
    ensures var e := HandleEvent(allowedChats, ev, fetch, upload);
      var replies := match ev.kind
        case Photo => PhotoReplies
        case Video => VideoReplies
        case Document => if HasPrefix(ev.attachment.value.mime, "image/") then ImageDocumentReplies else VideoReplies;
      e == Effects(Some(ev.attachment.value.fileId), None,
                   Some(if fetch.LookupFailed? then replies.lookupFailed else replies.unreadable), None)
  {
  }

  /** The label a successful upload of this event is counted under. */
  function BranchLabel(ev: Event): (counted: string)
    requires ev.kind == Document ==> ev.attachment.Some?
  {
    match ev.kind
    case Photo => "photo"
    case Video => "video"
    case Document => if HasPrefix(ev.attachment.value.mime, "image/") then "document_image" else "document_video"
  }

  /** An allowed message whose file was fetched and uploaded is counted under its branch's
      label and gets no reply. */
  lemma SuccessfulUploadCounted(allowedChats: seq<int>, ev: Event, fileId: string, id: string)
    requires ev.chatId in allowedChats && ev.attachment.Some?
    requires ev.kind == Document ==> HasPrefix(ev.attachment.value.mime, "image/")
                                     || HasPrefix(ev.attachment.value.mime, "video/")
    ensures var e := HandleEvent(allowedChats, ev, Fetched(fileId), Success(id));
      e.lookup == Some(ev.attachment.value.fileId) && e.upload.Some? && e.reply.None?
      && e.metric == Some(BranchLabel(ev))
  {
  }

  /** A metric is recorded only after a successful upload, and a failed upload records none. */
  lemma MetricOnlyAfterUpload(allowedChats: seq<int>, ev: Event, fetch: Fetch,
                              upload: Result<string, ImmichUploader.UploadError>)
    ensures var e := HandleEvent(allowedChats, ev, fetch, upload);
      e.metric.Some? ==> upload.Success? && e.upload.Some? && e.reply.None?
  {
  }

  /** A failed upload is answered with its error and counts nothing. */
  lemma FailedUploadReplies(allowedChats: seq<int>, ev: Event, fetch: Fetch, err: ImmichUploader.UploadError)
    requires var e := HandleEvent(allowedChats, ev, fetch, Failure(err)); e.upload.Some?
    ensures var e := HandleEvent(allowedChats, ev, fetch, Failure(err));
      e.reply == Some(UploadFailedReply(err)) && e.metric.None?
  {
  }

  /** A photo is named after the message's file id, whatever its MIME type. */
  lemma PhotoNamed(allowedChats: seq<int>, ev: Event, fetch: Fetch,
                   upload: Result<string, ImmichUploader.UploadError>)
    requires ev.kind == Photo && ev.chatId in allowedChats && ev.attachment.Some? && fetch.Fetched?
    ensures HandleEvent(allowedChats, ev, fetch, upload).upload == Some("photo_" + ev.attachment.value.fileId + ".jpg")
  {
  }

  /** A video is named after the fetched file's id, whatever its MIME type. */
  lemma VideoNamed(allowedChats: seq<int>, ev: Event, fetch: Fetch,
                   upload: Result<string, ImmichUploader.UploadError>)
    requires ev.kind == Video && ev.chatId in allowedChats && ev.attachment.Some? && fetch.Fetched?
    ensures HandleEvent(allowedChats, ev, fetch, upload).upload == Some("video_" + fetch.fileId + ".mp4")
  {
  }

  /** An image document keeps its declared name, or is named by its MIME prefix. */
  lemma ImageDocumentNamed(allowedChats: seq<int>, ev: Event, fetch: Fetch,
                           upload: Result<string, ImmichUploader.UploadError>)
    requires ev.kind == Document && ev.chatId in allowedChats && ev.attachment.Some? && fetch.Fetched?
    requires HasPrefix(ev.attachment.value.mime, "image/")
    ensures var d := ev.attachment.value;
      HandleEvent(allowedChats, ev, fetch, upload).upload
        == Some(if d.fileName != "" then d.fileName else "image_" + fetch.fileId + ImageExtension(d.mime))
    ensures HandleEvent(allowedChats, ev, fetch, upload).metric.Some? ==>
      HandleEvent(allowedChats, ev, fetch, upload).metric == Some("document_image")
  {
  }

  /** A video document keeps its declared name, or is named by its MIME prefix. */
  lemma VideoDocumentNamed(allowedChats: seq<int>, ev: Event, fetch: Fetch,
                           upload: Result<string, ImmichUploader.UploadError>)
    requires ev.kind == Document && ev.chatId in allowedChats && ev.attachment.Some? && fetch.Fetched?
    requires HasPrefix(ev.attachment.value.mime, "video/")
    ensures var d := ev.attachment.value;
      HandleEvent(allowedChats, ev, fetch, upload).upload
        == Some(if d.fileName != "" then d.fileName else "video_" + fetch.fileId + VideoExtension(d.mime))
    ensures HandleEvent(allowedChats, ev, fetch, upload).metric.Some? ==>
      HandleEvent(allowedChats, ev, fetch, upload).metric == Some("document_video")
  {
    var d := ev.attachment.value;
    assert !HasPrefix(d.mime, "image/") by {
      assert d.mime[..6] == "video/"[..6];
    }
  }

  /** A document that is neither an image nor a video is ignored. */
  lemma OtherDocumentIgnored(allowedChats: seq<int>, ev: Event, fetch: Fetch,
                             upload: Result<string, ImmichUploader.UploadError>)
    requires ev.kind == Document && ev.attachment.Some?
    requires !HasPrefix(ev.attachment.value.mime, "image/") && !HasPrefix(ev.attachment.value.mime, "video/")
    ensures HandleEvent(allowedChats, ev, fetch, upload) == Ignored
  {
  }

  /** The metric label names the branch that uploaded. */
  lemma MetricLabels(allowedChats: seq<int>, ev: Event, fetch: Fetch,
                     upload: Result<string, ImmichUploader.UploadError>)
    requires HandleEvent(allowedChats, ev, fetch, upload).metric.Some?
    ensures var counted := HandleEvent(allowedChats, ev, fetch, upload).metric.value;
      match ev.kind
      case Photo => counted == "photo"
      case Video => counted == "video"
      case Document =>
        counted == (if HasPrefix(ev.attachment.value.mime, "image/") then "document_image" else "document_video")
  {
  }

  lemma FortyTwoConfigured()
    ensures AllowedChats("42") == [42]
  {
    assert NatDigits(42) == NatDigits(4) + [DigitChar(2)];
    assert FormatInt(42) == "42";
    ParseFormat(42);
    SplitJoin(["42"], ',');
    assert Split("42", ',') == ["42"];
  }

  /** A text with no space and no comma is one piece of the allow-list. */
  lemma SinglePiece(text: string)
    requires text != [] && ' ' !in text && ',' !in text
    ensures AllowedChats(text) == ParsedIds([text])
  {
    assert RemoveChar(text, ' ') == text;
    SplitJoin([text], ',');
  }

  /** A `+` sign and a leading zero are accepted: `"+042"` configures exactly chat 42,
      and likewise for every non-negative int64. */
  lemma SignedPaddedConfigured(n: int)
    requires 0 <= n <= MaxInt64
    ensures AllowedChats("+0" + FormatInt(n)) == [n]
  {
    var text := "+0" + FormatInt(n);
    ParsePadded(n);
    FormatIntChars(n, ' ');
    FormatIntChars(n, ',');
    assert text == "+0" + FormatInt(n);
    SinglePiece(text);
  }

  /** The photo scenario end to end: from an allowed chat, photo `abc123` is looked up,
      uploaded as `photo_abc123.jpg` and counted as `photo`. */
  lemma PhotoScenario(allowedChats: seq<int>, chatId: int, id: string)
    requires chatId in allowedChats
    ensures HandleEvent(allowedChats, Event(chatId, Photo, Some(Attachment("abc123", "", ""))), Fetched("abc123"), Success(id))
         == Effects(Some("abc123"), Some("photo_abc123.jpg"), None, Some("photo"))
  {
    assert PhotoName("abc123") == "photo_abc123.jpg";
  }
}
