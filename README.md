# Telegram to Immich relay: a Dafny model

This project models the decision logic of a small bot that relays media from Telegram
chats to an Immich server.

- **The bot** (`bot/handler.go`) reads the `ALLOWED_CHAT_IDS` allow-list. It registers
  handlers for photos, videos and documents. Each handler checks the chat, fetches the
  file, derives a file name and uploads the file. It then replies on failure or counts
  a metric on success.
- **The uploader** (`uploader/immich/uploader.go`) reads the whole file and computes
  its SHA-1 checksum as lower-case hex. It writes a multipart form (`assetData`,
  `deviceAssetId`, `deviceId`, `fileCreatedAt`, `fileModifiedAt`, optional `tags`) and
  builds `POST <server>/api/assets` with four headers. It then classifies the reply:
  a non-2xx status is an error carrying status and body, a 2xx reply whose JSON does
  not decode is an error, and otherwise the decoded `id` is returned.

Modules:

| module | file | models |
|---|---|---|
| `Wrappers` | wrappers.dfy | `Option` and `Result`, for Go's `(value, error)` returns |
| `Strings` | strings.dfy | `strings.HasPrefix`, `ReplaceAll(s, " ", "")`, `Split`, and `Join` as its inverse |
| `Strconv` | strconv.dfy | `strconv.ParseInt(s, 10, 64)` and `FormatInt`/`%d` |
| `Hex` | hex.dfy | bytes, `hex.EncodeToString`, and `hex.DecodeString` as its inverse |
| `Multipart` | multipart.dfy | the `multipart.Writer` as a class holding its ordered parts, and its content type |
| `Http` | http.dfy | header-key canonicalisation, and the request as a class whose headers are set one at a time |
| `ImmichUploader` | immich.dfy | `Immich.Upload` |
| `Bot` | bot.dfy | the allow-list, file naming and the three handlers of `bot.Handle` |

What is abstract:

- Handlers are pure functions. Their inputs are the event, the outcome of
  `bot.FileByID`/`bot.File` (`Fetch`) and the outcome of the upload. Their result is
  an `Effects` record: the file id asked of `FileByID`, the file name handed to
  `Upload`, the reply sent, and the metric label counted.
- `Upload` is a method. Its inputs are the file read (`source`), an `Externals`
  record and the HTTP exchange (`Exchange`). `Externals` holds SHA-1 as a function to
  20-byte digests, `json.Marshal`, the boundary's random bytes, the already formatted
  RFC 3339 timestamp, and the URL check of `http.NewRequest`.

An unset `ALLOWED_CHAT_IDS` does not allow every chat. `os.Getenv` gives `""`, the
list stays nil, and `isAllowedChat` rejects every chat (bot/handler.go:30-33,
208-215). So an unset variable, an empty one, and one without any digit allow nothing
(`Bot.NoConfiguredIdsIgnoresAll`), and neither does any text none of whose pieces is a
valid id (`Bot.NoValidIdIgnoresAll`).

Notable behaviour of the code:

- All spaces are removed before splitting, even those inside a number: the
  configuration is the one of the text with every space removed (`Bot.SpacesIgnored`).
- A photo is named after the message's `photo.FileID`. Videos and documents are named
  after `file.FileID`, the id of the file `FileByID` returned.
- `Header.Set` stores keys in canonical form. The checksum header is therefore stored
  as `X-Immich-Checksum` and the key header as `X-Api-Key`.

## Model

| member | source | states |
|---|---|---|
| `Bot.ParseAllowedChats` | bot/handler.go:30-40 | the loop's list is `AllowedChats(raw)`: the ids of the comma-separated pieces that parse, after spaces are removed; all are int64 |
| `Bot.ParsedIdsMembership` | bot/handler.go:35-39 | an id is configured exactly when some piece parses to it |
| `Bot.ParsedIdsAppend` | bot/handler.go:35-39 | the kept ids follow the order of the pieces; nothing is reordered or merged |
| `Bot.ConfigRoundTrip` | bot/handler.go:33-39 | any list of int64 ids written as comma-separated decimals is configured exactly, in order and with duplicates |
| `Bot.SpacesIgnored` | bot/handler.go:34 | the configuration is the same with every space removed |
| `Bot.NoValidIdIgnoresAll` | bot/handler.go:30-39 | a text none of whose pieces is a valid int64 decimal (`1a,x2`) configures no id, and then every event is ignored |
| `Bot.SuccessfulUploadCounted` | bot/handler.go:75-85 | an allowed message whose file was fetched and uploaded has its own file looked up, is counted under its branch's label (`photo`, `video`, `document_image`, `document_video`) and gets no reply |
| `Bot.NoConfiguredIdsIgnoresAll` | bot/handler.go:30-33 | an unset, empty or digit-free variable configures no id, and then every event is ignored |
| `Bot.IsAllowedChat` | bot/handler.go:208-215 | true exactly when the chat id occurs in the list (false for an empty list) |
| `Bot.ImageExtension` | bot/handler.go:146-153 | `.png`, `.webp`, `.heic` (heic or heif) or `.jpg`, each exactly when its prefix is the first to match in that order |
| `Bot.VideoExtension` | bot/handler.go:181-186 | `.mov`, `.avi` or `.mp4`, each exactly when its prefix is the first to match |
| `Bot.DocumentName` | bot/handler.go:144-155 | a non-empty declared name is kept verbatim; otherwise prefix, file id, then the extension |
| `Bot.HandlePhoto` | bot/handler.go:55-86 | a chat off the list is ignored; a nil photo gets only `Нет фото.`; only the message's own photo id is looked up; an upload is always named `photo_<message file id>.jpg` and needs a fetched file; a metric is `photo` and needs a successful upload |
| `Bot.HandleVideo` | bot/handler.go:89-119 | a chat off the list is ignored; a nil video gets only `Нет видео.`; only the message's own video id is looked up; an upload is always named `video_<fetched file id>.mp4`; a metric is `video` and needs a successful upload |
| `Bot.HandleDocument` | bot/handler.go:122-202 | a chat off the list is ignored; a nil document gets only `Нет документа.`; an allowed document has no effect exactly when its MIME type starts with neither `image/` nor `video/`; an upload is named as an image document when the type starts with `image/`, otherwise as a video document; the metric label follows the same test |
| `Bot.HandleEvent` | bot/handler.go:55-202 | any effect at all needs an allowed chat; only the message's own attachment is looked up; nothing is uploaded without a lookup and a fetched file |
| `Bot.Transfer` | bot/handler.go:134-164 | the file is always looked up; a failed `FileByID` or `File` gets exactly the branch's fixed reply and nothing else; a name is uploaded exactly when the fetch worked; a failed upload is answered with the prefixed error text and counts nothing; a metric is counted exactly when the upload succeeded, with the branch's label and no reply |
| `Bot.NotAllowedIgnored` | bot/handler.go:56-59 | a chat off the list causes no lookup, no upload, no reply and no metric in every handler |
| `Bot.MetricOnlyAfterUpload` | bot/handler.go:77-85 | a metric implies a successful upload, an uploaded name and no reply |
| `Bot.MissingMediaReplies` | bot/handler.go:60-63 | an allowed message with a nil photo, video or document gets only the kind's "none" reply (`Нет фото.`, `Нет видео.`, `Нет документа.`; the video and document handlers do the same at lines 95-97 and 128-130) |
| `Bot.FailedFetchReplies` | bot/handler.go:65-73 | when `FileByID` or `File` fails, the branch's fixed message is sent and nothing is uploaded or counted (the same holds for the video branch at lines 99-107 and the document branches at lines 134-142 and 169-177) |
| `Bot.FailedUploadReplies` | bot/handler.go:111-114 | a failed upload is answered with the prefixed error text and counts nothing |
| `Bot.PhotoNamed` | bot/handler.go:75 | a photo is uploaded as `photo_<message file id>.jpg`, whatever its MIME type |
| `Bot.VideoNamed` | bot/handler.go:109 | a video is uploaded as `video_<fetched file id>.mp4`, whatever its MIME type |
| `Bot.ImageDocumentNamed` | bot/handler.go:144-164 | an image document's upload name and its `document_image` label |
| `Bot.VideoDocumentNamed` | bot/handler.go:179-197 | a video document's upload name and its `document_video` label |
| `Bot.OtherDocumentIgnored` | bot/handler.go:200-201 | a document that is neither `image/` nor `video/` has no effect at all |
| `Bot.MetricLabels` | bot/handler.go:160-196 | the label counted is `photo`, `video`, `document_image` or `document_video` according to the branch |
| `Bot.PhotoScenario` | bot/handler.go:55-86 | from an allowed chat, photo `abc123` is looked up, uploaded as `photo_abc123.jpg` and counted as `photo` |
| `Bot.FortyTwoConfigured` | bot/handler.go:33-39 | the text `42` configures exactly chat 42 |
| `Bot.SignedPaddedConfigured` | bot/handler.go:33-39 | a `+` sign and a leading zero are accepted: `+0` followed by the decimal text of a non-negative int64 (`+042`) configures exactly that chat |
| `Strconv.ParseInt64` | bot/handler.go:36 | an accepted text is an optional sign and digits, and its value is an int64 |
| `Strconv.LeadingZeroAndPlusIgnored` | bot/handler.go:36 | `ParseInt` reads a digit string the same with a leading `+`, and with a leading zero after no sign, after `+` or after `-` (`-042` reads as `-42`) |
| `Strconv.ParseFormat` | bot/handler.go:36 | every int64 is read back from its decimal text |
| `Strconv.ParseFormatOutOfRange` | bot/handler.go:36 | a decimal outside the int64 range is refused |
| `Strconv.ParseNeedsDigit` | bot/handler.go:36 | a text without a digit (empty, a sign alone) is refused |
| `Strconv.FormatIntInjective` | uploader/immich/uploader.go:106 | distinct status codes print differently |
| `Strings.PrefixAppend` | bot/handler.go:133 | `strings.HasPrefix`: a string starts with what it was built from, a prefix of a prefix is a prefix, and a string with a prefix is that prefix followed by the rest |
| `Strings.RemoveChar` | bot/handler.go:34 | no space is left, and every other character keeps its count |
| `Strings.RemoveCharAppend` | bot/handler.go:34 | removal distributes over concatenation, so the kept characters stay in order |
| `Strings.Split` | bot/handler.go:34 | at least one piece, none containing the separator |
| `Strings.JoinSplit` | bot/handler.go:34 | joining the pieces gives back the string |
| `Strings.SplitJoin` | bot/handler.go:34 | splitting a join of separator-free pieces gives back the pieces |
| `Hex.Encode` | uploader/immich/uploader.go:35 | two lower-case hex characters per byte |
| `Hex.DecodeEncode` | uploader/immich/uploader.go:35 | decoding undoes the encoding |
| `Hex.EncodeInjective` | uploader/immich/uploader.go:35 | different digests give different checksums |
| `ImmichUploader.Checksum` | uploader/immich/uploader.go:33-35 | 40 lower-case hex characters that decode to the SHA-1 of the whole content |
| `ImmichUploader.ChecksumShared` | uploader/immich/uploader.go:51-85 | the `deviceAssetId` field and the `X-Immich-Checksum` header carry the same checksum |
| `ImmichUploader.FormFieldOrder` | uploader/immich/uploader.go:41-72 | the field order: `assetData` (filename and full content), `deviceAssetId`, `deviceId`, both timestamps, then `tags` |
| `ImmichUploader.TimestampsIdentical` | uploader/immich/uploader.go:58-64 | `fileCreatedAt` and `fileModifiedAt` hold the same single timestamp |
| `ImmichUploader.TagsFieldIffTags` | uploader/immich/uploader.go:66-72 | a `tags` field exists exactly when there are tags, holding their JSON text |
| `ImmichUploader.UploadHeaderKeys` | uploader/immich/uploader.go:83-86 | exactly four header keys: `Content-Type` (the writer's multipart type), `Accept: application/json`, the checksum, `X-Api-Key` = token |
| `ImmichUploader.Classify` | uploader/immich/uploader.go:105-119 | non-2xx gives the status error with code and body; within 2xx, a decode error gives the parse error, otherwise the decoded id |
| `ImmichUploader.RejectedBeforeParsing` | uploader/immich/uploader.go:105-107 | for a non-2xx status the result does not depend on what the body decodes to |
| `ImmichUploader.UploadSucceedsOnlyOn2xx` | uploader/immich/uploader.go:25-120 | an id is returned exactly when the file was read, the URL parsed, the reply came with 2xx and decoded; it is the decoded id |
| `ImmichUploader.ErrorPrefixesIncomparable` | uploader/immich/uploader.go:29-116 | no fixed error text starts with another one unless the two are equal, and equal fixed texts belong to errors of the same kind |
| `ImmichUploader.ErrorTextInjective` | uploader/immich/uploader.go:29-116 | the six reachable `fmt.Errorf` messages (lines 29, 81, 91, 102, 106 and 116) are pairwise distinct, and each carries its cause (or status and body) recoverably, so different errors always give the user different replies |
| `ImmichUploader.StatusTextDeterminesStatusAndBody` | uploader/immich/uploader.go:106 | the error text of a rejected status determines status and body |
| `ImmichUploader.WriteForm` | uploader/immich/uploader.go:37-76 | the writer, closed, holds exactly the parts of `FormFields` |
| `ImmichUploader.NewUploadRequest` | uploader/immich/uploader.go:79-86 | a fresh POST to `<server>/api/assets` whose headers are `UploadHeaders` |
| `ImmichUploader.Upload` | uploader/immich/uploader.go:25-120 | the result is `UploadResult`; a request is built exactly when the file was read and the URL parsed, with the form and headers above |
| `Multipart.FormDataContentType` | uploader/immich/uploader.go:83 | `multipart/form-data; boundary=` followed by the boundary as it is, or wrapped in double quotes exactly when it holds a tspecial character or a space |
| `Multipart.HexBoundaryUnquoted` | uploader/immich/uploader.go:39 | the writer's hex boundary is never quoted |
| `Multipart.Writer.constructor` | uploader/immich/uploader.go:39 | an empty, open writer with a hex boundary |
| `Multipart.Writer.CreateFormFile` | uploader/immich/uploader.go:42-48 | appends the file part, nothing else changes |
| `Multipart.Writer.WriteField` | uploader/immich/uploader.go:51-72 | appends one text field, nothing else changes |
| `Multipart.Writer.Close` | uploader/immich/uploader.go:74-76 | closes the writer; the parts stay as they are |
| `Http.CanonicalHeaderKey` | uploader/immich/uploader.go:83-86 | a token key gets upper case first and after `-`, lower case elsewhere; any other key is unchanged |
| `Http.CanonicalIdempotent` | uploader/immich/uploader.go:83-86 | a canonical key is already canonical |
| `Http.CanonicalIgnoresCase` | uploader/immich/uploader.go:83-86 | token keys that differ only in case name the same header |
| `Http.Request.constructor` | uploader/immich/uploader.go:79 | a request with the given method, URL and body and no headers |
| `Http.Request.Set` | uploader/immich/uploader.go:83-86 | the value is stored under the canonical key, replacing any earlier one |

## Left out

- Reading environment variables and the fatal exits for missing tokens (bot/handler.go:18-29) are process I/O. `ALLOWED_CHAT_IDS` enters as the text `raw`, with `""` for unset.
- Bot creation, long polling, `bot.Start`, `c.Send` and the `log.Printf` calls are network or log I/O. A reply is an `Effects.reply` value and the log line is not modelled.
- `bot.FileByID` and `bot.File` are Telegram network calls. Their outcome is the `Fetch` input, and the bytes read go to the uploader as `source`.
- The metrics registry, its counters and gauge, and the metrics HTTP server (metrics/metrics.go) are library wrappers. A successful branch records its label in `Effects.metric`, and that stands for both `IncrementFileProcessed` and `UpdateLastProcessedTime`.
- cmd/main.go (startup and a goroutine) and uploader/uploader.go (an interface) hold no logic.
- The SHA-1 compression function, `json.Marshal`, `json.Unmarshal`, `time.Now` with RFC 3339 formatting, `url.Parse` inside `http.NewRequest`, and `http.Client.Do` are foreign code. They are parameters.
- `ImmichUploader.TimestampsIdentical`: the timestamp text enters already formatted, so the model shows that one value feeds both fields, not how it is formatted.
- The multipart wire format (part headers, boundary lines, escaping of the file name) is not modelled. The form is its ordered list of parts.
- The error returns of `CreateFormFile`, the file copy, `WriteField` and `Close` (uploader/immich/uploader.go:43-76) are left out. The writer writes into an in-memory `bytes.Buffer`, whose writes never fail, so these branches cannot be taken. The ignored error of `json.Marshal` on a string list cannot occur either.
- The deferred `Body.Close` has no effect on the result.
- Go strings are byte strings and Dafny strings are character sequences. Only ASCII matters for the parsing and for the header keys, and the two agree there.
