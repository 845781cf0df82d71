/** Attachments: the client-side pick check (`handleFileSelect`, in a
    size-checking variant in app/chat/ChatClient.tsx and a type-only
    variant in app/chat/page.tsx) and the upload endpoint's validation,
    stored file name and URL (app/api/upload/route.ts). The file contents,
    the directory creation and the write are not modelled: a failing write
    is a parameter. */
module Media {
  import opened Wrappers
  import opened Text
  import opened Messages

  /** The file a browser hands over: its name, declared MIME type and size
      in bytes. */
  datatype PickedFile = PickedFile(name: string, mime: string, size: nat)

  const MaxImageBytes: nat := 10 * 1024 * 1024
  const MaxVideoBytes: nat := 50 * 1024 * 1024

  predicate IsImageMime(mime: string) { "image/" <= mime }
  predicate IsVideoMime(mime: string) { "video/" <= mime }

  /** No MIME type is both an image and a video type. */
  lemma MimeFamiliesDisjoint(mime: string)
    ensures !(IsImageMime(mime) && IsVideoMime(mime))
  {
    if IsImageMime(mime) {
      assert mime[0] == 'i';
    }
  }

  /** What picking a file leads to: nothing (no file), one of the alerts, or
      a preview of the given kind. */
  datatype Selection = NothingPicked | NotMedia | ImageTooLarge | VideoTooLarge | Previewed(kind: FileKind)

  /** `handleFileSelect` of app/chat/ChatClient.tsx:299-327: images and
      videos only, images up to 10 MiB, videos up to 50 MiB. */
  function SelectFileClient(f: Option<PickedFile>): (r: Selection)
    ensures r.NothingPicked? <==> f.None?
    ensures r.NotMedia? <==> f.Some? && !IsImageMime(f.value.mime) && !IsVideoMime(f.value.mime)
    ensures r.ImageTooLarge? <==> f.Some? && IsImageMime(f.value.mime) && f.value.size > MaxImageBytes
    ensures r.VideoTooLarge? <==> f.Some? && IsVideoMime(f.value.mime) && f.value.size > MaxVideoBytes
    ensures r.Previewed? ==> (r.kind == Image <==> IsImageMime(f.value.mime))
  {
    if f.None? then NothingPicked
    else
      var file := f.value;
      MimeFamiliesDisjoint(file.mime);
      var isImage := IsImageMime(file.mime);
      var isVideo := IsVideoMime(file.mime);
      if !isImage && !isVideo then NotMedia
      else if isImage && file.size > MaxImageBytes then ImageTooLarge
      else if isVideo && file.size > MaxVideoBytes then VideoTooLarge
      else Previewed(if isImage then Image else Video)
  }

  /** `handleFileSelect` of app/chat/page.tsx:239-253: the type test only. */
  function SelectFilePage(f: Option<PickedFile>): (r: Selection)
    ensures r.NothingPicked? <==> f.None?
    ensures r.NotMedia? <==> f.Some? && !IsImageMime(f.value.mime) && !IsVideoMime(f.value.mime)
    ensures r.Previewed? <==> f.Some? && (IsImageMime(f.value.mime) || IsVideoMime(f.value.mime))
    ensures r.Previewed? ==> (r.kind == Image <==> IsImageMime(f.value.mime))
  {
    if f.None? then NothingPicked
    else
      var isImage := IsImageMime(f.value.mime);
      var isVideo := IsVideoMime(f.value.mime);
      if !isImage && !isVideo then NotMedia
      else Previewed(if isImage then Image else Video)
  }

  /** The page variant previews everything the client variant previews,
      with the same kind, and also oversize files. */
  lemma PageSelectionWeaker(f: Option<PickedFile>)
    ensures SelectFileClient(f).Previewed? ==> SelectFilePage(f) == SelectFileClient(f)
    ensures SelectFilePage(f).Previewed? && f.value.size <= MaxImageBytes ==>
      SelectFileClient(f) == SelectFilePage(f)
  {
  }

  // ---------------------------------------------------------------------
  // POST /api/upload

  const ImageTypes: seq<string> := ["image/jpeg", "image/jpg", "image/png", "image/gif", "image/webp"]
  const VideoTypes: seq<string> := ["video/mp4", "video/webm", "video/ogg", "video/quicktime"]

  /** The JSON the endpoint answers with: the public URL, the original name,
      the declared kind and the size; or an HTTP status and message. */
  datatype UploadResponse =
    | Uploaded(fileUrl: string, fileName: string, fileType: Option<string>, fileSize: nat)
    | UploadRejected(status: nat, error: string)

  /** `${timestamp}-${randomString}.${extension}`, the extension being the
      text after the original name's last dot. */
  function StoredName(now: int, random: string, originalName: string): string {
    IntToString(now) + "-" + random + "." + AfterLast(originalName, '.')
  }

  /** The stored name keeps the original's extension, and the upload time
      and random tag lead it. */
  lemma StoredNameKeepsExtension(now: int, random: string, originalName: string)
    ensures AfterLast(StoredName(now, random, originalName), '.') == AfterLast(originalName, '.')
    ensures IntToString(now) + "-" + random <= StoredName(now, random, originalName)
  {
    var head := IntToString(now) + "-" + random;
    var ext := AfterLast(originalName, '.');
    var stored := StoredName(now, random, originalName);
    assert stored == head + (['.'] + ext);
    assert stored[..|head|] == head;
    assert stored == head + ['.'] + ext;
    AfterLastOfJoin(head, '.', ext);
  }

  /** The public URL of a stored file. */
  function UploadUrl(storedName: string): (url: string)
    ensures "/uploads/" <= url && url[9..] == storedName
  {
    "/uploads/" + storedName
  }

  /** `error.message || "Upload failed"`. */
  function FailureText(message: string): (t: string)
    ensures t != ""
    ensures message != "" ==> t == message
  {
    if message != "" then message else "Upload failed"
  }

  /** The declared kind's MIME allow-list admits the file; a kind other than
      "image" or "video" has no list. */
  predicate TypeAllowed(f: PickedFile, declared: Option<string>) {
    && (declared == Some("image") ==> f.mime in ImageTypes)
    && (declared == Some("video") ==> f.mime in VideoTypes)
  }

  /** The declared kind's size ceiling admits the file. */
  predicate SizeAllowed(f: PickedFile, declared: Option<string>) {
    && (declared == Some("image") ==> f.size <= MaxImageBytes)
    && (declared == Some("video") ==> f.size <= MaxVideoBytes)
  }

  /** `POST /api/upload` (app/api/upload/route.ts:6-90). `formError` is the
      message of a form that cannot be read (`req.formData()` throwing);
      then comes the missing file, the declared kind's type allow-list, its
      size ceiling, and last the write. `now` and `random` stand for
      `Date.now()` and the random tag; `writeError` is the message of a
      failing directory creation or write. */
  function Upload(formError: Option<string>, file: Option<PickedFile>, declared: Option<string>,
                  now: int, random: string, writeError: Option<string>): (r: UploadResponse)
    ensures formError.Some? ==> r == UploadRejected(500, FailureText(formError.value))
    ensures formError.None? && file.None? ==> r == UploadRejected(400, "No file provided")
    ensures formError.None? && file.Some? && declared == Some("image") && file.value.mime !in ImageTypes ==>
      r == UploadRejected(400, "Invalid image type")
    ensures formError.None? && file.Some? && declared == Some("video") && file.value.mime !in VideoTypes ==>
      r == UploadRejected(400, "Invalid video type")
    ensures formError.None? && file.Some? && TypeAllowed(file.value, declared)
            && declared == Some("image") && file.value.size > MaxImageBytes ==>
      r == UploadRejected(400, "Image too large (max 10MB)")
    ensures formError.None? && file.Some? && TypeAllowed(file.value, declared)
            && declared == Some("video") && file.value.size > MaxVideoBytes ==>
      r == UploadRejected(400, "Video too large (max 50MB)")
    ensures formError.None? && file.Some? && TypeAllowed(file.value, declared)
            && SizeAllowed(file.value, declared) && writeError.Some? ==>
      r == UploadRejected(500, FailureText(writeError.value))
    ensures r.Uploaded? <==>
      && formError.None? && file.Some? && writeError.None?
      && TypeAllowed(file.value, declared) && SizeAllowed(file.value, declared)
    ensures r.Uploaded? ==>
      && r.fileUrl == UploadUrl(StoredName(now, random, file.value.name))
      && r.fileName == file.value.name && r.fileType == declared && r.fileSize == file.value.size
  {
    if formError.Some? then UploadRejected(500, FailureText(formError.value))
    else if file.None? then UploadRejected(400, "No file provided")
    else
      var f := file.value;
      if declared == Some("image") && f.mime !in ImageTypes then UploadRejected(400, "Invalid image type")
      else if declared == Some("video") && f.mime !in VideoTypes then UploadRejected(400, "Invalid video type")
      else if declared == Some("image") && f.size > MaxImageBytes then UploadRejected(400, "Image too large (max 10MB)")
      else if declared == Some("video") && f.size > MaxVideoBytes then UploadRejected(400, "Video too large (max 50MB)")
      else if writeError.Some? then UploadRejected(500, FailureText(writeError.value))
      else Uploaded(UploadUrl(StoredName(now, random, f.name)), f.name, declared, f.size)
  }

  /** The served URL ends in the original name's extension: a browser sees
      the same file type the sender picked. */
  lemma UploadUrlKeepsExtension(now: int, random: string, originalName: string)
    ensures AfterLast(UploadUrl(StoredName(now, random, originalName)), '.') == AfterLast(originalName, '.')
  {
    var head := IntToString(now) + "-" + random;
    var ext := AfterLast(originalName, '.');
    assert StoredName(now, random, originalName) == head + ['.'] + ext;
    UrlOfJoin(head, ext);
  }

  /** The URL of a dotted name ends in the piece after its last dot. */
  lemma UrlOfJoin(head: string, ext: string)
    requires '.' !in ext
    ensures AfterLast(UploadUrl(head + ['.'] + ext), '.') == ext
  {
    assert UploadUrl(head + ['.'] + ext) == ("/uploads/" + head) + ['.'] + ext;
    AfterLastOfJoin("/uploads/" + head, '.', ext);
  }

  /** The type check comes first, for either kind: a file of the wrong type
      that is also too large is reported as a type error. */
  lemma TypeErrorBeforeSizeError(f: PickedFile, now: int, random: string, writeError: Option<string>)
    ensures f.mime !in ImageTypes && f.size > MaxImageBytes ==>
      Upload(None, Some(f), Some("image"), now, random, writeError) == UploadRejected(400, "Invalid image type")
    ensures f.mime !in VideoTypes && f.size > MaxVideoBytes ==>
      Upload(None, Some(f), Some("video"), now, random, writeError) == UploadRejected(400, "Invalid video type")
  {
  }

  /** The image ceiling is inclusive: exactly 10 MiB is accepted, one byte
      more is refused. */
  lemma ImageCeilingInclusive(name: string, now: int, random: string)
    ensures Upload(None, Some(PickedFile(name, "image/png", MaxImageBytes)), Some("image"), now, random, None).Uploaded?
    ensures Upload(None, Some(PickedFile(name, "image/png", MaxImageBytes + 1)), Some("image"), now, random, None)
         == UploadRejected(400, "Image too large (max 10MB)")
  {
  }

  /** A declared kind other than "image" or "video" (or none) is accepted
      whatever the type and size. */
  lemma UnknownKindUnchecked(f: PickedFile, declared: Option<string>, now: int, random: string)
    requires declared != Some("image") && declared != Some("video")
    ensures Upload(None, Some(f), declared, now, random, None).Uploaded?
  {
  }

  /** The pick check and the endpoint disagree: the client previews any
      `image/` type, the endpoint refuses those off its allow-list. */
  lemma PickedButRefused(now: int, random: string)
    ensures
      var svg := PickedFile("logo.svg", "image/svg+xml", 100);
      && SelectFileClient(Some(svg)) == Previewed(Image)
      && Upload(None, Some(svg), Some("image"), now, random, None) == UploadRejected(400, "Invalid image type")
  {
    var svg := PickedFile("logo.svg", "image/svg+xml", 100);
    assert "image/" <= svg.mime;
    assert svg.mime !in ImageTypes by {
      assert svg.mime[6] == 's';
    }
  }
}
