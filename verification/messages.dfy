/** The message shape the clients hold and the relay forwards: the
    `Message` interface of app/chat/ChatClient.tsx (repeated in
    app/chat/page.tsx). Every optional property is an `Option`, so the
    `undefined` cases the source tests for stay visible. */
module Messages {
  import opened Wrappers
  import opened Text

  /** The two attachment kinds the schema enum admits. */
  datatype FileKind = Image | Video

  /** The enum spelling of a kind. */
  function KindName(k: FileKind): (r: string)
    ensures r == "image" || r == "video"
  {
    match k
    case Image => "image"
    case Video => "video"
  }

  /** The kind named by an enum string, if it is one. */
  function ParseKind(s: string): (r: Option<FileKind>)
    ensures r.Some? ==> KindName(r.value) == s
    ensures r.None? ==> s != "image" && s != "video"
  {
    if s == "image" then Some(Image)
    else if s == "video" then Some(Video)
    else None
  }

  /** `ParseKind` inverts `KindName`. */
  lemma KindNameRoundTrip(k: FileKind)
    ensures ParseKind(KindName(k)) == Some(k)
  {
  }

  /** A chat message as a client holds it or the relay forwards it. `self`
      marks the sender's own optimistic copy (an absent `self` is `false`);
      `readBy` is a list, duplicates and all. */
  datatype Message = Message(
    id: Option<string>,
    sender: string,
    text: string,
    self: bool,
    timestamp: Option<int>,
    fileUrl: Option<string>,
    fileType: Option<string>,
    fileName: Option<string>,
    readBy: Option<seq<string>>)

  /** `m._id` is truthy: present and non-empty. */
  predicate HasId(m: Message) {
    Truthy(m.id)
  }

  /** `t || fallback` for a millisecond timestamp: an absent or zero
      timestamp is falsy and gives way to the fallback. */
  function TimeOr(t: Option<int>, fallback: int): (r: int)
    ensures t.Some? && t.value != 0 ==> r == t.value
    ensures t.None? || t.value == 0 ==> r == fallback
  {
    if t.Some? && t.value != 0 then t.value else fallback
  }

  /** `m.readBy || []`. */
  function Readers(m: Message): seq<string> {
    m.readBy.GetOr([])
  }
}
