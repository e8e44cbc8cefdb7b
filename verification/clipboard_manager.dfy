/**
 * Echo suppression and de-duplication in Windows/src/ClipboardManager.cpp.
 *
 * A `ClipboardManager` keeps the `ignoreNextChange` flag and the
 * `lastContentHash` of the last content it reported. A clipboard-update event
 * either consumes the flag or reads the clipboard and reports content whose
 * hash differs from the last one; a message from a peer is written to the
 * clipboard and arms the flag so the resulting event is not sent back.
 *
 * The clipboard is not modelled: what a read returns (an image that could be
 * read and re-encoded, and the text) and whether a write succeeded are
 * parameters, std::hash is the function value `hash`, and the callback
 * invocation is the returned notification.
 */
module ClipboardManager {
  import opened Common
  import opened WireFormat

  /** std::hash<std::string> yields a size_t. */
  type Hash = u64

  /** One call of the registered update callback. */
  datatype Notification = Notification(data: seq<byte>, contentType: ContentType)

  /**
   * ClipboardManager::getClipboardContent: an image that was read
   * successfully comes first and is tagged JPEG, then non-empty text tagged
   * plain text, and otherwise empty content tagged plain text.
   */
  function GetClipboardContent(imageRead: Option<seq<byte>>, text: seq<byte>): (r: (seq<byte>, ContentType))
    ensures r.1 == JpegImage <==> imageRead.Some?
    ensures r.1 == PlainText <==> imageRead.None?
    ensures imageRead.Some? ==> r.0 == imageRead.value
    ensures imageRead.None? ==> r.0 == text
    ensures r.0 == [] <==> (imageRead.Some? && imageRead.value == []) || (imageRead.None? && text == [])
  {
    if imageRead.Some? then (imageRead.value, JpegImage)
    else if text != [] then (text, PlainText)
    else ([], PlainText)
  }

  class ClipboardManager {
    const hash: seq<byte> -> Hash
    var ignoreNextChange: bool
    var lastContentHash: Hash
    var callbackRegistered: bool

    /**
     * The constructor clears the flag. The initial hash comes from a
     * declaration that is not part of this model, so it is a parameter.
     */
    constructor (hash: seq<byte> -> Hash, initialHash: Hash)
      ensures this.hash == hash && !ignoreNextChange && lastContentHash == initialHash && !callbackRegistered
    {
      this.hash := hash;
      ignoreNextChange := false;
      lastContentHash := initialHash;
      callbackRegistered := false;
    }

    /** ClipboardManager::setClipboardUpdateCallback. */
    method SetClipboardUpdateCallback()
      modifies this`callbackRegistered
      ensures callbackRegistered
    {
      callbackRegistered := true;
    }

    /** ClipboardManager::shouldIgnoreNextChange. */
    function ShouldIgnoreNextChange(): bool
      reads this
    {
      ignoreNextChange
    }

    /** ClipboardManager::resetIgnoreFlag. */
    method ResetIgnoreFlag()
      modifies this`ignoreNextChange
      ensures !ignoreNextChange
    {
      ignoreNextChange := false;
    }

    /**
     * The WM_CLIPBOARDUPDATE branch of ClipboardWndProc. With the flag set
     * the event is consumed and nothing else happens. Otherwise the content
     * is reported, and its hash remembered, exactly when it is non-empty and
     * its hash differs from the remembered one.
     */
    method OnClipboardUpdate(imageRead: Option<seq<byte>>, text: seq<byte>) returns (notified: Option<Notification>)
      modifies this`ignoreNextChange, this`lastContentHash
      ensures old(ignoreNextChange) ==>
        !ignoreNextChange && lastContentHash == old(lastContentHash) && notified == None
      ensures !old(ignoreNextChange) ==>
        var content := GetClipboardContent(imageRead, text);
        var changed := content.0 != [] && hash(content.0) != old(lastContentHash);
        && !ignoreNextChange
        && lastContentHash == (if changed then hash(content.0) else old(lastContentHash))
        && notified == (if changed && callbackRegistered then Some(Notification(content.0, content.1)) else None)
      ensures notified.Some? ==> notified.value.data != [] && lastContentHash == hash(notified.value.data)
    {
      if ShouldIgnoreNextChange() {
        ResetIgnoreFlag();
        return None;
      }
      var content := GetClipboardContent(imageRead, text);
      var data := content.0;
      notified := None;
      if data != [] {
        var contentHash := hash(data);
        if contentHash != lastContentHash {
          lastContentHash := contentHash;
          if callbackRegistered {
            notified := Some(Notification(data, content.1));
          }
        }
      }
    }

    /**
     * ClipboardManager::processRemoteMessage, with `writeSucceeded` the
     * outcome of writing to the clipboard. Plain text arms the flag when the
     * write succeeds and leaves the hash alone; JPEG and PNG images arm the
     * flag and remember the hash of the received bytes when the write
     * succeeds; the other types change nothing.
     */
    method ProcessRemoteMessage(data: seq<byte>, contentType: ContentType, writeSucceeded: bool)
      modifies this`ignoreNextChange, this`lastContentHash
      ensures contentType == PlainText ==>
        ignoreNextChange == (old(ignoreNextChange) || writeSucceeded) && lastContentHash == old(lastContentHash)
      ensures contentType == JpegImage || contentType == PngImage ==>
        && ignoreNextChange == (old(ignoreNextChange) || writeSucceeded)
        && lastContentHash == (if writeSucceeded then hash(data) else old(lastContentHash))
      ensures contentType !in {PlainText, JpegImage, PngImage} ==>
        ignoreNextChange == old(ignoreNextChange) && lastContentHash == old(lastContentHash)
    {
      match contentType {
        case PlainText =>
          if writeSucceeded {
            ignoreNextChange := true;
          }
        case JpegImage =>
          if writeSucceeded {
            ignoreNextChange := true;
            lastContentHash := hash(data);
          }
        case PngImage =>
          if writeSucceeded {
            ignoreNextChange := true;
            lastContentHash := hash(data);
          }
        case _ =>
      }
    }
  }

  /**
   * Echo suppression: after a peer's text or image has been written to the
   * clipboard, the update event that write causes is not reported, whatever
   * the clipboard then holds, and the flag is cleared again.
   */
  method RemoteWriteIsNotEchoed(m: ClipboardManager, data: seq<byte>, contentType: ContentType,
                                imageRead: Option<seq<byte>>, text: seq<byte>) returns (notified: Option<Notification>)
    requires contentType in {PlainText, JpegImage, PngImage}
    modifies m
    ensures notified == None && !m.ignoreNextChange
  {
    m.ProcessRemoteMessage(data, contentType, true);
    notified := m.OnClipboardUpdate(imageRead, text);
  }

  /** De-duplication: the same content seen in two successive events is reported at most once. */
  method SameContentReportedOnce(m: ClipboardManager, imageRead: Option<seq<byte>>, text: seq<byte>)
    returns (first: Option<Notification>, second: Option<Notification>)
    modifies m
    ensures first == None || second == None
  {
    first := m.OnClipboardUpdate(imageRead, text);
    second := m.OnClipboardUpdate(imageRead, text);
  }

  /**
   * Remote text does not update the remembered hash: once the echo has been
   * consumed, a further event showing the same text is reported when its hash
   * differs from the one remembered before.
   */
  method RemoteTextReportedOnSecondEvent(m: ClipboardManager, data: seq<byte>) returns (echo: Option<Notification>, later: Option<Notification>)
    requires !m.ignoreNextChange && m.callbackRegistered
    requires data != [] && m.hash(data) != m.lastContentHash
    modifies m
    ensures echo == None
    ensures later == Some(Notification(data, PlainText))
  {
    m.ProcessRemoteMessage(data, PlainText, true);
    echo := m.OnClipboardUpdate(None, data);
    later := m.OnClipboardUpdate(None, data);
  }
}
