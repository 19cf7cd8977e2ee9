/** The page component: four state slots (the chosen file, the handle of
    the original video, the handle of the processed video, the processing
    flag) and the slider's level, driven by three event handlers and one
    effect whose cleanup revokes object URLs.

    The browser's object-URL registry is part of the state: `objectUrls`
    maps every handle of this page that is still registered to its Blob,
    and `nextHandle` is where fresh handles come from, so that
    `URL.createObjectURL` is fresh-handle creation and
    `URL.revokeObjectURL` is removal (a no-op on a handle already revoked).

    React re-renders after every state change and then commits the effect:
    `CommitEffect` is that commit, run by the host after each handler.
    `cleanupOriginal` and `cleanupProcessed` are the slot values the cleanup
    closure of the last committed effect captured. */
module Home {
  import opened Wrappers
  import opened DataUri
  import DownloadName
  import PixelateVideoFlow

  /** What `URL.createObjectURL` returns: a handle never issued before. */
  type Handle = nat

  /** A file chosen in the file input. */
  datatype File = File(name: string, mimeType: string, bytes: seq<byte>)

  /** The notices the handlers emit (as toasts). */
  datatype Notice = InvalidFileType | NoVideoUploaded | ProcessingComplete | ProcessingFailed

  /** The link `handleDownload` clicks: its target and its download name. */
  datatype Download = Download(href: Handle, fileName: string)

  /** What the processing callback holds across its awaits: the data URI
      read from the original handle (None where the read threw), and the
      level and processed handle its closure captured. */
  datatype Pending = Pending(videoDataUri: Option<string>, level: int, prevProcessed: Option<Handle>)

  /** Which stage the session is in: nothing uploaded, a video loaded,
      processing under way, or a processed video ready. */
  datatype Phase = Empty | Loaded | Processing | Ready

  /** A file is its own Blob. */
  function FileBlob(f: File): Blob {
    Blob(f.bytes, f.mimeType)
  }

  /** The MIME gate of `handleFileChange`: `type.startsWith('video/')`. */
  predicate IsVideoType(mimeType: string) {
    "video/" <= mimeType
  }

  /** The non-null handles among two slots. */
  function Held(a: Option<Handle>, b: Option<Handle>): (s: set<Handle>)
    ensures forall h :: h in s <==> a == Some(h) || b == Some(h)
  {
    (if a.Some? then {a.value} else {}) + (if b.Some? then {b.value} else {})
  }

  /** A captured handle, unless one of the two slots still holds it. */
  function Unheld(captured: Option<Handle>, a: Option<Handle>, b: Option<Handle>): (r: Option<Handle>)
    ensures Held(r, None) == Held(captured, None) - Held(a, b)
  {
    if captured != a && captured != b then captured else None
  }

  /** Revoking the two captured handles that no slot holds removes exactly
      the captured handles outside the slots. */
  lemma {:induction false} RevokeUnheld(m: map<Handle, Blob>, co: Option<Handle>, cp: Option<Handle>,
                                        a: Option<Handle>, b: Option<Handle>)
    ensures (m - Held(Unheld(co, a, b), None)) - Held(Unheld(cp, a, b), None) == m - (Held(co, cp) - Held(a, b))
  {
    var d1, d2 := Held(Unheld(co, a, b), None), Held(Unheld(cp, a, b), None);
    var d := Held(co, cp) - Held(a, b);
    assert d1 + d2 == d;
    var left, right := (m - d1) - d2, m - d;
    assert left.Keys == right.Keys;
    forall h | h in left.Keys ensures left[h] == right[h] {
      assert left[h] == m[h];
    }
  }

  /** Revoking two slots one after the other revokes the handles both hold. */
  lemma RevokeBoth(m: map<Handle, Blob>, a: Option<Handle>, b: Option<Handle>)
    ensures (m - Held(a, None)) - Held(b, None) == m - Held(a, b)
  {
    var left, right := (m - Held(a, None)) - Held(b, None), m - Held(a, b);
    assert left.Keys == right.Keys;
    forall k | k in left.Keys ensures left[k] == right[k] {
    }
  }

  /** Registering a fresh handle and then revoking handles other than it is
      revoking first and registering afterwards. */
  lemma RevokeAfterCreate(m: map<Handle, Blob>, h: Handle, b: Blob, gone: set<Handle>)
    requires h !in gone
    ensures m[h := b] - gone == (m - gone)[h := b]
    ensures (m[h := b] - gone).Keys == (m.Keys - gone) + {h}
  {
    var left, right := m[h := b] - gone, (m - gone)[h := b];
    assert left.Keys == right.Keys;
    forall k | k in left.Keys ensures left[k] == right[k] {
    }
  }

  /** The Blob a processing run ends with: the stub applied to the data URI
      that was read, then decoded back; None on every path that throws. */
  function ProcessedBlob(pending: Pending, atob: string -> Option<string>): Option<Blob> {
    match pending.videoDataUri
    case None => None
    case Some(uri) =>
      match PixelateVideoFlow.PixelateVideo(PixelateVideoFlow.PixelateVideoInput(uri, pending.level as real))
      case Failure(_) => None
      case Success(run) => DecodeDataUri(run.output.processedVideoDataUri, atob)
  }

  /** With a level the slider can produce, the processed Blob is the decoded
      input data URI: the stub's identity carries through the page. */
  lemma ProcessedBlobIsDecodedInput(uri: string, level: int, prev: Option<Handle>, atob: string -> Option<string>)
    requires 2 <= level <= 50
    ensures ProcessedBlob(Pending(Some(uri), level, prev), atob) == DecodeDataUri(uri, atob)
  {
  }

  /** The page-level round trip: when the reader yields the file's data URI
      and `atob` undoes the encoding, processing gives back the uploaded
      file's Blob, byte for byte and with its type. */
  lemma {:induction false} ProcessedBlobIsUpload(file: File, level: int, prev: Option<Handle>,
                                                 readAsDataUrl: Blob -> string, btoa: seq<byte> -> string,
                                                 atob: string -> Option<string>)
    requires 2 <= level <= 50
    requires ',' !in file.mimeType && ':' !in file.mimeType && ';' !in file.mimeType
    requires ',' !in btoa(file.bytes)
    requires readAsDataUrl(FileBlob(file)) == DataUriOf(file.mimeType, btoa(file.bytes))
    requires atob(btoa(file.bytes)) == Some(Latin1(file.bytes))
    ensures ProcessedBlob(Pending(Some(readAsDataUrl(FileBlob(file))), level, prev), atob) == Some(FileBlob(file))
  {
    ProcessedBlobIsDecodedInput(readAsDataUrl(FileBlob(file)), level, prev, atob);
    RoundTrip(FileBlob(file), btoa, atob);
  }

  /** Where the data URI did not come back, or the level is outside the
      schema's range, processing does not produce a Blob. */
  lemma ProcessedBlobFailures(pending: Pending, atob: string -> Option<string>)
    ensures pending.videoDataUri.None? ==> ProcessedBlob(pending, atob).None?
    ensures !(2 <= pending.level <= 50) ==> ProcessedBlob(pending, atob).None?
  {
  }

  class HomePage {
    var videoFile: Option<File>
    var pixelationLevel: int
    var isProcessing: bool
    var processedVideoUrl: Option<Handle>
    var originalVideoUrl: Option<Handle>
    var objectUrls: map<Handle, Blob>
    var nextHandle: Handle
    var cleanupOriginal: Option<Handle>
    var cleanupProcessed: Option<Handle>

    /** The handles the two slots hold. */
    ghost function Slots(): set<Handle>
      reads this
    {
      Held(originalVideoUrl, processedVideoUrl)
    }

    /** The handles the pending effect cleanup will revoke. */
    ghost function Captured(): set<Handle>
      reads this
    {
      Held(cleanupOriginal, cleanupProcessed)
    }

    /** The page's invariant: the level is one the slider allows; a file and
        its original handle come and go together; no processed handle while
        processing; every handle known is below `nextHandle`; and every
        registered handle is held by a slot or by the pending cleanup, so it
        is revoked eventually (nothing leaks). */
    ghost predicate Valid()
      reads this
    {
      && 2 <= pixelationLevel <= 50
      && (videoFile.Some? <==> originalVideoUrl.Some?)
      && (isProcessing ==> processedVideoUrl.None?)
      && (forall h :: h in objectUrls ==> h < nextHandle)
      && (forall h :: h in Held(originalVideoUrl, processedVideoUrl) ==> h < nextHandle)
      && (forall h :: h in Held(cleanupOriginal, cleanupProcessed) ==> h < nextHandle)
      && objectUrls.Keys <= Held(originalVideoUrl, processedVideoUrl) + Held(cleanupOriginal, cleanupProcessed)
    }

    /** The last committed effect saw the current slots: the state in which
        the page waits for the next user event. */
    ghost predicate Committed()
      reads this
    {
      cleanupOriginal == originalVideoUrl && cleanupProcessed == processedVideoUrl
    }

    /** Every handle a slot holds is still registered (none dangles). */
    ghost predicate SlotsLive()
      reads this
    {
      Slots() <= objectUrls.Keys
    }

    function CurrentPhase(): Phase
      reads this
    {
      if isProcessing then Processing
      else if originalVideoUrl.None? then Empty
      else if processedVideoUrl.Some? then Ready
      else Loaded
    }

    /** Both the level slider and the process button are enabled exactly
        when a file is chosen and nothing is being processed. */
    predicate CanProcess()
      reads this
    {
      videoFile.Some? && !isProcessing
    }

    /** The download button is enabled exactly when a processed handle
        exists and nothing is being processed. */
    predicate CanDownload()
      reads this
    {
      processedVideoUrl.Some? && !isProcessing
    }

    /** The first render, after its effect has been committed. */
    constructor ()
      ensures Valid() && Committed() && SlotsLive()
      ensures videoFile == None && originalVideoUrl == None && processedVideoUrl == None
      ensures pixelationLevel == 10 && !isProcessing
      ensures objectUrls == map[]
      ensures CurrentPhase() == Empty
    {
      videoFile, pixelationLevel, isProcessing := None, 10, false;
      processedVideoUrl, originalVideoUrl := None, None;
      objectUrls, nextHandle := map[], 0;
      cleanupOriginal, cleanupProcessed := None, None;
    }

    /** `URL.createObjectURL(blob)`. */
    method CreateObjectUrl(blob: Blob) returns (h: Handle)
      modifies this`objectUrls, this`nextHandle
      ensures h == old(nextHandle) && nextHandle == old(nextHandle) + 1
      ensures objectUrls == old(objectUrls)[h := blob]
    {
      h := nextHandle;
      nextHandle := nextHandle + 1;
      objectUrls := objectUrls[h := blob];
    }

    /** `if (url) URL.revokeObjectURL(url)`: revoking a handle no longer
        registered changes nothing. */
    method RevokeIfSet(url: Option<Handle>)
      modifies this`objectUrls
      ensures objectUrls == old(objectUrls) - Held(url, None)
    {
      if url.Some? {
        objectUrls := objectUrls - {url.value};
      }
    }

    /** The effect's cleanup, as written: when either slot differs from what
        the last effect saw, revoke both handles that effect captured (even
        one a slot still holds), then capture the current slots. Nothing
        leaks: afterwards every registered handle is held by a slot. */
    method CommitEffect()
      requires Valid()
      modifies this`objectUrls, this`cleanupOriginal, this`cleanupProcessed
      ensures Valid() && Committed()
      ensures objectUrls == if old(Committed()) then old(objectUrls) else old(objectUrls) - old(Captured())
      ensures objectUrls.Keys <= Slots()
    {
      if cleanupOriginal != originalVideoUrl || cleanupProcessed != processedVideoUrl {
        RevokeIfSet(cleanupOriginal);
        RevokeIfSet(cleanupProcessed);
        RevokeBoth(old(objectUrls), cleanupOriginal, cleanupProcessed);
      }
      cleanupOriginal, cleanupProcessed := originalVideoUrl, processedVideoUrl;
    }

    /** The cleanup as intended: revoke only a captured handle that no slot
        holds any more. Nothing leaks and nothing a slot holds is revoked, so
        from a state without dangling handles the registered handles are
        exactly those the slots hold. */
    method CommitEffectCorrected()
      requires Valid()
      modifies this`objectUrls, this`cleanupOriginal, this`cleanupProcessed
      ensures Valid() && Committed()
      ensures objectUrls == if old(Committed()) then old(objectUrls) else old(objectUrls) - (old(Captured()) - Slots())
      ensures objectUrls.Keys <= Slots()
      ensures old(SlotsLive()) ==> SlotsLive() && objectUrls.Keys == Slots()
    {
      if cleanupOriginal != originalVideoUrl || cleanupProcessed != processedVideoUrl {
        RevokeIfSet(Unheld(cleanupOriginal, originalVideoUrl, processedVideoUrl));
        RevokeIfSet(Unheld(cleanupProcessed, originalVideoUrl, processedVideoUrl));
        RevokeUnheld(old(objectUrls), cleanupOriginal, cleanupProcessed, originalVideoUrl, processedVideoUrl);
      }
      cleanupOriginal, cleanupProcessed := originalVideoUrl, processedVideoUrl;
    }

    /** Unmounting runs the last committed effect's cleanup: every handle of
        the page is revoked. */
    method Unmount()
      requires Valid() && Committed()
      modifies this`objectUrls
      ensures objectUrls == map[]
    {
      RevokeIfSet(cleanupOriginal);
      RevokeIfSet(cleanupProcessed);
    }

    /** `handleFileChange`: a file whose type starts with `video/` replaces
        the session (both old handles revoked, processed slot cleared, a
        fresh original handle for the new file); anything else, a missing
        file included, clears all three slots without revoking (the effect
        cleanup does that) and reports an invalid file type. */
    method HandleFileChange(file: Option<File>) returns (notice: Option<Notice>)
      requires Valid() && Committed()
      modifies this
      ensures Valid()
      ensures notice.None? <==> file.Some? && IsVideoType(file.value.mimeType)
      ensures notice.Some? ==> notice.value == InvalidFileType
      ensures notice.None? ==>
        && videoFile == file
        && processedVideoUrl == None
        && originalVideoUrl == Some(old(nextHandle))
        && nextHandle == old(nextHandle) + 1
        && objectUrls == (old(objectUrls) - old(Slots()))[old(nextHandle) := FileBlob(file.value)]
        && CurrentPhase() == (if isProcessing then Processing else Loaded)
      ensures notice.Some? ==>
        && videoFile == None && originalVideoUrl == None && processedVideoUrl == None
        && objectUrls == old(objectUrls) && nextHandle == old(nextHandle)
      ensures isProcessing == old(isProcessing) && pixelationLevel == old(pixelationLevel)
      ensures cleanupOriginal == old(cleanupOriginal) && cleanupProcessed == old(cleanupProcessed)
      ensures old(SlotsLive()) ==> SlotsLive()
    {
      if file.Some? && IsVideoType(file.value.mimeType) {
        RevokeIfSet(originalVideoUrl);
        RevokeIfSet(processedVideoUrl);
        RevokeBoth(old(objectUrls), originalVideoUrl, processedVideoUrl);
        videoFile := file;
        processedVideoUrl := None;
        var url := CreateObjectUrl(FileBlob(file.value));
        originalVideoUrl := Some(url);
        notice := None;
      } else {
        videoFile := None;
        originalVideoUrl := None;
        processedVideoUrl := None;
        notice := Some(InvalidFileType);
      }
    }

    /** The slider's `onValueChange`: the slider reports only values in
        2..50 in steps of 1, and only while it is enabled. */
    method ChangeLevel(value: int)
      requires Valid() && CanProcess()
      requires 2 <= value <= 50
      modifies this`pixelationLevel
      ensures Valid() && pixelationLevel == value
    {
      pixelationLevel := value;
    }

    /** `blobUrlToDataUri(url)`, reduced to what the model can see: the
        fetch fails on a handle that is no longer registered; otherwise the
        reader yields the data URI of the registered Blob. */
    function ReadObjectUrl(url: Handle, readAsDataUrl: Blob -> string): Option<string>
      reads this
    {
      if url in objectUrls then Some(readAsDataUrl(objectUrls[url])) else None
    }

    /** `dataUriToBlobUrl`: decode the data URI, copy the bytes into a fresh
        buffer and register a Blob for them; `null` wherever a step throws,
        in which case nothing is registered. */
    method DataUriToBlobUrl(dataUri: string, atob: string -> Option<string>) returns (url: Option<Handle>)
      modifies this`objectUrls, this`nextHandle
      ensures url.Some? <==> DecodeDataUri(dataUri, atob).Some?
      ensures url.None? ==> objectUrls == old(objectUrls) && nextHandle == old(nextHandle)
      ensures url.Some? ==>
        && url.value == old(nextHandle) && nextHandle == old(nextHandle) + 1
        && objectUrls == old(objectUrls)[url.value := DecodeDataUri(dataUri, atob).value]
    {
      var byteString := atob(PayloadText(dataUri));
      if byteString.None? {
        return None;
      }
      var mimeString := MimeOf(dataUri);
      if mimeString.None? {
        return None;
      }
      var ia := CopyBytes(byteString.value);
      var h := CreateObjectUrl(Blob(ia[..], mimeString.value));
      url := Some(h);
    }

    /** `handleProcessVideo` up to its first await: without a file or an
        original handle it reports that no video is uploaded and changes
        nothing; otherwise it raises the processing flag, clears the
        processed slot (without revoking: the closure still holds the old
        handle) and starts reading the original handle. */
    method BeginProcessing(readAsDataUrl: Blob -> string) returns (notice: Option<Notice>, pending: Option<Pending>)
      requires Valid() && Committed()
      modifies this`isProcessing, this`processedVideoUrl
      ensures Valid()
      ensures pending.None? <==> videoFile.None? || originalVideoUrl.None?
      ensures notice.Some? <==> pending.None?
      ensures pending.None? ==>
        && notice == Some(NoVideoUploaded)
        && isProcessing == old(isProcessing) && processedVideoUrl == old(processedVideoUrl)
      ensures pending.Some? ==>
        && isProcessing && processedVideoUrl == None
        && pending.value == Pending(ReadObjectUrl(originalVideoUrl.value, readAsDataUrl),
                                    pixelationLevel, old(processedVideoUrl))
        && CurrentPhase() == Processing && !CanProcess() && !CanDownload()
    {
      if videoFile.None? || originalVideoUrl.None? {
        notice, pending := Some(NoVideoUploaded), None;
        return;
      }
      var closureProcessed := processedVideoUrl;
      isProcessing := true;
      processedVideoUrl := None;
      var videoDataUri := ReadObjectUrl(originalVideoUrl.value, readAsDataUrl);
      notice, pending := None, Some(Pending(videoDataUri, pixelationLevel, closureProcessed));
    }

    /** `handleProcessVideo` after its awaits: run the stub, decode its
        result; on success revoke the processed handle the closure captured
        and hold the new one; on any failure report it and hold none. The
        `finally` lowers the processing flag on both paths. */
    method FinishProcessing(pending: Pending, atob: string -> Option<string>) returns (notice: Notice)
      requires Valid() && isProcessing
      requires pending.prevProcessed.Some? ==> pending.prevProcessed.value < nextHandle
      modifies this`isProcessing, this`processedVideoUrl, this`objectUrls, this`nextHandle
      ensures Valid() && !isProcessing
      ensures notice == ProcessingComplete <==> ProcessedBlob(pending, atob).Some?
      ensures notice != ProcessingComplete ==> notice == ProcessingFailed
      ensures ProcessedBlob(pending, atob).Some? ==>
        && processedVideoUrl == Some(old(nextHandle)) && nextHandle == old(nextHandle) + 1
        && objectUrls == (old(objectUrls) - Held(pending.prevProcessed, None))[old(nextHandle) := ProcessedBlob(pending, atob).value]
        && CurrentPhase() == (if originalVideoUrl.Some? then Ready else Empty)
      ensures ProcessedBlob(pending, atob).None? ==>
        && processedVideoUrl == None
        && objectUrls == old(objectUrls) && nextHandle == old(nextHandle)
    {
      notice := ProcessingFailed;
      if pending.videoDataUri.Some? {
        var input := PixelateVideoFlow.PixelateVideoInput(pending.videoDataUri.value, pending.level as real);
        var result := PixelateVideoFlow.PixelateVideo(input);
        if result.Success? {
          assert ProcessedBlob(pending, atob) == DecodeDataUri(result.value.output.processedVideoDataUri, atob);
          var processedBlobUrl := DataUriToBlobUrl(result.value.output.processedVideoDataUri, atob);
          if processedBlobUrl.Some? {
            RevokeIfSet(pending.prevProcessed);
            RevokeAfterCreate(old(objectUrls), old(nextHandle), ProcessedBlob(pending, atob).value,
                              Held(pending.prevProcessed, None));
            processedVideoUrl := processedBlobUrl;
            notice := ProcessingComplete;
          }
        }
      }
      isProcessing := false;
    }

    /** `handleProcessVideo` as a whole (the host commits the effect after
        it, as after any handler). */
    method HandleProcessVideo(readAsDataUrl: Blob -> string, atob: string -> Option<string>) returns (notice: Notice)
      requires Valid() && Committed()
      modifies this
      ensures Valid()
      ensures old(videoFile.Some? && originalVideoUrl.Some?) ==> !isProcessing
      ensures videoFile == old(videoFile) && originalVideoUrl == old(originalVideoUrl)
      ensures pixelationLevel == old(pixelationLevel)
      ensures cleanupOriginal == old(cleanupOriginal) && cleanupProcessed == old(cleanupProcessed)
      ensures old(videoFile.None? || originalVideoUrl.None?) ==>
        && notice == NoVideoUploaded
        && isProcessing == old(isProcessing) && processedVideoUrl == old(processedVideoUrl)
        && objectUrls == old(objectUrls) && nextHandle == old(nextHandle)
      ensures old(videoFile.Some? && originalVideoUrl.Some?) ==>
        var blob := ProcessedBlob(Pending(old(ReadObjectUrl(originalVideoUrl.value, readAsDataUrl)),
                                          old(pixelationLevel), old(processedVideoUrl)), atob);
        && (notice == ProcessingComplete <==> blob.Some?)
        && (CanDownload() <==> blob.Some?)
        && (blob.None? ==> notice == ProcessingFailed && processedVideoUrl == None
                           && objectUrls == old(objectUrls) && nextHandle == old(nextHandle))
        && (blob.Some? ==> processedVideoUrl == Some(old(nextHandle)) && nextHandle == old(nextHandle) + 1
                           && objectUrls == (old(objectUrls) - Held(old(processedVideoUrl), None))[old(nextHandle) := blob.value]
                           && CurrentPhase() == Ready)
    {
      var beginNotice, pending := BeginProcessing(readAsDataUrl);
      if pending.None? {
        notice := NoVideoUploaded;
        return;
      }
      notice := FinishProcessing(pending.value, atob);
    }

    /** `handleDownload`: nothing without both a processed handle and a
        file; otherwise a link to the processed handle named after the
        file and the level. */
    method HandleDownload() returns (download: Option<Download>)
      ensures download.Some? <==> processedVideoUrl.Some? && videoFile.Some?
      ensures download.Some? ==>
        download.value == Download(processedVideoUrl.value,
                                   DownloadName.DownloadFileName(videoFile.value.name, pixelationLevel))
    {
      if processedVideoUrl.None? || videoFile.None? {
        return None;
      }
      var fileName := DownloadName.DownloadFileName(videoFile.value.name, pixelationLevel);
      download := Some(Download(processedVideoUrl.value, fileName));
    }
  }

  /** The effect as written revokes the original handle when the processed
      slot first fills, so processing the same upload a second time reads a
      revoked handle and fails. */
  method ReprocessAsWritten(file: File, readAsDataUrl: Blob -> string, atob: string -> Option<string>)
      returns (first: Notice, second: Notice)
    requires IsVideoType(file.mimeType)
    requires DecodeDataUri(readAsDataUrl(FileBlob(file)), atob).Some?
    ensures first == ProcessingComplete && second == ProcessingFailed
  {
    var uri := readAsDataUrl(FileBlob(file));
    var page := new HomePage();
    var n := page.HandleFileChange(Some(file));
    var original := page.originalVideoUrl.value;
    page.CommitEffect();
    assert page.ReadObjectUrl(original, readAsDataUrl) == Some(uri);
    ProcessedBlobIsDecodedInput(uri, page.pixelationLevel, None, atob);
    first := page.HandleProcessVideo(readAsDataUrl, atob);
    page.CommitEffect();
    assert page.ReadObjectUrl(original, readAsDataUrl) == None;
    ProcessedBlobFailures(Pending(None, page.pixelationLevel, page.processedVideoUrl), atob);
    second := page.HandleProcessVideo(readAsDataUrl, atob);
    page.CommitEffect();
  }

  /** With the corrected cleanup the original handle stays registered, so
      the second processing of the same upload succeeds as the first did. */
  method ReprocessCorrected(file: File, readAsDataUrl: Blob -> string, atob: string -> Option<string>)
      returns (first: Notice, second: Notice)
    requires IsVideoType(file.mimeType)
    requires DecodeDataUri(readAsDataUrl(FileBlob(file)), atob).Some?
    ensures first == ProcessingComplete && second == ProcessingComplete
  {
    var uri := readAsDataUrl(FileBlob(file));
    var page := new HomePage();
    var n := page.HandleFileChange(Some(file));
    var original := page.originalVideoUrl.value;
    page.CommitEffectCorrected();
    assert page.ReadObjectUrl(original, readAsDataUrl) == Some(uri);
    ProcessedBlobIsDecodedInput(uri, page.pixelationLevel, None, atob);
    first := page.HandleProcessVideo(readAsDataUrl, atob);
    var processed := page.processedVideoUrl;
    page.CommitEffectCorrected();
    assert page.ReadObjectUrl(original, readAsDataUrl) == Some(uri);
    ProcessedBlobIsDecodedInput(uri, page.pixelationLevel, processed, atob);
    second := page.HandleProcessVideo(readAsDataUrl, atob);
    page.CommitEffectCorrected();
  }
}
