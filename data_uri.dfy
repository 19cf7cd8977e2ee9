/** The data-URI half of the page's codec: how `dataUriToBlobUrl` takes a
    `data:<mimetype>;base64,<encoded_data>` string apart (the `data:` URL
    scheme of RFC 2397, read by a plain split rather than a full parser)
    and copies the decoded characters into a byte buffer. `atob` (the
    base64 decoding of section 4 of RFC 4648) is a parameter that may fail. */
module DataUri {
  import opened Wrappers
  import opened JsString

  newtype byte = x: int | 0 <= x < 256

  /** A Blob: its bytes and its declared MIME type. */
  datatype Blob = Blob(bytes: seq<byte>, mimeType: string)

  /** The shape of the data URIs the flow exchanges. */
  function DataUriOf(mimeType: string, base64Data: string): string {
    "data:" + mimeType + ";base64," + base64Data
  }

  /** `dataUri.split(',')[1]`, as `atob` receives it: a missing piece is
      `undefined`, which `atob` reads as the text "undefined". Either way
      `atob` never sees a comma. */
  function PayloadText(dataUri: string): (payload: string)
    ensures ',' !in payload
  {
    SplitPiecesFree(dataUri, ',');
    match At(Split(dataUri, ','), 1)
    case Some(p) => p
    case None => "undefined"
  }

  /** `dataUri.split(',')[0].split(':')[1].split(';')[0]`; None where the
      middle `[1]` is `undefined`, so that the last `split` throws. A type
      found holds no `;`, so MIME parameters never reach the Blob. */
  function MimeOf(dataUri: string): (mime: Option<string>)
    ensures mime.Some? ==> ';' !in mime.value
  {
    match At(Split(Split(dataUri, ',')[0], ':'), 1)
    case None => None
    case Some(t) =>
      SplitPiecesFree(t, ';');
      Some(Split(t, ';')[0])
  }

  /** Storing a character code into a `Uint8Array` keeps it modulo 256. */
  function ToUint8(c: char): byte {
    ((c as int) % 256) as byte
  }

  /** The bytes the copy loop leaves in the buffer for `byteString`. */
  function BytesOf(byteString: string): seq<byte> {
    seq(|byteString|, i requires 0 <= i < |byteString| => ToUint8(byteString[i]))
  }

  /** The Blob `dataUriToBlobUrl` registers for `dataUri`, or None where
      it throws (and so returns `null`): `atob` fails, or the text before
      the first comma has no colon. */
  function DecodeDataUri(dataUri: string, atob: string -> Option<string>): (blob: Option<Blob>)
    ensures blob.Some? <==> atob(PayloadText(dataUri)).Some? && MimeOf(dataUri).Some?
    ensures blob.Some? ==>
      && blob.value.mimeType == MimeOf(dataUri).value
      && |blob.value.bytes| == |atob(PayloadText(dataUri)).value|
  {
    match atob(PayloadText(dataUri))
    case None => None
    case Some(byteString) =>
      match MimeOf(dataUri)
      case None => None
      case Some(mime) => Some(Blob(BytesOf(byteString), mime))
  }

  /** The buffer fill of `dataUriToBlobUrl`: a zeroed buffer of the decoded
      length, then `ia[i] = byteString.charCodeAt(i)` for every `i`. */
  method CopyBytes(byteString: string) returns (ia: array<byte>)
    ensures ia.Length == |byteString|
    ensures forall i :: 0 <= i < ia.Length ==> ia[i] as int == (byteString[i] as int) % 256
    ensures ia[..] == BytesOf(byteString)
  {
    ia := new byte[|byteString|];
    for i := 0 to |byteString|
      invariant forall j :: 0 <= j < i ==> ia[j] == ToUint8(byteString[j])
    {
      ia[i] := ToUint8(byteString[i]);
    }
  }

  /** The payload is the text between the first and the second comma (or
      the end); without a comma `atob` is handed "undefined". */
  lemma {:induction false} PayloadShape(dataUri: string)
    ensures ',' !in dataUri ==> PayloadText(dataUri) == "undefined"
    ensures ',' in dataUri ==>
      var h := Split(dataUri, ',')[0];
      var p := PayloadText(dataUri);
      && ',' !in h && |h| < |dataUri| && dataUri[|h|] == ','
      && ',' !in p && p <= dataUri[|h| + 1..]
      && (|h| + 1 + |p| < |dataUri| ==> dataUri[|h| + 1 + |p|] == ',')
  {
    HasSecondPiece(dataUri, ',');
    SplitFirst(dataUri, ',');
    if ',' in dataUri {
      var h := Split(dataUri, ',')[0];
      SplitTail(dataUri, ',');
      var tail := dataUri[|h| + 1..];
      assert PayloadText(dataUri) == Split(tail, ',')[0];
      SplitFirst(tail, ',');
    }
  }

  /** The first `;`-piece of the text after a `:` ends at the next `:` or
      `;` of that text. */
  lemma {:induction false} FirstParameterPiece(rest: string)
    ensures var t := Split(rest, ':')[0];
      var m := Split(t, ';')[0];
      && m <= rest && ':' !in m && ';' !in m
      && (|m| < |rest| ==> rest[|m|] in {':', ';'})
  {
    var t := Split(rest, ':')[0];
    SplitFirst(rest, ':');
    var m := Split(t, ';')[0];
    SplitFirst(t, ';');
    assert m <= t <= rest;
    assert ':' !in m by {
      forall i | 0 <= i < |m| ensures m[i] != ':' {
        assert m[i] == t[i];
      }
    }
    if |m| < |rest| {
      if |m| < |t| {
        assert rest[|m|] == t[|m|] == ';';
      } else {
        assert rest[|t|] == ':';
      }
    }
  }

  /** The MIME type is found exactly when the text before the first comma
      has a colon, and then it is the text after that colon up to the next
      colon or semicolon: parameters after a `;` are dropped. */
  lemma {:induction false} MimeShape(dataUri: string)
    ensures var head := Split(dataUri, ',')[0];
      MimeOf(dataUri).Some? <==> ':' in head
    ensures var head := Split(dataUri, ',')[0];
      MimeOf(dataUri).Some? ==>
        var c := Split(head, ':')[0];
        var m := MimeOf(dataUri).value;
        && ',' !in head && head <= dataUri
        && ':' !in c && |c| < |head| && head[|c|] == ':'
        && m <= head[|c| + 1..] && ':' !in m && ';' !in m
        && (|c| + 1 + |m| < |head| ==> head[|c| + 1 + |m|] in {':', ';'})
  {
    var head := Split(dataUri, ',')[0];
    SplitFirst(dataUri, ',');
    HasSecondPiece(head, ':');
    if ':' in head {
      var c := Split(head, ':')[0];
      SplitFirst(head, ':');
      SplitTail(head, ':');
      var rest := head[|c| + 1..];
      assert At(Split(head, ':'), 1) == Some(Split(rest, ':')[0]);
      FirstParameterPiece(rest);
      var m := MimeOf(dataUri).value;
      assert m == Split(Split(rest, ':')[0], ';')[0];
      if |c| + 1 + |m| < |head| {
        assert head[|c| + 1 + |m|] == rest[|m|];
      }
    }
  }

  /** Taking apart a data URI of the shape the flow exchanges gives back its
      MIME type and payload, as long as neither contains a delimiter. */
  lemma {:induction false} ParseFormatted(mimeType: string, base64Data: string)
    requires ',' !in mimeType && ':' !in mimeType && ';' !in mimeType
    requires ',' !in base64Data
    ensures PayloadText(DataUriOf(mimeType, base64Data)) == base64Data
    ensures MimeOf(DataUriOf(mimeType, base64Data)) == Some(mimeType)
  {
    var params := mimeType + ";base64";
    var head := "data" + [':'] + params;
    var u := DataUriOf(mimeType, base64Data);
    assert u == head + [','] + base64Data;
    assert ',' !in head by {
      assert head == "data:" + mimeType + ";base64";
    }
    SplitAppend(head, base64Data, ',');
    SplitFree(head, ',');
    SplitFree(base64Data, ',');
    assert Split(u, ',') == [head, base64Data];
    assert ':' !in params;
    SplitAppend("data", params, ':');
    SplitFree("data", ':');
    SplitFree(params, ':');
    assert Split(head, ':') == ["data", params];
    assert params == mimeType + [';'] + "base64";
    SplitAppend(mimeType, "base64", ';');
    SplitFree(mimeType, ';');
    assert Split(params, ';')[0] == mimeType;
  }

  /** Characters whose codes are the given bytes (what `atob` produces). */
  function Latin1(bytes: seq<byte>): (s: string)
    ensures |s| == |bytes|
  {
    seq(|bytes|, i requires 0 <= i < |bytes| => (bytes[i] as int) as char)
  }

  /** Round trip: when `atob` undoes the base64 encoding, decoding the data
      URI of a Blob yields that Blob, byte for byte. */
  lemma {:induction false} RoundTrip(blob: Blob, btoa: seq<byte> -> string, atob: string -> Option<string>)
    requires ',' !in blob.mimeType && ':' !in blob.mimeType && ';' !in blob.mimeType
    requires ',' !in btoa(blob.bytes)
    requires atob(btoa(blob.bytes)) == Some(Latin1(blob.bytes))
    ensures DecodeDataUri(DataUriOf(blob.mimeType, btoa(blob.bytes)), atob) == Some(blob)
  {
    ParseFormatted(blob.mimeType, btoa(blob.bytes));
    var chars := Latin1(blob.bytes);
    assert BytesOf(chars) == blob.bytes by {
      forall i | 0 <= i < |chars| ensures BytesOf(chars)[i] == blob.bytes[i] {
        assert chars[i] as int == blob.bytes[i] as int;
      }
    }
  }
}
