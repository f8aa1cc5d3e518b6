/** The upload session of src/components/Uploader.jsx: four state cells
    (`uploading`, `uploadProgress`, `uploadedImage`, `error`) driven by a file
    selection, upload progress, the load outcome and a network error, plus the
    catalog record built from a finished upload. The request itself, the
    clipboard and `Date.now()` are outside the model: their outcomes arrive
    as method parameters. */
module Uploader {
  import opened Js

  /** The size limit, 10 MiB. */
  const MaxFileSize: nat := 10 * 1024 * 1024

  /** The MIME-type prefix an accepted file must have. */
  const ImagePrefix: string := "image/"

  const ErrNotImage: string := "请选择图片文件"
  const ErrTooLarge: string := "图片大小不能超过 10MB"
  const ErrUploadFailed: string := "上传失败，请重试"
  const ErrNetwork: string := "网络错误，请重试"
  const ErrSendFailed: string := "上传出错，请重试"

  /** The description used when the upload has no original file name. */
  const FallbackDescription: string := "新上传的图片"

  /** The HTTP status of a successful upload. */
  const StatusOk: int := 200

  /** The first entry of the file input's list: its MIME type and byte size. */
  datatype SelectedFile = SelectedFile(mimeType: string, size: nat)

  /** The fields of the parsed upload response that the component reads;
      each is whatever JSON value the response holds. */
  datatype UploadResponse = UploadResponse(
    secureUrl: JsValue, originalFilename: JsValue, width: JsValue, height: JsValue)

  /** The catalog entry `{id, url, description, width, height, related_images}`. */
  datatype CatalogRecord = CatalogRecord(
    id: string, url: JsValue, description: JsValue, width: JsValue, height: JsValue,
    relatedImages: seq<string>)

  /** Why a selected file is refused, or `None` when it may be uploaded: the
      type is checked before the size, and a size of exactly the limit
      passes. */
  function Rejection(file: SelectedFile): (r: Option<string>)
    ensures r == None || r == Some(ErrNotImage) || r == Some(ErrTooLarge)
    ensures file.size > MaxFileSize ==> r != None
  {
    if !StartsWith(file.mimeType, ImagePrefix) then Some(ErrNotImage)
    else if file.size > MaxFileSize then Some(ErrTooLarge)
    else None
  }

  /** The checks in their source order: a non-image is refused as such
      whatever its size; an image is refused exactly when it is over the
      limit; nothing else is refused. */
  lemma RejectionOrder(file: SelectedFile)
    ensures !StartsWith(file.mimeType, ImagePrefix) ==> Rejection(file) == Some(ErrNotImage)
    ensures StartsWith(file.mimeType, ImagePrefix) ==>
      (Rejection(file) == Some(ErrTooLarge) <==> file.size > MaxFileSize)
    ensures Rejection(file) == None <==> StartsWith(file.mimeType, ImagePrefix) && file.size <= MaxFileSize
  {
  }

  /** `Math.round(loaded / total * 100)`, with the quotient taken exactly:
      the nearest whole percentage, halves rounded up. */
  function RoundPercent(loaded: nat, total: nat): (r: nat)
    requires total > 0
    ensures r * (2 * total) <= 200 * loaded + total < (r + 1) * (2 * total)
  {
    (200 * loaded + total) / (2 * total)
  }

  /** No more than everything loaded shows at most 100%; everything loaded
      shows exactly 100% and nothing loaded 0%. */
  lemma RoundPercentBounds(loaded: nat, total: nat)
    requires 0 < total && loaded <= total
    ensures RoundPercent(loaded, total) <= 100
    ensures loaded == total ==> RoundPercent(loaded, total) == 100
    ensures loaded == 0 ==> RoundPercent(loaded, total) == 0
  {
    var r := RoundPercent(loaded, total);
    ScaleCancel(r, 101, 2 * total);
    if loaded == total {
      ScaleCancel(100, r + 1, 2 * total);
    }
    if loaded == 0 {
      ScaleCancel(r, 1, 2 * total);
    }
  }

  /** More bytes loaded never show a smaller percentage. */
  lemma RoundPercentMonotone(a: nat, b: nat, total: nat)
    requires 0 < total && a <= b
    ensures RoundPercent(a, total) <= RoundPercent(b, total)
  {
    ScaleCancel(RoundPercent(a, total), RoundPercent(b, total) + 1, 2 * total);
  }

  /** A positive factor can be cancelled from a strict inequality. */
  lemma ScaleCancel(x: nat, y: nat, c: nat)
    requires c > 0 && x * c < y * c
    ensures x < y
  {
  }

  /** `uploadedImage.original_filename || '新上传的图片'`. */
  function Description(img: UploadResponse): (d: JsValue)
    ensures Truthy(d)
    ensures Truthy(img.originalFilename) ==> d == img.originalFilename
    ensures !Truthy(img.originalFilename) ==> d == Str(FallbackDescription)
  {
    if Truthy(img.originalFilename) then img.originalFilename else Str(FallbackDescription)
  }

  /** The record `copyJsonToClipboard` builds, with `now` standing for
      `Date.now()`. */
  function NewImageRecord(img: UploadResponse, now: nat): (r: CatalogRecord)
    ensures r.url == img.secureUrl && r.width == img.width && r.height == img.height
    ensures r.description == Description(img) && Truthy(r.description)
    ensures r.relatedImages == []
    ensures |r.id| > 4 && r.id[..4] == "img-"
  {
    CatalogRecord("img-" + NatToString(now), img.secureUrl, Description(img), img.width, img.height, [])
  }

  /** The id encodes the timestamp: reading the digits after `img-` gives it
      back. */
  lemma RecordIdTimestamp(img: UploadResponse, now: nat)
    ensures var id := NewImageRecord(img, now).id;
            (forall k :: 4 <= k < |id| ==> IsDigit(id[k])) && ParseDecimal(id[4..]) == now
  {
    var id := NewImageRecord(img, now).id;
    assert id[4..] == NatToString(now);
    ParseNatToString(now);
  }

  /** Records built at different times have different ids, whatever the
      uploads; records built at the same time share one. */
  lemma RecordIdsDistinct(a: UploadResponse, b: UploadResponse, t1: nat, t2: nat)
    ensures NewImageRecord(a, t1).id == NewImageRecord(b, t2).id <==> t1 == t2
  {
    var ia, ib := NewImageRecord(a, t1).id, NewImageRecord(b, t2).id;
    if ia == ib {
      assert ia[4..] == NatToString(t1) && ib[4..] == NatToString(t2);
      NatToStringInjective(t1, t2);
    }
  }

  /** The component's state cells. */
  class Uploader {
    var uploading: bool
    var uploadProgress: int
    var uploadedImage: Option<UploadResponse>
    var error: Option<string>

    /** The progress is a non-negative percentage, and no finished image is
        held while `uploading` is set: every event that stores an image also
        clears the flag, and setting it clears the image. */
    ghost predicate Valid()
      reads this
    {
      0 <= uploadProgress && (uploading ==> uploadedImage == None)
    }

    /** `useState(false)`, `useState(0)`, `useState(null)`, `useState(null)`. */
    constructor()
      ensures Valid()
      ensures !uploading && uploadProgress == 0 && uploadedImage == None && error == None
    {
      uploading := false;
      uploadProgress := 0;
      uploadedImage := None;
      error := None;
    }

    /** `handleFileSelect`: `file` is the first selected file, if any, and
        `sendFails` says whether setting up or sending the request throws.
        Returns whether a request went out. */
    method HandleFileSelect(file: Option<SelectedFile>, sendFails: bool) returns (sent: bool)
      requires Valid()
      modifies this
      ensures Valid()
      ensures sent <==> file.Some? && Rejection(file.value) == None && !sendFails
      // no file: nothing changes
      ensures file.None? ==>
        uploading == old(uploading) && error == old(error) && uploadedImage == old(uploadedImage)
      // a refused file sets the message and touches nothing else
      ensures file.Some? && Rejection(file.value).Some? ==>
        error == Rejection(file.value) && uploading == old(uploading)
        && uploadedImage == old(uploadedImage)
      // an accepted file starts an upload with a clean slate, unless sending throws
      ensures file.Some? && Rejection(file.value) == None ==>
        uploadedImage == None && uploading == !sendFails
        && error == (if sendFails then Some(ErrSendFailed) else None)
      // the progress is never reset here
      ensures uploadProgress == old(uploadProgress)
    {
      sent := false;
      if file.None? {
        return;
      }
      var f := file.value;
      if !StartsWith(f.mimeType, ImagePrefix) {
        error := Some(ErrNotImage);
        return;
      }
      if f.size > MaxFileSize {
        error := Some(ErrTooLarge);
        return;
      }
      uploading := true;
      error := None;
      uploadedImage := None;
      if sendFails {
        error := Some(ErrSendFailed);
        uploading := false;
      } else {
        sent := true;
      }
    }

    /** The upload's `progress` listener: a computable length updates the
        percentage, any other event is ignored. */
    method OnProgress(lengthComputable: bool, loaded: nat, total: nat)
      requires Valid()
      requires lengthComputable ==> total > 0
      modifies this
      ensures Valid()
      ensures uploadProgress == (if lengthComputable then RoundPercent(loaded, total) else old(uploadProgress))
      ensures uploading == old(uploading) && uploadedImage == old(uploadedImage) && error == old(error)
    {
      if lengthComputable {
        uploadProgress := RoundPercent(loaded, total);
      }
    }

    /** The `load` listener: status 200 stores the response and hands it to
        the success callback (the returned value); any other status sets the
        failure message. Either way the upload is over. */
    method OnLoad(status: int, response: UploadResponse) returns (delivered: Option<UploadResponse>)
      requires Valid()
      modifies this
      ensures Valid()
      ensures !uploading
      ensures status == StatusOk ==>
        uploadedImage == Some(response) && delivered == Some(response) && error == old(error)
      ensures status != StatusOk ==>
        error == Some(ErrUploadFailed) && delivered == None && uploadedImage == old(uploadedImage)
      ensures uploadProgress == old(uploadProgress)
    {
      if status == StatusOk {
        uploadedImage := Some(response);
        delivered := Some(response);
      } else {
        error := Some(ErrUploadFailed);
        delivered := None;
      }
      uploading := false;
    }

    /** The `error` listener: the network message, and the upload is over. */
    method OnNetworkError()
      requires Valid()
      modifies this
      ensures Valid()
      ensures !uploading && error == Some(ErrNetwork)
      ensures uploadedImage == old(uploadedImage) && uploadProgress == old(uploadProgress)
    {
      error := Some(ErrNetwork);
      uploading := false;
    }

    /** `copyJsonToClipboard`: the record that would be copied, or `None`
        when there is no uploaded image. `now` stands for `Date.now()`. */
    method CopyJsonToClipboard(now: nat) returns (record: Option<CatalogRecord>)
      ensures uploadedImage == None ==> record == None
      ensures uploadedImage != None ==> record == Some(NewImageRecord(uploadedImage.value, now))
    {
      if uploadedImage == None {
        return None;
      }
      record := Some(NewImageRecord(uploadedImage.value, now));
    }
  }

  /** An earlier upload's image survives a refused selection, so the success
      panel and an error message show together. */
  method StaleImageBesideError(img: UploadResponse) returns (u: Uploader)
    ensures u.uploadedImage == Some(img) && u.error == Some(ErrNotImage)
  {
    u := new Uploader();
    var sent := u.HandleFileSelect(Some(SelectedFile("image/png", 1024)), false);
    var delivered := u.OnLoad(StatusOk, img);
    assert !StartsWith("text/plain", ImagePrefix) by {
      assert "text/plain"[..|ImagePrefix|][0] != ImagePrefix[0];
    }
    sent := u.HandleFileSelect(Some(SelectedFile("text/plain", 10)), false);
  }

  /** Nothing stops a second selection while a request is out: after two
      accepted selections, the first response to arrive clears `uploading`
      and is stored although the second request is still outstanding. */
  method OverlappingUploads(first: UploadResponse) returns (u: Uploader, sent1: bool, sent2: bool)
    ensures sent1 && sent2
    ensures !u.uploading && u.uploadedImage == Some(first)
  {
    u := new Uploader();
    sent1 := u.HandleFileSelect(Some(SelectedFile("image/png", 1024)), false);
    sent2 := u.HandleFileSelect(Some(SelectedFile("image/webp", 4096)), false);
    var delivered := u.OnLoad(StatusOk, first);
  }

  /** A refused selection during an upload does not stop it: the progress
      bar and an error message show together, and the upload still
      completes. */
  method RefusalDuringUpload(img: UploadResponse) returns (u: Uploader)
    ensures !u.uploading && u.uploadedImage == Some(img) && u.error == Some(ErrTooLarge)
  {
    u := new Uploader();
    var sent := u.HandleFileSelect(Some(SelectedFile("image/jpeg", 2048)), false);
    sent := u.HandleFileSelect(Some(SelectedFile("image/gif", MaxFileSize + 1)), false);
    assert u.uploading && u.error == Some(ErrTooLarge);
    var delivered := u.OnLoad(StatusOk, img);
  }
}
