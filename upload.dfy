/**
 * The upload dialog: selecting media files, cropping one of them, and uploading the
 * batch as gallery rows. Storage and database calls are results passed in per file;
 * `Date.now()` and `Math.random()` are opaque name parts passed in per file; browser
 * object URLs are handles numbered in the order the dialog creates them.
 */
module Upload {
  import opened Wrappers
  import opened Text
  import opened Schema

  /** 25 MiB: the largest file the selection accepts. */
  const MaxFileSize: nat := 25 * 1024 * 1024

  /** Handle to the bytes of a browser `Blob`. */
  type BlobId = nat

  /** A browser `File`: name, MIME type, size in bytes, contents. */
  datatype MediaFile = MediaFile(name: string, mimeType: string, size: nat, bytes: BlobId)

  /** The JPEG blob the crop canvas produced. */
  datatype Blob = Blob(bytes: BlobId, size: nat)

  /** The pixel rectangle reported by the cropper. */
  datatype Area = Area(x: int, y: int, width: int, height: int)

  /** An object URL and the file it shows; `serial` tells URLs apart. */
  datatype ObjectUrl = ObjectUrl(serial: nat, file: MediaFile)

  datatype RejectReason = NotMedia | TooLarge

  /** The per-file error message of the selection loop. */
  datatype Rejection = Rejection(fileName: string, reason: RejectReason)

  predicate IsMediaType(mimeType: string)
  {
    StartsWith(mimeType, "image/") || StartsWith(mimeType, "video/")
  }

  predicate IsAcceptable(f: MediaFile)
  {
    IsMediaType(f.mimeType) && f.size <= MaxFileSize
  }

  /** The selection loop's verdict on one file: the type test comes before the size test. */
  function Check(f: MediaFile): Option<RejectReason>
  {
    if !IsMediaType(f.mimeType) then Some(NotMedia)
    else if f.size > MaxFileSize then Some(TooLarge)
    else None
  }

  /** The files a selection keeps, in selection order. */
  function ValidFiles(selected: seq<MediaFile>): seq<MediaFile>
  {
    if selected == [] then []
    else
      var last := selected[|selected| - 1];
      ValidFiles(selected[..|selected| - 1]) + (if Check(last).None? then [last] else [])
  }

  /** The error messages a selection produces, in selection order. */
  function Rejections(selected: seq<MediaFile>): seq<Rejection>
  {
    if selected == [] then []
    else
      var last := selected[|selected| - 1];
      Rejections(selected[..|selected| - 1]) +
        (match Check(last)
         case None => []
         case Some(reason) => [Rejection(last.name, reason)])
  }

  /** A file is kept exactly when it is an image or a video of at most 25 MiB. */
  lemma CheckAccepts(f: MediaFile)
    ensures Check(f).None? <==> IsAcceptable(f)
    ensures Check(f) == Some(TooLarge) <==> IsMediaType(f.mimeType) && f.size > MaxFileSize
  {
  }

  /** Filtering a selection filters each part of it independently. */
  lemma {:induction false} ValidFilesAppend(a: seq<MediaFile>, b: seq<MediaFile>)
    ensures ValidFiles(a + b) == ValidFiles(a) + ValidFiles(b)
    decreases |b|
  {
    if b == [] {
      assert a + b == a;
    } else {
      var b' := b[..|b| - 1];
      assert (a + b)[..|a + b| - 1] == a + b';
      ValidFilesAppend(a, b');
    }
  }

  /** The kept files are exactly the acceptable files of the selection. */
  lemma {:induction false} ValidFilesMembership(selected: seq<MediaFile>, f: MediaFile)
    ensures f in ValidFiles(selected) <==> f in selected && IsAcceptable(f)
  {
    if selected != [] {
      var init := selected[..|selected| - 1];
      ValidFilesMembership(init, f);
      assert selected == init + [selected[|selected| - 1]];
    }
  }

  /** An invalid file neither removes nor blocks any valid sibling: it is simply skipped. */
  lemma InvalidFileSkipped(before: seq<MediaFile>, bad: MediaFile, after: seq<MediaFile>)
    requires !IsAcceptable(bad)
    ensures ValidFiles(before + [bad] + after) == ValidFiles(before + after)
  {
    ValidFilesAppend(before + [bad], after);
    ValidFilesAppend(before, [bad]);
    ValidFilesAppend(before, after);
    assert [bad][..0] == [];
  }

  /** Every selected file is either kept or reported, never both and never neither. */
  lemma {:induction false} EveryFileAccountedFor(selected: seq<MediaFile>)
    ensures |ValidFiles(selected)| + |Rejections(selected)| == |selected|
  {
    if selected != [] {
      EveryFileAccountedFor(selected[..|selected| - 1]);
    }
  }

  /** An admin picks three files, the middle one 30 MiB: two are kept, one is reported as too large. */
  lemma OversizedFileScenario(a: MediaFile, big: MediaFile, c: MediaFile)
    requires IsAcceptable(a) && IsAcceptable(c)
    requires StartsWith(big.mimeType, "image/") && big.size == 30 * 1024 * 1024
    ensures ValidFiles([a, big, c]) == [a, c]
    ensures Rejections([a, big, c]) == [Rejection(big.name, TooLarge)]
  {
    var s1, s2, s3 := [a], [a, big], [a, big, c];
    assert s3[..2] == s2 && s2[..1] == s1 && s1[..0] == [];
    assert Check(big) == Some(TooLarge);
    assert Check(a).None? && Check(c).None?;
    assert ValidFiles(s2) == ValidFiles(s1) == [a];
    assert Rejections(s1) == [];
    assert Rejections(s2) == [] + [Rejection(big.name, TooLarge)];
  }

  /** The selection loop of the file input. */
  method SelectValidFiles(selected: seq<MediaFile>) returns (valid: seq<MediaFile>, rejected: seq<Rejection>)
    ensures valid == ValidFiles(selected)
    ensures rejected == Rejections(selected)
  {
    valid, rejected := [], [];
    for i := 0 to |selected|
      invariant valid == ValidFiles(selected[..i])
      invariant rejected == Rejections(selected[..i])
    {
      var file := selected[i];
      assert selected[..i + 1][..i] == selected[..i];
      if !StartsWith(file.mimeType, "image/") && !StartsWith(file.mimeType, "video/") {
        rejected := rejected + [Rejection(file.name, NotMedia)];
        continue;
      }
      if file.size > MaxFileSize {
        rejected := rejected + [Rejection(file.name, TooLarge)];
        continue;
      }
      valid := valid + [file];
    }
    assert selected[..|selected|] == selected;
  }

  /** A row inserted into `gallery_images`. */
  datatype GalleryInsert = GalleryInsert(
    title: string,
    description: Option<string>,
    imageUrl: string,
    status: Status)

  /** One file's upload name, opaque parts (`Date.now()`, a random base-36 text) and backend results. */
  datatype FileAttempt = FileAttempt(stamp: string, suffix: string, stored: bool, inserted: bool)

  /** How one file's upload sequence ended. */
  datatype FileOutcome =
    | StorageFailed(path: string)
    | InsertFailed(path: string, row: GalleryInsert)
    | Inserted(path: string, row: GalleryInsert)

  datatype UploadOutcome =
    | NoFiles
    | Settled(outcomes: seq<FileOutcome>, succeeded: bool)

  /** The row title: "none" when the typed title is blank, otherwise the title exactly as typed. */
  function RowTitle(title: string): (r: string)
    ensures Blank(title) ==> r == "none"
    ensures !Blank(title) ==> r == title
    ensures !Blank(r)
  {
    TrimEmptyIffBlank(title);
    assert !IsWhitespace("none"[0]);
    if Trim(title) == "" then "none" else title
  }

  /** Admins' uploads are approved at once; everybody else's wait for moderation. */
  function RowStatus(isAdmin: bool): (r: Status)
    ensures r != Rejected
    ensures r == Approved <==> isAdmin
  {
    if isAdmin then Approved else Pending
  }

  /** The storage path: `${Date.now()}-${random}.${extension}`. */
  function StorageName(file: MediaFile, stamp: string, suffix: string): string
  {
    stamp + "-" + suffix + "." + AfterLastDot(file.name)
  }

  /** The storage path keeps the file's extension, behind a dot. */
  lemma StorageNameKeepsExtension(file: MediaFile, stamp: string, suffix: string)
    ensures AfterLastDot(StorageName(file, stamp, suffix)) == AfterLastDot(file.name)
    ensures |AfterLastDot(StorageName(file, stamp, suffix))| < |StorageName(file, stamp, suffix)|
  {
    AfterLastDotOfJoin(stamp + "-" + suffix, AfterLastDot(file.name));
  }

  /** One file's sequence: storage upload, public URL, row insert; a failed step ends it. */
  function UploadOne(file: MediaFile, attempt: FileAttempt, title: string, description: string,
                     isAdmin: bool, publicUrlOf: string -> string): (o: FileOutcome)
    ensures o.Inserted? <==> attempt.stored && attempt.inserted
    ensures o.StorageFailed? <==> !attempt.stored
  {
    var path := StorageName(file, attempt.stamp, attempt.suffix);
    if !attempt.stored then StorageFailed(path)
    else
      var row := GalleryInsert(RowTitle(title), NullIfEmpty(description), publicUrlOf(path), RowStatus(isAdmin));
      if attempt.inserted then Inserted(path, row) else InsertFailed(path, row)
  }

  /** The storage path keeps the file's extension; a row carries the typed title and description, the public URL of the path and the uploader's status. */
  lemma UploadOneFields(file: MediaFile, attempt: FileAttempt, title: string, description: string,
                        isAdmin: bool, publicUrlOf: string -> string)
    ensures var o := UploadOne(file, attempt, title, description, isAdmin, publicUrlOf);
      && AfterLastDot(o.path) == AfterLastDot(file.name)
      && (!o.StorageFailed? ==>
            o.row == GalleryInsert(RowTitle(title), NullIfEmpty(description), publicUrlOf(o.path), RowStatus(isAdmin)))
  {
    StorageNameKeepsExtension(file, attempt.stamp, attempt.suffix);
  }

  /** `Promise.all` over the batch: every file runs its own sequence, whatever the others do. */
  function UploadBatch(files: seq<MediaFile>, attempts: seq<FileAttempt>, title: string, description: string,
                       isAdmin: bool, publicUrlOf: string -> string): (outcomes: seq<FileOutcome>)
    requires |attempts| == |files|
    ensures |outcomes| == |files|
    ensures forall i :: 0 <= i < |files| ==>
      outcomes[i] == UploadOne(files[i], attempts[i], title, description, isAdmin, publicUrlOf)
  {
    seq(|files|, i requires 0 <= i < |files| => UploadOne(files[i], attempts[i], title, description, isAdmin, publicUrlOf))
  }

  /** Every row a batch inserts has a non-blank title, no empty description, and is never born rejected. */
  lemma InsertedRowsWellFormed(files: seq<MediaFile>, attempts: seq<FileAttempt>, title: string,
                               description: string, isAdmin: bool, publicUrlOf: string -> string, i: nat)
    requires |attempts| == |files| && i < |files|
    requires UploadBatch(files, attempts, title, description, isAdmin, publicUrlOf)[i].Inserted?
    ensures var row := UploadBatch(files, attempts, title, description, isAdmin, publicUrlOf)[i].row;
      !Blank(row.title) && row.description != Some("") &&
      row.status == (if isAdmin then Approved else Pending)
  {
    UploadOneFields(files[i], attempts[i], title, description, isAdmin, publicUrlOf);
  }

  /** The batch counts as a success only when every file's row was inserted. */
  predicate AllInserted(outcomes: seq<FileOutcome>)
  {
    forall i :: 0 <= i < |outcomes| ==> outcomes[i].Inserted?
  }

  class UploadDialog {
    var title: string
    var description: string
    var files: seq<MediaFile>
    var previews: seq<ObjectUrl>
    var uploading: bool
    var cropIndex: Option<nat>
    var croppedAreaPixels: Option<Area>
    /** Serial of the next object URL the browser hands out. */
    var nextUrl: nat
    /** Serials of the object URLs released with `URL.revokeObjectURL`. */
    var revoked: set<nat>

    /**
     * Preview `i` is a live object URL of file `i`, no two previews share a URL, every
     * file is an image or a video, and an open crop view points at a file.
     */
    ghost predicate Valid()
      reads this
    {
      && |previews| == |files|
      && (forall i :: 0 <= i < |files| ==> previews[i].file == files[i] && previews[i].serial < nextUrl)
      && (forall i, j :: 0 <= i < j < |previews| ==> previews[i].serial != previews[j].serial)
      && (forall s :: s in revoked ==> s < nextUrl)
      && (forall i :: 0 <= i < |previews| ==> previews[i].serial !in revoked)
      && (forall i :: 0 <= i < |files| ==> IsMediaType(files[i].mimeType))
      && (cropIndex.Some? ==> cropIndex.value < |files|)
    }

    constructor ()
      ensures Valid()
      ensures title == "" && description == "" && files == [] && previews == []
      ensures !uploading && cropIndex.None? && croppedAreaPixels.None?
    {
      title, description := "", "";
      files, previews := [], [];
      uploading := false;
      cropIndex, croppedAreaPixels := None, None;
      nextUrl, revoked := 0, {};
    }

    /**
     * The file input's change handler (the input exists only outside the crop view).
     * A selection with no valid file changes nothing; otherwise the valid files replace
     * the batch and each gets a new preview URL. Superseded previews are not revoked.
     */
    method HandleFileChange(selected: seq<MediaFile>) returns (rejected: seq<Rejection>)
      requires Valid() && cropIndex.None?
      modifies this
      ensures Valid()
      ensures rejected == Rejections(selected)
      ensures ValidFiles(selected) == [] ==>
        files == old(files) && previews == old(previews) && nextUrl == old(nextUrl)
      ensures ValidFiles(selected) != [] ==>
        && files == ValidFiles(selected)
        && nextUrl == old(nextUrl) + |files|
        && (forall i :: 0 <= i < |files| ==> previews[i] == ObjectUrl(old(nextUrl) + i, files[i]))
      ensures title == old(title) && description == old(description) && uploading == old(uploading)
      ensures cropIndex == old(cropIndex) && croppedAreaPixels == old(croppedAreaPixels) && revoked == old(revoked)
    {
      if |selected| == 0 {
        rejected := [];
        return;
      }
      var valid;
      valid, rejected := SelectValidFiles(selected);
      if |valid| == 0 {
        return;
      }
      forall f | f in valid ensures IsMediaType(f.mimeType) {
        ValidFilesMembership(selected, f);
      }
      var first := nextUrl;
      files := valid;
      previews := seq(|valid|, i requires 0 <= i < |valid| => ObjectUrl(first + i, valid[i]));
      nextUrl := nextUrl + |valid|;
    }

    /** The crop button, offered on every preview that is not a video. */
    method StartCrop(index: nat)
      requires Valid() && cropIndex.None?
      requires index < |files| && !StartsWith(files[index].mimeType, "video/")
      modifies this`cropIndex
      ensures Valid() && cropIndex == Some(index)
    {
      cropIndex := Some(index);
    }

    /** The cropper reports the selected pixel rectangle. */
    method OnCropComplete(area: Area)
      requires Valid()
      modifies this`croppedAreaPixels
      ensures Valid() && croppedAreaPixels == Some(area)
    {
      croppedAreaPixels := Some(area);
    }

    /** The crop view's cancel button. */
    method CancelCrop()
      requires Valid()
      modifies this`cropIndex
      ensures Valid() && cropIndex.None?
    {
      cropIndex := None;
    }

    /**
     * Saves the crop. `cropped` is the canvas's JPEG, or None when drawing failed.
     * Without a crop index and area, or when drawing failed, nothing changes. Otherwise
     * only entry `cropIndex` of the files and the previews is replaced: the new file
     * keeps the old name, the old preview URL is revoked and the crop view closes.
     */
    method HandleCropSave(cropped: Option<Blob>)
      requires Valid()
      modifies this
      ensures Valid()
      ensures old(cropIndex).None? || old(croppedAreaPixels).None? || cropped.None? ==> unchanged(this)
      ensures old(cropIndex).Some? && old(croppedAreaPixels).Some? && cropped.Some? ==>
        var k := old(cropIndex).value;
        var f := MediaFile(old(files)[k].name, "image/jpeg", cropped.value.size, cropped.value.bytes);
        && files == old(files)[k := f]
        && previews == old(previews)[k := ObjectUrl(old(nextUrl), f)]
        && revoked == old(revoked) + {old(previews)[k].serial}
        && nextUrl == old(nextUrl) + 1
        && cropIndex.None?
      ensures title == old(title) && description == old(description) && uploading == old(uploading)
      ensures croppedAreaPixels == old(croppedAreaPixels)
    {
      if cropIndex.None? || croppedAreaPixels.None? {
        return;
      }
      if cropped.None? {
        return;
      }
      var k := cropIndex.value;
      var croppedFile := MediaFile(files[k].name, "image/jpeg", cropped.value.size, cropped.value.bytes);
      var newFiles := files[k := croppedFile];
      var newPreviews := previews;
      revoked := revoked + {newPreviews[k].serial};
      newPreviews := newPreviews[k := ObjectUrl(nextUrl, croppedFile)];
      nextUrl := nextUrl + 1;
      files := newFiles;
      previews := newPreviews;
      cropIndex := None;
    }

    /** The "remove all" button: empties the batch without revoking its previews. */
    method ClearAll()
      requires Valid() && cropIndex.None?
      modifies this`files, this`previews
      ensures Valid() && files == [] && previews == []
    {
      files := [];
      previews := [];
    }

    /**
     * The upload button. With no files it reports an error and calls nothing. Otherwise
     * each file runs its own upload sequence; `uploading` is cleared whatever happens,
     * and only when every row was inserted are the title, description, files and
     * previews reset; `succeeded` is then the request to close the dialog.
     */
    method HandleUpload(isAdmin: bool, attempts: seq<FileAttempt>, publicUrlOf: string -> string)
      returns (outcome: UploadOutcome)
      requires Valid() && cropIndex.None?
      requires |attempts| == |files|
      modifies this
      ensures Valid()
      ensures old(files) == [] ==> outcome == NoFiles && unchanged(this)
      ensures old(files) != [] ==>
        && outcome.Settled?
        && outcome.outcomes == UploadBatch(old(files), attempts, old(title), old(description), isAdmin, publicUrlOf)
        && outcome.succeeded == AllInserted(outcome.outcomes)
        && !uploading
      ensures old(files) != [] && outcome.succeeded ==>
        title == "" && description == "" && files == [] && previews == []
      ensures old(files) != [] && !outcome.succeeded ==>
        title == old(title) && description == old(description) && files == old(files) && previews == old(previews)
      ensures cropIndex == old(cropIndex) && croppedAreaPixels == old(croppedAreaPixels)
      ensures nextUrl == old(nextUrl) && revoked == old(revoked)
    {
      if |files| == 0 {
        return NoFiles;
      }
      uploading := true;
      var outcomes := UploadBatch(files, attempts, title, description, isAdmin, publicUrlOf);
      var succeeded := AllInserted(outcomes);
      outcome := Settled(outcomes, succeeded);
      if succeeded {
        ResetForm();
      }
      uploading := false;
    }

    /** After a full success the form starts over: no title, no description, no files. */
    method ResetForm()
      requires Valid() && cropIndex.None?
      modifies this`title, this`description, this`files, this`previews
      ensures Valid()
      ensures title == "" && description == "" && files == [] && previews == []
    {
      title, description := "", "";
      files, previews := [], [];
    }
  }
}
