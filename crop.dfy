/**
 * The bulk crop component: every uploaded image is center-cropped to the
 * target size, re-encoded, checked against a size limit in megabytes, and the
 * accepted results are collected into one archive under their original names.
 */
module Crop {
  import opened Wrappers
  import opened Browser
  import opened CropGeometry

  /**
   * The browser services one crop uses.
   * - `decode`: `FileReader.readAsDataURL` followed by loading the data URL
   *   into an `Image`; `None` when the reader or the image reports an error.
   * - `context`: whether the fresh canvas created for this file hands out a
   *   2D context (each image gets its own canvas).
   * - `encode`: draw the given source rectangle of the image scaled onto a
   *   canvas of the given width and height, then `toBlob` in the file's own
   *   media type; `None` when no blob is produced.
   */
  datatype Env = Env(
    decode: File -> Option<Bitmap>,
    context: File -> bool,
    encode: (File, Rect, real, real) -> Option<seq<byte>>)

  /** Why one image yields no cropped file; each of these resolves to null. */
  datatype Failure =
    | DecodeFailed
    | NoContext
    | EncodeFailed
    | TooLarge(name: string, limitMB: real)

  /** The size gate: a blob of `size` bytes is kept when it is at most `maxMB` megabytes. */
  predicate WithinLimit(size: nat, maxMB: real)
  {
    size as real / 1024.0 / 1024.0 <= maxMB
  }

  /** The gate in bytes: at most `maxMB` times 1048576 bytes. */
  lemma WithinLimitBytes(size: nat, maxMB: real)
    ensures WithinLimit(size, maxMB) <==> size as real <= maxMB * 1048576.0
  {
  }

  /** `cropAndResizeImage`: the cropped file for `file`, or why there is none. */
  function CropAndResize(file: File, width: real, height: real, maxMB: real, env: Env): (r: Result<File, Failure>)
    requires width > 0.0 && height > 0.0
    ensures r.Success? ==>
              && r.value.name == file.name
              && r.value.mediaType == file.mediaType
              && WithinLimit(|r.value.data|, maxMB)
              && env.decode(file).Some?
              && env.context(file)
              && env.encode(file, CenterCrop(env.decode(file).value.width, env.decode(file).value.height, width, height),
                            width, height) == Some(r.value.data)
    ensures r == Failure(DecodeFailed) <==> env.decode(file).None?
    ensures r.Failure? && r.error.TooLarge? ==> r.error == TooLarge(file.name, maxMB)
  {
    match env.decode(file)
    case None => Failure(DecodeFailed)
    case Some(img) =>
      if !env.context(file) then Failure(NoContext)
      else
        var rect := CenterCrop(img.width, img.height, width, height);
        match env.encode(file, rect, width, height)
        case None => Failure(EncodeFailed)
        case Some(blob) =>
          var resizedFile := File(file.name, file.mediaType, blob);
          if WithinLimit(|resizedFile.data|, maxMB) then Success(resizedFile)
          else Failure(TooLarge(file.name, maxMB))
  }

  /**
   * Once the image has been decoded, drawn and encoded to `blob`, it is kept
   * exactly when the blob passes the size gate, and refused as too large otherwise.
   */
  lemma SizeGateDecides(file: File, width: real, height: real, maxMB: real, env: Env, blob: seq<byte>)
    requires width > 0.0 && height > 0.0
    requires env.decode(file).Some? && env.context(file)
    requires env.encode(file, CenterCrop(env.decode(file).value.width, env.decode(file).value.height, width, height),
                        width, height) == Some(blob)
    ensures CropAndResize(file, width, height, maxMB, env) ==
              if |blob| as real / 1024.0 / 1024.0 <= maxMB then Success(File(file.name, file.mediaType, blob))
              else Failure(TooLarge(file.name, maxMB))
  {
  }

  /** Whether `file` makes it into the crop archive. */
  predicate Accepted(file: File, width: real, height: real, maxMB: real, env: Env)
    requires width > 0.0 && height > 0.0
  {
    CropAndResize(file, width, height, maxMB, env).Success?
  }

  /** How many of `images` are accepted, counting repeated names separately. */
  function AcceptedCount(images: seq<File>, width: real, height: real, maxMB: real, env: Env): (n: nat)
    requires width > 0.0 && height > 0.0
    ensures n <= |images|
    decreases |images|
  {
    if images == [] then 0
    else AcceptedCount(images[..|images| - 1], width, height, maxMB, env)
         + (if Accepted(images[|images| - 1], width, height, maxMB, env) then 1 else 0)
  }

  /**
   * The archive `handleCropAndCompress` builds from `images`: in order, every
   * accepted result is added under its name, replacing an earlier entry of
   * the same name; images without a result add nothing.
   */
  function CropArchive(images: seq<File>, width: real, height: real, maxMB: real, env: Env): (zip: Archive)
    requires width > 0.0 && height > 0.0
    ensures |zip| <= AcceptedCount(images, width, height, maxMB, env) <= |images|
    decreases |images|
  {
    if images == [] then map[]
    else
      var zip := CropArchive(images[..|images| - 1], width, height, maxMB, env);
      match CropAndResize(images[|images| - 1], width, height, maxMB, env)
      case Success(cropped) => zip[cropped.name := cropped.data]
      case Failure(_) => zip
  }

  /** The names in the archive are exactly the names of the accepted images. */
  lemma {:induction false} CropArchiveKeys(images: seq<File>, width: real, height: real, maxMB: real, env: Env)
    requires width > 0.0 && height > 0.0
    ensures CropArchive(images, width, height, maxMB, env).Keys ==
              set f | f in images && Accepted(f, width, height, maxMB, env) :: f.name
  {
    if images != [] {
      var prefix, last := images[..|images| - 1], images[|images| - 1];
      assert images == prefix + [last];
      CropArchiveKeys(prefix, width, height, maxMB, env);
    }
  }

  /**
   * An accepted image whose name no later accepted image shares is in the
   * archive with its own cropped bytes: the last accepted duplicate wins, and
   * a later duplicate that fails does not remove it.
   */
  lemma {:induction false} CropArchiveLastWins(images: seq<File>, width: real, height: real, maxMB: real, env: Env, k: nat)
    requires width > 0.0 && height > 0.0
    requires k < |images| && Accepted(images[k], width, height, maxMB, env)
    requires forall j :: k < j < |images| && Accepted(images[j], width, height, maxMB, env) ==>
                           images[j].name != images[k].name
    ensures images[k].name in CropArchive(images, width, height, maxMB, env)
    ensures CropArchive(images, width, height, maxMB, env)[images[k].name] ==
              CropAndResize(images[k], width, height, maxMB, env).value.data
  {
    var prefix := images[..|images| - 1];
    if k < |images| - 1 {
      assert prefix[k] == images[k];
      forall j | k < j < |prefix| && Accepted(prefix[j], width, height, maxMB, env)
        ensures prefix[j].name != prefix[k].name
      {
        assert prefix[j] == images[j];
      }
      CropArchiveLastWins(prefix, width, height, maxMB, env, k);
    }
  }

  /** One 400 x 300 image cropped to 300 x 300 within the limit gives a single entry under its own name. */
  lemma SingleImageScenario(file: File, env: Env, blob: seq<byte>)
    requires env.decode(file) == Some(Bitmap(400.0, 300.0)) && env.context(file)
    requires env.encode(file, Rect(50.0, 0.0, 300.0, 300.0), 300.0, 300.0) == Some(blob)
    requires |blob| <= 2 * 1048576
    ensures CropArchive([file], 300.0, 300.0, 2.0, env) == map[file.name := blob]
  {
    WideSourceSquareTarget();
    var empty: seq<File> := [];
    assert [file][..0] == empty;
  }

  /** The state of the `ImageCrop` component. */
  class ImageCrop {
    var images: seq<File>
    var maxFileSize: real
    var width: real
    var height: real

    /** No images yet; a 2 MB limit and a 300 x 300 target. */
    constructor ()
      ensures images == [] && maxFileSize == 2.0 && width == 300.0 && height == 300.0
    {
      images := [];
      maxFileSize := 2.0;
      width := 300.0;
      height := 300.0;
    }

    /** `onDrop`: the dropped files go after the ones already there, in order. */
    method OnDrop(acceptedFiles: seq<File>)
      modifies this
      ensures images == old(images) + acceptedFiles
      ensures maxFileSize == old(maxFileSize) && width == old(width) && height == old(height)
    {
      images := images + acceptedFiles;
    }

    /**
     * `handleCropAndCompress`: crops the images one after the other and
     * returns the archive that is then offered as "cropped-images.zip"
     * (also when it is empty).
     */
    method HandleCropAndCompress(env: Env) returns (zip: Archive)
      requires width > 0.0 && height > 0.0
      ensures zip == CropArchive(images, width, height, maxFileSize, env)
    {
      zip := map[];
      for i := 0 to |images|
        invariant zip == CropArchive(images[..i], width, height, maxFileSize, env)
      {
        assert images[..i + 1][..i] == images[..i];
        var croppedImage := CropAndResize(images[i], width, height, maxFileSize, env);
        if croppedImage.Success? {
          zip := zip[croppedImage.value.name := croppedImage.value.data];
        }
      }
      assert images[..|images|] == images;
    }
  }
}
