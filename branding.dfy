/**
 * The property branding component: every uploaded image is drawn on a
 * 1080 x 1080 canvas with the frame image over it, encoded as PNG and added
 * to one archive as "PQT-" followed by the image's name. Any exception ends
 * the whole run without an archive.
 */
module Branding {
  import opened Wrappers
  import opened Browser

  /**
   * The browser services a branding run uses.
   * - `decode`: whether `createImageBitmap` resolves for the file (it throws otherwise).
   * - `context`: whether the canvas hands out a 2D context.
   * - `encode`: clear the 1080 x 1080 canvas, draw the image and then the
   *   frame, each stretched to the whole canvas, and `toBlob` as PNG; `None`
   *   is a null blob, on which reading the bytes throws.
   */
  datatype Env = Env(
    decode: File -> bool,
    context: bool,
    encode: (File, File) -> Option<seq<byte>>)

  /** The archive entry name of a branded image. */
  function EntryName(image: File): (name: string)
    ensures |name| == |image.name| + 4 && name[..4] == "PQT-" && name[4..] == image.name
  {
    "PQT-" + image.name
  }

  /** Two entry names coincide exactly when the image names do. */
  lemma EntryNameInjective(a: File, b: File)
    ensures EntryName(a) == EntryName(b) <==> a.name == b.name
  {
    if EntryName(a) == EntryName(b) {
      assert a.name == EntryName(a)[4..];
    }
  }

  /** The PNG bytes for one image under `frame`, or `None` when a step throws. */
  function Compose(image: File, frame: File, env: Env): Option<seq<byte>>
  {
    if !env.decode(image) then None else env.encode(image, frame)
  }

  /**
   * The archive the per-image loop builds, or `None` when one of the images
   * throws: entries are added in order, a repeated name replacing the earlier
   * entry, and nothing is filtered by size.
   */
  function BrandArchive(images: seq<File>, frame: File, env: Env): (r: Option<Archive>)
    ensures r.Some? ==> |r.value| <= |images|
    decreases |images|
  {
    if images == [] then Some(map[])
    else
      match BrandArchive(images[..|images| - 1], frame, env)
      case None => None
      case Some(zip) =>
        var image := images[|images| - 1];
        match Compose(image, frame, env)
        case None => None
        case Some(bytes) => Some(zip[EntryName(image) := bytes])
  }

  /** The run yields no archive exactly when some image throws. */
  lemma {:induction false} BrandArchiveAborts(images: seq<File>, frame: File, env: Env)
    ensures BrandArchive(images, frame, env).None? <==>
              exists k :: 0 <= k < |images| && Compose(images[k], frame, env).None?
  {
    if images != [] {
      var prefix := images[..|images| - 1];
      BrandArchiveAborts(prefix, frame, env);
      if exists k :: 0 <= k < |prefix| && Compose(prefix[k], frame, env).None? {
        var k :| 0 <= k < |prefix| && Compose(prefix[k], frame, env).None?;
        assert images[k] == prefix[k];
      } else {
        forall k | 0 <= k < |images| - 1
          ensures Compose(images[k], frame, env).Some?
        {
          assert images[k] == prefix[k];
        }
      }
    }
  }

  /**
   * When no image throws, the archive has one entry per distinct name, each
   * named "PQT-" followed by the name of one of the images, with no filtering.
   */
  lemma {:induction false} BrandArchiveKeys(images: seq<File>, frame: File, env: Env)
    requires BrandArchive(images, frame, env).Some?
    ensures BrandArchive(images, frame, env).value.Keys == set image | image in images :: EntryName(image)
    ensures forall name :: name in BrandArchive(images, frame, env).value ==>
              exists image :: image in images && name == "PQT-" + image.name
  {
    if images != [] {
      var prefix, last := images[..|images| - 1], images[|images| - 1];
      assert images == prefix + [last];
      BrandArchiveKeys(prefix, frame, env);
    }
  }

  /** An image whose name no later image shares is in the archive with its own bytes. */
  lemma {:induction false} BrandArchiveLastWins(images: seq<File>, frame: File, env: Env, k: nat)
    requires BrandArchive(images, frame, env).Some?
    requires k < |images|
    requires forall j :: k < j < |images| ==> images[j].name != images[k].name
    ensures Compose(images[k], frame, env).Some?
    ensures EntryName(images[k]) in BrandArchive(images, frame, env).value
    ensures BrandArchive(images, frame, env).value[EntryName(images[k])] == Compose(images[k], frame, env).value
  {
    var prefix := images[..|images| - 1];
    if k < |images| - 1 {
      assert prefix[k] == images[k];
      forall j | k < j < |prefix|
        ensures prefix[j].name != prefix[k].name
      {
        assert prefix[j] == images[j];
      }
      BrandArchiveLastWins(prefix, frame, env, k);
      var last := images[|images| - 1];
      EntryNameInjective(last, images[k]);
    }
  }

  /** The state of the `ImageUploader` component. */
  class ImageUploader {
    var images: seq<File>
    var frame: Option<File>
    var processing: bool

    /** No images, no frame yet (the default frame arrives later), not processing. */
    constructor ()
      ensures images == [] && frame == None && !processing
    {
      images := [];
      frame := None;
      processing := false;
    }

    /** The inputs a run needs: a frame and at least one image. */
    predicate RunGuard()
      reads this
    {
      frame.Some? && |images| > 0
    }

    /** Whether the "Process Images" button is enabled: the run's inputs are there and no run is in progress. */
    predicate ButtonEnabled()
      reads this
    {
      RunGuard() && !processing
    }

    /** The fetch of the bundled frame completed: it becomes the frame "default-image.png". */
    method DefaultFrameLoaded(blob: seq<byte>, mediaType: string)
      modifies this
      ensures frame == Some(File("default-image.png", mediaType, blob))
      ensures images == old(images) && processing == old(processing)
    {
      frame := Some(File("default-image.png", mediaType, blob));
    }

    /** `handleImageUpload`: the chosen files, if any, go after the existing ones. */
    method HandleImageUpload(files: Option<seq<File>>)
      modifies this
      ensures images == if files.Some? then old(images) + files.value else old(images)
      ensures frame == old(frame) && processing == old(processing)
    {
      if files.Some? {
        images := images + files.value;
      }
    }

    /** `handleFrameUpload`: the first chosen file, if there is one, replaces the frame. */
    method HandleFrameUpload(files: Option<seq<File>>)
      modifies this
      ensures frame == if files.Some? && |files.value| > 0 then Some(files.value[0]) else old(frame)
      ensures images == old(images) && processing == old(processing)
    {
      if files.Some? && |files.value| > 0 {
        frame := Some(files.value[0]);
      }
    }

    /** `removeImage`: drops the image at `index`; any other index changes nothing. */
    method RemoveImage(index: int)
      modifies this
      ensures images == WithoutIndex(old(images), index)
      ensures 0 <= index < |old(images)| ==> images == old(images)[..index] + old(images)[index + 1..]
      ensures !(0 <= index < |old(images)|) ==> images == old(images)
      ensures frame == old(frame) && processing == old(processing)
    {
      images := WithoutIndex(images, index);
    }

    /** `removeFrame`. */
    method RemoveFrame()
      modifies this
      ensures frame == None
      ensures images == old(images) && processing == old(processing)
    {
      frame := None;
    }

    /**
     * `processImages`. Without a frame or images it does nothing. Otherwise it
     * sets `processing`; without a canvas context it returns at once and
     * leaves `processing` set. Else it decodes the frame and brands the images
     * one after the other, delivering "PQT-images.zip" unless something threw,
     * and clears `processing`.
     */
    method ProcessImages(env: Env) returns (delivered: Option<Archive>)
      modifies this
      ensures images == old(images) && frame == old(frame)
      ensures !old(RunGuard()) ==> delivered == None && processing == old(processing)
      ensures old(RunGuard()) && !env.context ==> delivered == None && processing && !ButtonEnabled()
      ensures old(RunGuard()) && env.context ==>
                && !processing
                && delivered == if env.decode(frame.value) then BrandArchive(images, frame.value, env) else None
    {
      if frame.None? || |images| == 0 {
        return None;
      }
      processing := true;
      if !env.context {
        return None;
      }
      var frameImg := frame.value;
      if !env.decode(frameImg) {
        processing := false;
        return None;
      }
      var batch := images;
      var zip: Archive := map[];
      var aborted := false;
      var i := 0;
      while i < |batch|
        invariant 0 <= i <= |batch|
        invariant images == batch && frame == Some(frameImg)
        invariant processing && !ButtonEnabled()
        invariant BrandArchive(batch[..i], frameImg, env) == Some(zip)
      {
        var image := batch[i];
        assert batch[..i + 1][..i] == batch[..i];
        if !env.decode(image) {
          aborted := true;
          break;
        }
        var blob := env.encode(image, frameImg);
        if blob.None? {
          aborted := true;
          break;
        }
        zip := zip["PQT-" + image.name := blob.value];
        i := i + 1;
      }
      if aborted {
        assert i < |batch| && Compose(batch[i], frameImg, env).None?;
        BrandArchiveAborts(batch, frameImg, env);
        delivered := None;
      } else {
        assert batch[..|batch|] == batch;
        delivered := Some(zip);
      }
      processing := false;
    }
  }

  /**
   * The index filter of `removeImage`: keeps every element whose position
   * differs from `index`, in order.
   */
  function WithoutIndex<T>(s: seq<T>, index: int): (r: seq<T>)
    ensures 0 <= index < |s| ==> r == s[..index] + s[index + 1..]
    ensures !(0 <= index < |s|) ==> r == s
    decreases |s|
  {
    if s == [] then []
    else WithoutIndex(s[..|s| - 1], index) + (if |s| - 1 != index then [s[|s| - 1]] else [])
  }

  /**
   * A run that meets a missing canvas context leaves the button disabled for
   * good: later uploads of images or of a new frame do not enable it again.
   */
  method MissingContextDisablesButton(frameFile: File, firstBatch: seq<File>, env: Env,
                                      secondBatch: seq<File>, newFrame: File)
    returns (enabled: bool)
    requires |firstBatch| > 0 && !env.context
    ensures !enabled
  {
    var uploader := new ImageUploader();
    uploader.HandleFrameUpload(Some([frameFile]));
    uploader.HandleImageUpload(Some(firstBatch));
    assert uploader.ButtonEnabled();
    var delivered := uploader.ProcessImages(env);
    assert delivered == None;
    uploader.HandleImageUpload(Some(secondBatch));
    uploader.HandleFrameUpload(Some([newFrame]));
    enabled := uploader.ButtonEnabled();
  }
}
