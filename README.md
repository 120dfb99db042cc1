# Bulk image crop and property branding, modelled in Dafny

The repository is a small set of browser tools built on React. Two components hold its logic:

- **ImageCrop** (`components/image-crop.tsx`). The user drops images. For each one, the component computes a center-crop rectangle that has the aspect ratio of the target width and height. It draws that rectangle onto a fresh canvas of the target size and asks the canvas for a blob in the file's declared media type. A browser that cannot encode that type falls back to PNG, but the new file is still labelled with the declared type. The result is kept only if it is at most `maxFileSize` megabytes (2 by default). Accepted results go into a zip archive under the original file name, and the archive "cropped-images.zip" is offered for download. Every per-image failure resolves to null, so that image is simply absent.
- **ImageUploader** (`components/image-uploader.tsx`). The user uploads images and a frame. A run needs a frame and at least one image. It sets `processing`, draws each image and then the frame on a 1080 x 1080 canvas, encodes the canvas as PNG and stores it in the archive as `"PQT-" + name`. Then it delivers "PQT-images.zip" and clears `processing`. There is no size limit. Any exception inside the `try` ends the run with no archive. If the canvas has no 2D context, the early `return` leaves `processing` set, and the button stays disabled from then on.

How each part is modelled:

- `CropGeometry.CenterCrop` is the crop arithmetic, written over `real`.
- `Crop` has the size gate, the per-image outcome `CropAndResize` (a `Result` naming which null path was taken), and the batch archive: `CropArchive` is a left fold, and the method `ImageCrop.HandleCropAndCompress` is the loop that is proved to compute it.
- `Branding` has the branding run: `BrandArchive` is a left fold that yields `None` as soon as one image throws. The class `ImageUploader` holds `images`, `frame` and `processing`, with one method per handler. Its loop in `ProcessImages` carries the invariant that `processing` is set and the button is disabled at every step of the run.
- An archive is a map from entry name to bytes. Adding an entry under a name that is already present replaces the old one, as `zip.file` does.
- The browser services are fields of an `Env` value, one per component: reading and decoding a file, getting a canvas context, and drawing plus encoding. Decoding and encoding may succeed or fail independently for each file. In the crop component, a canvas is created per image, so the context may be missing for one image only. In the branding component, one canvas serves the whole run, so its context is a single flag.

Where the system's design description and the code disagree, the model follows the code:

- The design says a branding run recovers from a failure on one item and continues. The code aborts the whole run and delivers nothing (`image-uploader.tsx:63-111`).
- The design says a missing drawing surface skips only that item. In branding mode, the code returns from the whole run and leaves `processing` set (`image-uploader.tsx:68`).
- The design says a run started while the overlay is still loading is rejected with an error. The code just returns when `frame` is null (`image-uploader.tsx:60`).
- The design asks for a fresh drawing surface per item. The branding code reuses one canvas and clears it before each image. Pixels are not modelled, so this makes no difference to the model.

## Model

| member | source | states |
|---|---|---|
| CropGeometry.CenterCrop | components/image-crop.tsx:56-73 | The rectangle lies inside the source and is not empty. It has exactly the target aspect ratio. It is centred: 2x + width equals the image width, and likewise for y. A source wider than the target keeps its full height with y = 0; any other source keeps its full width with x = 0 |
| CropGeometry.FullFrameWhenAspectMatches | components/image-crop.tsx:61-73 | A source that already has the target aspect ratio gets the full-frame rectangle (0, 0, imgWidth, imgHeight) |
| CropGeometry.WideSourceSquareTarget | components/image-crop.tsx:56-66 | A 400 x 300 source with a 300 x 300 target is cropped to (50, 0, 300, 300) |
| Crop.WithinLimit | components/image-crop.tsx:97 | The size gate as the code writes it: the byte count divided by 1024 twice is at most the limit in megabytes (a definition, with no contract of its own) |
| Crop.WithinLimitBytes | components/image-crop.tsx:97 | The gate `size / 1024 / 1024 <= maxFileSize` holds iff size <= maxFileSize * 1048576 bytes |
| Crop.CropAndResize | components/image-crop.tsx:36-131 | A cropped file keeps the original name and media type, passes the size gate, and holds the bytes the encoder produced for the center-crop rectangle of the decoded image. A read or decode error is the decode failure, and only that. An oversize failure names the file and the limit |
| Crop.Accepted | components/image-crop.tsx:26 | Whether an image's result is non-null, so that it is added to the archive (a definition: `CropAndResize` succeeds) |
| Crop.AcceptedCount | components/image-crop.tsx:24-29 | The number of images whose result is non-null, counting repeated names separately. It is never more than the number of images |
| Crop.SizeGateDecides | components/image-crop.tsx:89-104 | Once decoding, the context and encoding have succeeded, the item is accepted iff its size / 1024 / 1024 <= maxFileSize; otherwise it is refused as too large |
| Crop.CropArchive | components/image-crop.tsx:21-29 | A left fold over the images that adds each accepted result under its file name, a later entry replacing an earlier one. The archive never has more entries than there are accepted images, and so never more than there are images |
| Crop.CropArchiveKeys | components/image-crop.tsx:24-29 | The archive's names are exactly the names of the accepted images. An image that fails on every path adds nothing |
| Crop.CropArchiveLastWins | components/image-crop.tsx:24-29 | Take an accepted image whose name no later accepted image shares. It is stored under its original name with its own cropped bytes. A later duplicate that fails does not remove it |
| Crop.SingleImageScenario | components/image-crop.tsx:21-29 | One 400 x 300 image, a 300 x 300 target and a 2 MB limit give a single entry under the file's own name |
| Crop.ImageCrop.constructor | components/image-crop.tsx:12-15 | The component starts with no images, a limit of 2 MB and a 300 x 300 target |
| Crop.ImageCrop.OnDrop | components/image-crop.tsx:17-19 | The dropped files go after the existing ones, in order. Nothing else changes |
| Crop.ImageCrop.HandleCropAndCompress | components/image-crop.tsx:21-34 | The loop's archive is the fold `CropArchive` over the current images, target size and limit |
| Branding.EntryName | components/image-uploader.tsx:99 | An entry name is "PQT-" followed by exactly the image's name |
| Branding.EntryNameInjective | components/image-uploader.tsx:99 | Two entry names are equal exactly when the two image names are equal, so the prefix never merges distinct names |
| Branding.Compose | components/image-uploader.tsx:81-98 | One image's PNG bytes, or none when `createImageBitmap` throws or the blob is null (a definition; `BrandArchiveAborts` and `BrandArchiveLastWins` state its role in the run) |
| Branding.BrandArchive | components/image-uploader.tsx:78-100 | A left fold over the images that adds each composed image under "PQT-" + name, a later entry replacing an earlier one, and gives no archive once an image throws. A delivered archive never has more entries than there are images |
| Branding.BrandArchiveAborts | components/image-uploader.tsx:63-111 | The run yields no archive iff some image's decode or encode throws (both directions) |
| Branding.BrandArchiveKeys | components/image-uploader.tsx:80-100 | When nothing throws, the archive's names are exactly the set of "PQT-" + name over all images, with no size filtering. Every name is "PQT-" + the name of some processed image |
| Branding.BrandArchiveLastWins | components/image-uploader.tsx:80-100 | When nothing throws, an image whose name no later image shares is stored under "PQT-" + name with its own composed bytes |
| Branding.ImageUploader.constructor | components/image-uploader.tsx:12-27 | The component starts with no images, no frame (the default frame arrives later) and `processing` false |
| Branding.ImageUploader.RunGuard | components/image-uploader.tsx:60 | The inputs a run needs: a frame is present and the image list is non-empty (a definition; `ProcessImages` states what happens when it fails) |
| Branding.ImageUploader.ButtonEnabled | components/image-uploader.tsx:227 | The button's enabling condition: `RunGuard` holds and `processing` is false (a definition; `ProcessImages` and `MissingContextDisablesButton` prove when it is false) |
| Branding.ImageUploader.DefaultFrameLoaded | components/image-uploader.tsx:16-23 | When the bundled frame arrives, it becomes the frame "default-image.png" with the fetched bytes and type. Nothing else changes |
| Branding.ImageUploader.HandleImageUpload | components/image-uploader.tsx:29-33 | The chosen files go after the existing list. With no file list, nothing changes |
| Branding.ImageUploader.HandleFrameUpload | components/image-uploader.tsx:41-45 | The first chosen file replaces the frame. An empty or missing list changes nothing |
| Branding.ImageUploader.RemoveImage | components/image-uploader.tsx:47-49 | Exactly the element at the index is removed and the rest keep their order. An out-of-range index leaves the list unchanged |
| Branding.ImageUploader.RemoveFrame | components/image-uploader.tsx:55-57 | The frame is cleared. Nothing else changes |
| Branding.ImageUploader.ProcessImages | components/image-uploader.tsx:59-114 | Without a frame or images: nothing changes and nothing is delivered. Without a canvas context: nothing is delivered and `processing` stays true. After the missing-context return the button is disabled. Otherwise `processing` is true and the button disabled throughout the loop (loop invariants), and `processing` is false afterwards. What is delivered is the `BrandArchive` fold, or nothing if the frame or any image throws. The images and the frame are unchanged |
| Branding.WithoutIndex | components/image-uploader.tsx:48 | The index filter equals `s[..index] + s[index+1..]` for an index in range, and `s` itself otherwise |
| Branding.MissingContextDisablesButton | components/image-uploader.tsx:60-68 | After a run that met a missing canvas context, later uploads of images or of a new frame leave the button disabled |

## Left out

- CropGeometry.CenterCrop: requires the image size and the target size to be positive. The code has no such guard: the width and height inputs can hold 0, a negative number or NaN, and a zero size would make the JavaScript arithmetic produce NaN or Infinity.
- Crop.CropAndResize: requires a positive target width and height, for the same reason.
- Crop.SizeGateDecides: requires a positive target width and height, for the same reason.
- Crop.Accepted: requires a positive target width and height, for the same reason.
- Crop.AcceptedCount: requires a positive target width and height, for the same reason.
- Crop.CropArchive: requires a positive target width and height, for the same reason.
- Crop.CropArchiveKeys: requires a positive target width and height, for the same reason.
- Crop.CropArchiveLastWins: requires a positive target width and height, for the same reason.
- Crop.ImageCrop.HandleCropAndCompress: requires a positive target width and height, for the same reason.
- Decoded images have positive natural dimensions (the `Dim` type of `Bitmap`). An image with a zero natural size is not modelled.
- Arithmetic is over exact reals, not IEEE doubles. Dividing an integer byte count by 1024 twice is exact in doubles, so the size gate is unaffected. The crop rectangle's rounding is not modelled.
- Pixel content (`drawImage`, `clearRect`), the canvas size assignment and the actual encoding (`toBlob`, quality 0.8, PNG). All of these are the uninterpreted `encode` of each `Env`.
- The zip container, the serialisation by `generateAsync` and the downloads (`saveAs`, the anchor click, object URLs). The archive is the name-to-bytes map. In branding mode, a failing `generateAsync` is not modelled.
- `alert` and `console.error`. The `Crop.Failure` value records which of these paths was taken.
- The `fetch` of the default frame. Only its successful completion is modelled (`DefaultFrameLoaded`); a failed fetch only logs.
- Asynchrony. The awaits run strictly one after another and are written as a plain loop. Another handler running in the middle of a run is not modelled. In `ImageUploader` the button is disabled while `processing` is set, which rules out a second run.
- Overlapping crop runs. `ImageCrop` has no `processing` flag and its "Crop and Download" button is never disabled (`components/image-crop.tsx:211`), so a second click during a run starts a second run whose awaits interleave with the first. The model treats each `HandleCropAndCompress` call as running alone.
- The case where a `FileReader` load has an empty result, which would leave the promise unresolved. Reading a data URL always yields a non-empty string.
- The logo state and its handlers (`handleLogoUpload`, `removeLogo`). The logo drawing is commented out and `processImages` never reads the logo.
- The setters for width, height and the maximum file size (input `onChange` handlers). The maximum-size input is commented out.
- JSX rendering, previews and the page components under `app/`: layout and navigation only.
- The `image/*` accept filter of the drop zone, which belongs to the drop-zone library.
