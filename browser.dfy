/**
 * The browser-side values the two image components work on: uploaded files,
 * decoded bitmaps and the archive that JSZip assembles.
 */
module Browser {

  /** One octet of an encoded image. */
  newtype byte = b: int | 0 <= b < 256

  /** A `File` object: its name, its declared media type and its bytes. */
  datatype File = File(name: string, mediaType: string, data: seq<byte>)

  /** A positive length in pixels. */
  type Dim = r: real | r > 0.0 witness 1.0

  /** A decoded image, of which only the natural size matters here. */
  datatype Bitmap = Bitmap(width: Dim, height: Dim)

  /**
   * A JSZip instance before it is serialised: entry name to entry content.
   * `zip.file(name, data)` on an existing name replaces that entry.
   */
  type Archive = map<string, seq<byte>>
}
