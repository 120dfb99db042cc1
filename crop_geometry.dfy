/**
 * The center-crop rectangle that `cropAndResizeImage` feeds to `drawImage`:
 * the largest rectangle of the target aspect ratio that fits the source,
 * centred along the axis on which the source is too long.
 */
module CropGeometry {

  /** A source rectangle in image pixels: top-left corner and size. */
  datatype Rect = Rect(x: real, y: real, width: real, height: real)

  /** Multiplying both sides of `a / b > c` by the positive `b`. */
  lemma RatioBound(a: real, b: real, c: real)
    requires b > 0.0
    ensures a / b > c <==> a > b * c
  {
    assert a == (a / b) * b;
    if a / b > c {
      assert (a / b) * b > c * b;
    } else {
      assert (a / b) * b <= c * b;
    }
  }

  /** Keeping the full height `h` of a source wider than aspect `t`. */
  lemma KeepHeight(w: real, h: real, t: real)
    requires w > 0.0 && h > 0.0 && t > 0.0 && w / h > t
    ensures 0.0 < h * t < w && (h * t) / h == t
  {
    RatioBound(w, h, t);
  }

  /** Keeping the full width `w` of a source not wider than aspect `t`. */
  lemma KeepWidth(w: real, h: real, t: real)
    requires w > 0.0 && h > 0.0 && t > 0.0 && w / h <= t
    ensures 0.0 < w / t <= h && w / (w / t) == t
  {
    RatioBound(w, h, t);
    assert w <= h * t;
    RatioBound(w, t, h);
    assert w == (w / t) * t;
  }

  /**
   * The crop rectangle for a source of `imgWidth` x `imgHeight` pixels and a
   * target of `width` x `height`. A source relatively wider than the target
   * keeps its full height; any other source keeps its full width.
   */
  function CenterCrop(imgWidth: real, imgHeight: real, width: real, height: real): (r: Rect)
    requires imgWidth > 0.0 && imgHeight > 0.0 && width > 0.0 && height > 0.0
    // the rectangle lies inside the source and is not empty
    ensures 0.0 <= r.x && 0.0 <= r.y
    ensures r.x + r.width <= imgWidth && r.y + r.height <= imgHeight
    ensures r.width > 0.0 && r.height > 0.0
    // it has exactly the target aspect ratio
    ensures r.width / r.height == width / height
    // it is centred in both directions
    ensures 2.0 * r.x + r.width == imgWidth && 2.0 * r.y + r.height == imgHeight
    // which side is kept whole
    ensures imgWidth / imgHeight > width / height ==> r.height == imgHeight && r.y == 0.0
    ensures imgWidth / imgHeight <= width / height ==> r.width == imgWidth && r.x == 0.0
  {
    var aspectRatio := imgWidth / imgHeight;
    var targetAspectRatio := width / height;
    if aspectRatio > targetAspectRatio then
      var cropHeight := imgHeight;
      var cropWidth := cropHeight * targetAspectRatio;
      KeepHeight(imgWidth, imgHeight, targetAspectRatio);
      Rect((imgWidth - cropWidth) / 2.0, 0.0, cropWidth, cropHeight)
    else
      var cropWidth := imgWidth;
      var cropHeight := cropWidth / targetAspectRatio;
      KeepWidth(imgWidth, imgHeight, targetAspectRatio);
      Rect(0.0, (imgHeight - cropHeight) / 2.0, cropWidth, cropHeight)
  }

  /** A source that already has the target aspect ratio is not cropped at all. */
  lemma FullFrameWhenAspectMatches(imgWidth: real, imgHeight: real, width: real, height: real)
    requires imgWidth > 0.0 && imgHeight > 0.0 && width > 0.0 && height > 0.0
    requires imgWidth / imgHeight == width / height
    ensures CenterCrop(imgWidth, imgHeight, width, height) == Rect(0.0, 0.0, imgWidth, imgHeight)
  {
    var r := CenterCrop(imgWidth, imgHeight, width, height);
    assert r.width == imgWidth && r.x == 0.0;
    assert r.width / r.height == imgWidth / imgHeight;
    assert r.height == imgHeight by {
      assert r.width == (r.width / r.height) * r.height;
      assert imgWidth == (imgWidth / imgHeight) * imgHeight;
    }
  }

  /** A 400 x 300 source cropped for a 300 x 300 target loses 50 pixels on each side. */
  lemma WideSourceSquareTarget()
    ensures CenterCrop(400.0, 300.0, 300.0, 300.0) == Rect(50.0, 0.0, 300.0, 300.0)
  {
  }
}
