/// The parts of Go's image packages that tscrop and tsresize name
/// without doing pixel work: image.Point and the encoders `-type` selects.
module Imaging {
  /// image.Point.
  datatype Point = Point(x: int, y: int)

  /// The encoders: JPEG at a quality, TIFF with Deflate or without
  /// compression, and PNG.
  datatype Encoder = Jpeg(quality: int) | TiffDeflate | TiffUncompressed | Png
}
