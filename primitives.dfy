/** The image-library operations the modifiers delegate to, whose code is not
    part of this model: decoding a file, the colour filters, resampling,
    compositing and the HSV conversion. They are passed around as one record
    of functions, so every statement about a modifier holds whatever these
    operations do. */
module Primitives {
  import opened Wrappers
  import opened Images
  import opened Positions

  /** The resampling filters of the `image` crate's `FilterType`. */
  datatype FilterType = Nearest | Triangle | CatmullRom | Gaussian | Lanczos3

  datatype Library = Library(
    /** `Image::open`: `None` when the file cannot be read or decoded. */
    open: string -> Option<Image>,
    grayscale: Image -> Image,
    /** `huerotate` by whole degrees. */
    huerotate: (Image, int) -> Image,
    brighten: (Image, int) -> Image,
    contrast: (Image, real) -> Image,
    blur: (Image, real) -> Image,
    invert: Image -> Image,
    /** `Image::resize`: `None` when the library refuses the size. */
    resize: (Image, Position, FilterType) -> Option<Image>,
    /** `Image::overlay`: `top` drawn over `bottom` at offset `at`. */
    overlay: (Image, Image, Position) -> Image,
    /** `Color::from_hsv`. */
    fromHsv: (real, real, real) -> Color
  )
}
