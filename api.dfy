/** The records exchanged between the renderer and the main process (src/common/api.ts),
    plus the Option type used wherever the source has `null` or `undefined`. */
module Api {

  datatype Option<+T> = None | Some(value: T) {
    function GetOr(default: T): T {
      match this
      case Some(v) => v
      case None => default
    }
  }

  /** A file found by a recursive directory listing. */
  datatype FileDetail = FileDetail(name: string, path: string, url: string)

  /** A request for the derived metadata of one image, for a viewport height. */
  datatype JpegMetaRequest = JpegMetaRequest(path: string, windowHeight: int)

  /** One encoded representation of an image with its pixel size. */
  datatype JpegSrcSet = JpegSrcSet(src: string, width: int, height: int)

  /** Derived metadata; every field but `src` is optional, as in the TypeScript interface. */
  datatype JpegMeta = JpegMeta(
    path: Option<string>,
    src: string,
    width: Option<int>,
    height: Option<int>,
    srcSet: Option<seq<JpegSrcSet>>)

  /** The `{ src: "" }` placeholder shown for an item whose metadata is not available. */
  const Placeholder: JpegMeta := JpegMeta(None, "", None, None, None)

  /** A directory setting is usable when it is neither null nor the empty string (JavaScript truthiness). */
  predicate IsSet(directory: Option<string>) {
    directory.Some? && directory.value != ""
  }
}
