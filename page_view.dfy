/** What `createPageElement` in frontend/script.js builds for one page of the
    backend's response: the page number, the page text, and then either the
    illustration or, when generation failed, a textual placeholder. */
module PageView {
  import opened Wrappers
  import Decimal

  const ApiBaseUrl: string := "http://localhost:8000"

  /** Prefix of every illustration URL. */
  const ImagesBase: string := ApiBaseUrl + "/images/"

  /** The value of `image_filename` by which the backend reports a failed page. */
  const ErrorSentinel: string := "error"

  /** One entry of the response's `images` list; a field the backend leaves out is `None`. */
  datatype PageData = PageData(
    pageNumber: nat,
    pageText: string,
    imageFilename: Option<string>,
    imagePath: Option<string>)

  /** The third child of a page: an image element or an error line. */
  datatype Media =
    | Image(src: string, alt: string)
    | Placeholder(message: string)

  datatype PageElement = PageElement(number: nat, text: string, media: Media)

  /** How a template literal renders a field that may be missing (`${undefined}`). */
  function Interpolated(v: Option<string>): string
  {
    match v
    case None => "undefined"
    case Some(s) => s
  }

  /** `${API_BASE_URL}/images/${filename}`. */
  function ImageSource(filename: string): (src: string)
    ensures |src| == |ImagesBase| + |filename|
  {
    ImagesBase + filename
  }

  /** The file an illustration URL points at, if it is one. */
  function FilenameOf(src: string): (f: Option<string>)
    ensures f.Some? <==> |src| >= |ImagesBase| && src[..|ImagesBase|] == ImagesBase
    ensures f.Some? ==> ImageSource(f.value) == src
  {
    if |src| >= |ImagesBase| && src[..|ImagesBase|] == ImagesBase then Some(src[|ImagesBase|..]) else None
  }

  /** Every file name can be read back from its URL, so distinct files get distinct URLs. */
  lemma FilenameOfImageSource(filename: string)
    ensures FilenameOf(ImageSource(filename)) == Some(filename)
  {
    var src := ImageSource(filename);
    assert src[..|ImagesBase|] == ImagesBase;
    assert src[|ImagesBase|..] == filename;
  }

  /** The image-or-placeholder choice of `createPageElement`. */
  function CreatePageElement(page: PageData): (e: PageElement)
    ensures e.number == page.pageNumber && e.text == page.pageText
    ensures e.media.Placeholder? <==> page.imageFilename == Some(ErrorSentinel)
    ensures e.media.Image? ==> FilenameOf(e.media.src) == Some(Interpolated(page.imageFilename))
    ensures e.media.Image? ==> e.media.alt == "Page " + Decimal.NatToString(page.pageNumber) + " illustration"
    ensures e.media.Placeholder? ==> e.media.message == "\U{274C} " + Interpolated(page.imagePath)
  {
    var media :=
      if page.imageFilename != Some(ErrorSentinel) then
        var filename := Interpolated(page.imageFilename);
        FilenameOfImageSource(filename);
        Image(ImageSource(filename), "Page " + Decimal.NatToString(page.pageNumber) + " illustration")
      else
        Placeholder("\U{274C} " + Interpolated(page.imagePath));
    PageElement(page.pageNumber, page.pageText, media)
  }
}
