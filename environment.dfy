/** What the engine asks of the world outside it: the filesystem, the PDF loader and writer, and
    the image decoder. Each is an oracle whose answer the model takes as given. */
module Environment {
  import opened Wrappers
  import opened Pdf

  datatype Env = Env(
    /** Whether a file exists at a path. */
    fileExists: string -> bool,
    /** Opening a PDF: its pages, or None when opening raises. */
    openPdf: string -> Option<seq<Page>>,
    /** Decoding a base64 payload into an image, or None when decoding fails. */
    decodeImage: string -> Option<Image>,
    /** Whether writing a decoded image as the temporary PNG at a path, and removing it
        afterwards, both succeed; decoding is lazy, so this can fail for an image that decoded. */
    tempImageOk: (string, Image) -> bool,
    /** Whether creating the destination directory and saving these pages to a path succeed. */
    save: (string, seq<Page>) -> bool)
}
