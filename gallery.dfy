/**
 * The gallery of known faces and its loading at start-up
 * (`load_known` in attendance_capture.py).
 *
 * An embedding is a fixed-length vector of floats produced by the face
 * embedder; the model never looks inside it.  The stored file is a pickled
 * dictionary whose "encodings" and "names" entries may each be absent.
 */
module Gallery {
  import opened Common

  type Encoding = seq<real>

  /** Positionally paired reference embeddings and identity labels. */
  datatype Gallery = Gallery(encodings: seq<Encoding>, names: seq<string>)

  /**
   * A gallery the matcher can use: at least one embedding, and a label at
   * every embedding's position.  Labels past the last embedding are never
   * looked up, so they do no harm.
   */
  predicate ValidGallery(g: Gallery) {
    0 < |g.encodings| <= |g.names|
  }

  /** The encodings file as found on disk. */
  datatype EncodingsFile =
    | NoFile
    | Stored(encodings: Option<seq<Encoding>>, names: Option<seq<string>>)

  datatype LoadError =
    | GalleryNotFound   // the file does not exist
    | GalleryEmpty      // the file holds no encodings
    | NamesMismatch     // some encoding has no label

  /**
   * `load_known` exactly as written: a missing file and an empty encodings
   * list are rejected, and nothing else is checked.
   */
  function LoadKnownAsWritten(file: EncodingsFile): (r: Result<Gallery, LoadError>)
    ensures file.NoFile? ==> r == Failure(GalleryNotFound)
    ensures file.Stored? && |file.encodings.GetOr([])| == 0 ==> r == Failure(GalleryEmpty)
    ensures r.Success? <==> file.Stored? && |file.encodings.GetOr([])| > 0
    ensures r.Success? ==> r.value == Gallery(file.encodings.GetOr([]), file.names.GetOr([]))
  {
    match file
    case NoFile => Failure(GalleryNotFound)
    case Stored(encodings, names) =>
      var known := encodings.GetOr([]);
      if |known| == 0 then Failure(GalleryEmpty)
      else Success(Gallery(known, names.GetOr([])))
  }

  /**
   * A file with one encoding and no "names" entry loads without complaint,
   * yet the matcher's lookup of the label at the best index (index 0 here)
   * has no label to return.
   */
  lemma LoadKnownAcceptsUnpairedFile()
    ensures var r := LoadKnownAsWritten(Stored(Some([[0.0]]), None));
      r.Success? && |r.value.encodings| == 1 && |r.value.names| == 0 && !ValidGallery(r.value)
  {
  }

  /**
   * `load_known` with the check it evidently needs: the file must exist,
   * hold at least one encoding, and hold a label for every encoding.
   * Everything else in the model loads the gallery this way.
   */
  function LoadKnown(file: EncodingsFile): (r: Result<Gallery, LoadError>)
    ensures r == Failure(GalleryNotFound) <==> file.NoFile?
    ensures r == Failure(GalleryEmpty) <==> file.Stored? && |file.encodings.GetOr([])| == 0
    ensures r == Failure(NamesMismatch) <==>
      file.Stored? && |file.names.GetOr([])| < |file.encodings.GetOr([])|
    ensures r.Success? <==>
      file.Stored? && 0 < |file.encodings.GetOr([])| <= |file.names.GetOr([])|
    ensures r.Success? ==> ValidGallery(r.value)
    ensures r.Success? ==> r == LoadKnownAsWritten(file)
  {
    match file
    case NoFile => Failure(GalleryNotFound)
    case Stored(encodings, names) =>
      var known := encodings.GetOr([]);
      var labels := names.GetOr([]);
      if |known| == 0 then Failure(GalleryEmpty)
      else if |labels| < |known| then Failure(NamesMismatch)
      else Success(Gallery(known, labels))
  }

  /** What was stored is what is loaded back, whenever it is usable. */
  lemma LoadKnownReturnsStoredGallery(g: Gallery)
    requires ValidGallery(g)
    ensures LoadKnown(Stored(Some(g.encodings), Some(g.names))) == Success(g)
  {
  }
}
