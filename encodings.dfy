/**
 * Building the gallery from a labelled image tree (`create_encodings` in
 * create_encodings.py): every directory under the dataset directory is a
 * person, and every image in it with a detectable face contributes that
 * face's embedding under the directory's name.
 *
 * The directory listing is an abstract input, and so is what the image
 * loader and the embedder made of each file: the embeddings they found or
 * the fact that they raised.
 */
module Encodings {
  import opened Common
  import opened Gallery

  /** What loading an image file and embedding its faces produced. */
  datatype ImageOutcome =
    | Faces(found: seq<Encoding>)  // one embedding per detected face, possibly none
    | Failed                       // the loader or the embedder raised

  datatype ImageFile = ImageFile(filename: string, outcome: ImageOutcome)

  /** An entry of the dataset directory: a person's directory, or some other file. */
  datatype DirEntry = DirEntry(name: string, isDir: bool, files: seq<ImageFile>)

  datatype Dataset = NoDataset | Dataset(entries: seq<DirEntry>)

  datatype BuildError =
    | DatasetNotFound  // the dataset directory does not exist
    | NoEncodings      // no image yielded an embedding

  /** The "n valid images encoded for <person>" line logged after each directory. */
  datatype PersonReport = PersonReport(name: string, count: nat)

  function LowerChar(c: char): char {
    if 'A' <= c <= 'Z' then (c as int + 32) as char else c
  }

  function Lower(s: string): (r: string)
    ensures |r| == |s|
    ensures forall i :: 0 <= i < |s| ==> r[i] == LowerChar(s[i])
  {
    seq(|s|, i requires 0 <= i < |s| => LowerChar(s[i]))
  }

  predicate EndsWith(s: string, suffix: string) {
    |suffix| <= |s| && s[|s| - |suffix|..] == suffix
  }

  /** Lower-casing leaves a suffix that has no upper-case letter in place. */
  lemma {:induction false} LowerKeepsSuffix(s: string, suffix: string)
    requires forall i :: 0 <= i < |suffix| ==> LowerChar(suffix[i]) == suffix[i]
    ensures EndsWith(s, suffix) ==> EndsWith(Lower(s), suffix)
  {
    if EndsWith(s, suffix) {
      var k := |s| - |suffix|;
      forall i | 0 <= i < |suffix| ensures Lower(s)[k..][i] == suffix[i] {
        assert s[k + i] == suffix[i];
      }
    }
  }

  /**
   * The extension test: ".png", ".jpg" or ".jpeg", in any letter case.  An
   * accepted name is at least four characters long, and a name ending in
   * one of the extensions as written is always accepted.
   */
  predicate IsImageName(filename: string)
    ensures IsImageName(filename) ==> 4 <= |filename|
    ensures EndsWith(filename, ".png") || EndsWith(filename, ".jpg") || EndsWith(filename, ".jpeg") ==>
      IsImageName(filename)
  {
    LowerKeepsSuffix(filename, ".png");
    LowerKeepsSuffix(filename, ".jpg");
    LowerKeepsSuffix(filename, ".jpeg");
    var lower := Lower(filename);
    EndsWith(lower, ".png") || EndsWith(lower, ".jpg") || EndsWith(lower, ".jpeg")
  }

  /** Letter case does not matter to the extension test. */
  lemma {:induction false} ImageNameIgnoresCase(filename: string)
    ensures IsImageName(Lower(filename)) == IsImageName(filename)
  {
    assert Lower(Lower(filename)) == Lower(filename);
  }

  /** The embedding a file contributes: the first face of an image file that yielded one. */
  function FileEncoding(f: ImageFile): (e: Option<Encoding>)
    ensures e.Some? <==> IsImageName(f.filename) && f.outcome.Faces? && |f.outcome.found| > 0
    ensures e.Some? ==> e.value == f.outcome.found[0]
  {
    if IsImageName(f.filename) && f.outcome.Faces? && |f.outcome.found| > 0
    then Some(f.outcome.found[0])
    else None
  }

  /** The embeddings a person's directory contributes, in listing order. */
  function PersonEncodings(files: seq<ImageFile>): seq<Encoding> {
    if files == [] then []
    else
      var last := files[|files| - 1];
      PersonEncodings(files[..|files| - 1]) + (if FileEncoding(last).Some? then [FileEncoding(last).value] else [])
  }

  function EntryEncodings(entry: DirEntry): seq<Encoding> {
    if entry.isDir then PersonEncodings(entry.files) else []
  }

  function Repeat(name: string, n: nat): (r: seq<string>)
    ensures |r| == n
    ensures forall i :: 0 <= i < n ==> r[i] == name
  {
    seq(n, _ => name)
  }

  /** All collected embeddings, directory by directory. */
  function GalleryEncodings(entries: seq<DirEntry>): seq<Encoding> {
    if entries == [] then []
    else GalleryEncodings(entries[..|entries| - 1]) + EntryEncodings(entries[|entries| - 1])
  }

  /** The label of each collected embedding: the name of the directory it came from. */
  function GalleryNames(entries: seq<DirEntry>): seq<string> {
    if entries == [] then []
    else
      var last := entries[|entries| - 1];
      GalleryNames(entries[..|entries| - 1]) + Repeat(last.name, |EntryEncodings(last)|)
  }

  /** The per-person log lines, one for each directory. */
  function Reports(entries: seq<DirEntry>): seq<PersonReport> {
    if entries == [] then []
    else
      var last := entries[|entries| - 1];
      Reports(entries[..|entries| - 1]) +
        (if last.isDir then [PersonReport(last.name, |PersonEncodings(last.files)|)] else [])
  }

  /** The outcome of building the gallery. */
  function BuildGallery(ds: Dataset): (r: Result<Gallery, BuildError>)
    ensures r == Failure(DatasetNotFound) <==> ds.NoDataset?
    ensures r == Failure(NoEncodings) <==> ds.Dataset? && |GalleryEncodings(ds.entries)| == 0
    ensures r.Success? ==> 0 < |r.value.encodings| == |r.value.names|
    ensures r.Success? ==> ValidGallery(r.value)
  {
    match ds
    case NoDataset => Failure(DatasetNotFound)
    case Dataset(entries) =>
      PairedLengths(entries);
      if |GalleryEncodings(entries)| == 0 then Failure(NoEncodings)
      else Success(Gallery(GalleryEncodings(entries), GalleryNames(entries)))
  }

  /** Unfolds the specification functions at one more file of a directory. */
  lemma {:induction false} PersonStep(files: seq<ImageFile>, j: nat)
    requires j < |files|
    ensures PersonEncodings(files[..j + 1]) == PersonEncodings(files[..j]) +
      (if FileEncoding(files[j]).Some? then [FileEncoding(files[j]).value] else [])
  {
    assert files[..j + 1][..j] == files[..j];
  }

  /** Unfolds the specification functions at one more directory entry. */
  lemma {:induction false} GalleryStep(entries: seq<DirEntry>, i: nat)
    requires i < |entries|
    ensures GalleryEncodings(entries[..i + 1]) == GalleryEncodings(entries[..i]) + EntryEncodings(entries[i])
    ensures GalleryNames(entries[..i + 1]) ==
      GalleryNames(entries[..i]) + Repeat(entries[i].name, |EntryEncodings(entries[i])|)
    ensures Reports(entries[..i + 1]) == Reports(entries[..i]) +
      (if entries[i].isDir then [PersonReport(entries[i].name, |PersonEncodings(entries[i].files)|)] else [])
  {
    assert entries[..i + 1][..i] == entries[..i];
  }

  /**
   * The inner loop of `create_encodings` over one person's directory: the
   * first face of every readable image, each labelled with the directory's
   * name, and how many there were.
   */
  method CollectPerson(files: seq<ImageFile>, name: string)
    returns (encodings: seq<Encoding>, names: seq<string>, count: nat)
    ensures encodings == PersonEncodings(files)
    ensures names == Repeat(name, count)
    ensures count == |encodings|
  {
    encodings, names, count := [], [], 0;
    var j := 0;
    while j < |files|
      invariant 0 <= j <= |files|
      invariant encodings == PersonEncodings(files[..j])
      invariant names == Repeat(name, count)
      invariant count == |encodings|
    {
      var file := files[j];
      PersonStep(files, j);
      if IsImageName(file.filename) {
        match file.outcome
        case Failed =>
        case Faces(found) =>
          if |found| > 0 {
            encodings := encodings + [found[0]];
            names := names + [name];
            count := count + 1;
          }
      }
      j := j + 1;
    }
    assert files[..j] == files;
  }

  /**
   * The loop of `create_encodings`: walks the directories and their files,
   * appending to the two parallel lists in lock step and counting per
   * person; fails when the dataset is missing or nothing was collected.
   */
  method CreateEncodings(ds: Dataset) returns (r: Result<Gallery, BuildError>, reports: seq<PersonReport>)
    ensures r == BuildGallery(ds)
    ensures ds.Dataset? ==> reports == Reports(ds.entries)
  {
    if ds.NoDataset? {
      return Failure(DatasetNotFound), [];
    }
    var entries := ds.entries;
    var knownEncodings: seq<Encoding> := [];
    var knownNames: seq<string> := [];
    reports := [];
    var i := 0;
    while i < |entries|
      invariant 0 <= i <= |entries|
      invariant knownEncodings == GalleryEncodings(entries[..i])
      invariant knownNames == GalleryNames(entries[..i])
      invariant reports == Reports(entries[..i])
    {
      var entry := entries[i];
      GalleryStep(entries, i);
      if entry.isDir {
        var encodings, names, count := CollectPerson(entry.files, entry.name);
        knownEncodings := knownEncodings + encodings;
        knownNames := knownNames + names;
        reports := reports + [PersonReport(entry.name, count)];
      } else {
        assert Repeat(entry.name, 0) == [];
      }
      i := i + 1;
    }
    assert entries[..i] == entries;
    if |knownEncodings| == 0 {
      return Failure(NoEncodings), reports;
    }
    r := Success(Gallery(knownEncodings, knownNames));
  }

  /** The two lists always have the same length. */
  lemma {:induction false} PairedLengths(entries: seq<DirEntry>)
    ensures |GalleryNames(entries)| == |GalleryEncodings(entries)|
  {
    if entries != [] {
      PairedLengths(entries[..|entries| - 1]);
    }
  }

  /** Every embedding a directory contributes is the first face of one of its image files. */
  lemma {:induction false} PersonProvenance(files: seq<ImageFile>, i: nat) returns (f: nat)
    requires i < |PersonEncodings(files)|
    ensures f < |files|
    ensures FileEncoding(files[f]) == Some(PersonEncodings(files)[i])
  {
    var init := files[..|files| - 1];
    if i < |PersonEncodings(init)| {
      f := PersonProvenance(init, i);
    } else {
      f := |files| - 1;
    }
  }

  /**
   * Every collected embedding is the first face of an image file (by its
   * extension) in some person directory, and its label is that directory's
   * name.
   */
  lemma {:induction false} Provenance(entries: seq<DirEntry>, i: nat) returns (e: nat, f: nat)
    requires i < |GalleryEncodings(entries)|
    ensures e < |entries| && f < |entries[e].files|
    ensures entries[e].isDir
    ensures IsImageName(entries[e].files[f].filename)
    ensures entries[e].files[f].outcome.Faces? && |entries[e].files[f].outcome.found| > 0
    ensures GalleryEncodings(entries)[i] == entries[e].files[f].outcome.found[0]
    ensures i < |GalleryNames(entries)| && GalleryNames(entries)[i] == entries[e].name
  {
    var init, last := entries[..|entries| - 1], entries[|entries| - 1];
    PairedLengths(entries);
    PairedLengths(init);
    if i < |GalleryEncodings(init)| {
      e, f := Provenance(init, i);
    } else {
      e := |entries| - 1;
      f := PersonProvenance(last.files, i - |GalleryEncodings(init)|);
    }
  }

  /** Every image file that yields a face contributes exactly its first face. */
  lemma {:induction false} PersonCoverage(files: seq<ImageFile>, f: nat) returns (i: nat)
    requires f < |files| && FileEncoding(files[f]).Some?
    ensures i < |PersonEncodings(files)|
    ensures PersonEncodings(files)[i] == FileEncoding(files[f]).value
  {
    var init := files[..|files| - 1];
    if f < |init| {
      assert files[f] == init[f];
      i := PersonCoverage(init, f);
    } else {
      i := |PersonEncodings(init)|;
    }
  }

  /**
   * Every image file with a face in a person directory is represented in
   * the gallery, labelled with that directory's name.
   */
  lemma {:induction false} Coverage(entries: seq<DirEntry>, e: nat, f: nat) returns (i: nat)
    requires e < |entries| && entries[e].isDir
    requires f < |entries[e].files| && FileEncoding(entries[e].files[f]).Some?
    ensures i < |GalleryEncodings(entries)| && i < |GalleryNames(entries)|
    ensures GalleryEncodings(entries)[i] == FileEncoding(entries[e].files[f]).value
    ensures GalleryNames(entries)[i] == entries[e].name
  {
    var init, last := entries[..|entries| - 1], entries[|entries| - 1];
    PairedLengths(entries);
    PairedLengths(init);
    if e < |init| {
      assert entries[e] == init[e];
      i := Coverage(init, e, f);
    } else {
      var k := PersonCoverage(last.files, f);
      i := |GalleryEncodings(init)| + k;
    }
  }

  function TotalCount(reports: seq<PersonReport>): nat {
    if reports == [] then 0 else TotalCount(reports[..|reports| - 1]) + reports[|reports| - 1].count
  }

  lemma {:induction false} TotalCountAppend(a: seq<PersonReport>, b: seq<PersonReport>)
    ensures TotalCount(a + b) == TotalCount(a) + TotalCount(b)
  {
    if b == [] {
      assert a + b == a;
    } else {
      assert (a + b)[..|a + b| - 1] == a + b[..|b| - 1];
      TotalCountAppend(a, b[..|b| - 1]);
    }
  }

  /** The logged per-person counts add up to the number of collected pairs. */
  lemma {:induction false} ReportedCountsAddUp(entries: seq<DirEntry>)
    ensures TotalCount(Reports(entries)) == |GalleryEncodings(entries)|
  {
    if entries != [] {
      var init, last := entries[..|entries| - 1], entries[|entries| - 1];
      ReportedCountsAddUp(init);
      var added := if last.isDir then [PersonReport(last.name, |PersonEncodings(last.files)|)] else [];
      TotalCountAppend(Reports(init), added);
      assert TotalCount(added) == |EntryEncodings(last)| by {
        if last.isDir {
          assert added[..0] == [];
        }
      }
    }
  }

  /** A gallery that was built and stored loads back unchanged. */
  lemma BuiltGalleryLoads(ds: Dataset)
    requires BuildGallery(ds).Success?
    ensures var g := BuildGallery(ds).value;
      LoadKnown(Stored(Some(g.encodings), Some(g.names))) == Success(g)
  {
    LoadKnownReturnsStoredGallery(BuildGallery(ds).value);
  }

  /** A dataset with a single entry collects exactly that entry's embeddings. */
  lemma {:induction false} SingleDirectory(entry: DirEntry)
    ensures GalleryEncodings([entry]) == EntryEncodings(entry)
    ensures GalleryNames([entry]) == Repeat(entry.name, |EntryEncodings(entry)|)
  {
    assert [entry][..0] == [];
  }

  /** An upper-case ".PNG" extension passes the extension test. */
  lemma {:induction false} UpperCaseExtensionAccepted(e: Encoding)
    ensures FileEncoding(ImageFile("b.PNG", Faces([e]))) == Some(e)
  {
    assert Lower("b.PNG") == "b.png";
    assert EndsWith("b.png", ".png");
  }

  /** A directory's faceless image contributes nothing; the other image contributes its face. */
  lemma {:induction false} FacelessFileContributesNothing(e: Encoding)
    ensures PersonEncodings([ImageFile("a.jpg", Faces([])), ImageFile("b.PNG", Faces([e]))]) == [e]
  {
    var files := [ImageFile("a.jpg", Faces([])), ImageFile("b.PNG", Faces([e]))];
    UpperCaseExtensionAccepted(e);
    assert FileEncoding(files[0]) == None;
    assert files[..1][..0] == [];
    assert PersonEncodings(files[..1]) == [];
  }

  /**
   * A person directory with one image in which no face is found and one
   * with a face: the faceless image is skipped and the gallery is still
   * built from the other.
   */
  lemma {:induction false} FacelessImageSkipped(e: Encoding)
    ensures BuildGallery(Dataset([DirEntry("alice", true, [ImageFile("a.jpg", Faces([])), ImageFile("b.PNG", Faces([e]))])]))
      == Success(Gallery([e], ["alice"]))
  {
    var files := [ImageFile("a.jpg", Faces([])), ImageFile("b.PNG", Faces([e]))];
    FacelessFileContributesNothing(e);
    SingleDirectory(DirEntry("alice", true, files));
    assert Repeat("alice", 1) == ["alice"];
  }
}
