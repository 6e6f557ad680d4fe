/** The deduplication loop of the upload handler.

    One call receives an ordered batch of named byte blobs. It keeps two
    indices that live only for that call, `imageHashes` (file name to
    perceptual hash) and `docHashes` (file name to digest), and two output
    lists, `savedFiles` and `deletedFiles`. Each file, in input order, is
    classified by extension; an image is a duplicate when some stored hash is
    within `IMAGE_HASH_THRESHOLD` bits of its own, a document when its digest
    is already stored. A file that is not a duplicate is stored in its
    family's index under its name (overwriting an earlier entry of the same
    name) and saved; unsupported files and images that do not decode are
    dropped.

    The two hash helpers are parameters: `phash` yields `None` when the bytes
    do not decode as an image, and `digest` is any deterministic function of
    the bytes into a type with equality. */
module Upload {
  import opened Classifier
  import opened Hamming

  type Bytes = seq<bv8>

  datatype Option<T> = None | Some(value: T)

  /** One uploaded file: its caller-supplied name and its bytes. */
  datatype UploadedFile = UploadedFile(filename: string, content: Bytes)

  /** What the loop has built after some prefix of the batch. */
  datatype LoopState<D> = LoopState(
    imageHashes: map<string, Fingerprint>,
    docHashes: map<string, D>,
    savedFiles: seq<string>,
    deletedFiles: seq<string>)

  /** What the loop does with one file. */
  datatype Verdict = Saved | Deleted | Dropped

  /** The state before the first file. */
  function InitialState<D>(): LoopState<D>
  {
    LoopState(map[], map[], [], [])
  }

  /** Some stored image hash is near `h`. Only the existence of a match
      matters: the handler never reports which entry matched. */
  predicate HasNearImage(index: map<string, Fingerprint>, h: Fingerprint)
  {
    exists name :: name in index && Near(h, index[name])
  }

  /** The verdict on `file` against the indices built so far. */
  function Judge<D(==)>(b: LoopState<D>, file: UploadedFile,
                        phash: Bytes -> Option<Fingerprint>, digest: Bytes -> D): Verdict
  {
    match Classify(file.filename)
    case Unsupported => Dropped
    case Image =>
      (match phash(file.content)
       case None => Dropped
       case Some(h) => if HasNearImage(b.imageHashes, h) then Deleted else Saved)
    case Document =>
      if digest(file.content) in b.docHashes.Values then Deleted else Saved
  }

  /** One iteration of the loop: judge the file, then record it in the
      output list the verdict names and, when it is saved, in its family's
      index under its name. */
  function Step<D(==)>(b: LoopState<D>, file: UploadedFile,
                       phash: Bytes -> Option<Fingerprint>, digest: Bytes -> D): LoopState<D>
  {
    match Judge(b, file, phash, digest)
    case Dropped => b
    case Deleted => b.(deletedFiles := b.deletedFiles + [file.filename])
    case Saved =>
      if Classify(file.filename) == Image then
        b.(imageHashes := b.imageHashes[file.filename := phash(file.content).value],
           savedFiles := b.savedFiles + [file.filename])
      else
        b.(docHashes := b.docHashes[file.filename := digest(file.content)],
           savedFiles := b.savedFiles + [file.filename])
  }

  /** The state after the loop has run over every file of `files`, in order. */
  function Process<D(==)>(files: seq<UploadedFile>,
                          phash: Bytes -> Option<Fingerprint>, digest: Bytes -> D): LoopState<D>
  {
    if files == [] then InitialState()
    else Step(Process(files[..|files| - 1], phash, digest), files[|files| - 1], phash, digest)
  }

  /** The handler's loop, with its dictionaries and lists as local state and
      the inner scan over the stored image hashes that stops at the first
      near one. Its outputs are those of `Process`. */
  method UploadFiles<D(==)>(files: seq<UploadedFile>,
                            phash: Bytes -> Option<Fingerprint>, digest: Bytes -> D)
    returns (savedFiles: seq<string>, deletedFiles: seq<string>)
    ensures savedFiles == Process(files, phash, digest).savedFiles
    ensures deletedFiles == Process(files, phash, digest).deletedFiles
  {
    var imageHashes: map<string, Fingerprint> := map[];
    var docHashes: map<string, D> := map[];
    deletedFiles := [];
    savedFiles := [];

    for i := 0 to |files|
      invariant LoopState(imageHashes, docHashes, savedFiles, deletedFiles) == Process(files[..i], phash, digest)
    {
      var file := files[i];
      ghost var before := LoopState(imageHashes, docHashes, savedFiles, deletedFiles);
      assert files[..i + 1][..i] == files[..i];
      assert Process(files[..i + 1], phash, digest) == Step(before, file, phash, digest);
      var content := file.content;
      var family := Classify(file.filename);

      if family == Image {
        var imgHash := phash(content);
        if imgHash.None? {
          continue;
        }
        var h := imgHash.value;

        var isDuplicate := false;
        var unscanned := imageHashes.Keys;
        while unscanned != {}
          invariant unscanned <= imageHashes.Keys
          invariant !isDuplicate
          invariant forall name :: name in imageHashes && name !in unscanned ==> !Near(h, imageHashes[name])
        {
          var existingName :| existingName in unscanned;
          if Near(h, imageHashes[existingName]) {
            deletedFiles := deletedFiles + [file.filename];
            isDuplicate := true;
            break;
          }
          unscanned := unscanned - {existingName};
        }
        assert isDuplicate <==> HasNearImage(before.imageHashes, h);
        if !isDuplicate {
          imageHashes := imageHashes[file.filename := h];
          savedFiles := savedFiles + [file.filename];
        }

      } else if family == Document {
        var docHash := digest(content);
        if docHash in docHashes.Values {
          deletedFiles := deletedFiles + [file.filename];
        } else {
          docHashes := docHashes[file.filename := docHash];
          savedFiles := savedFiles + [file.filename];
        }
      }
    }
    assert files[..|files|] == files;
  }
}
