/** What the deduplication loop guarantees, stated over `Upload.Process` and
    so, through the postcondition of `Upload.UploadFiles`, over the handler. */
module UploadProperties {
  import opened Classifier
  import opened Hamming
  import opened Upload

  // ---------------------------------------------------------------------
  // Unfolding the fold one file at a time

  /** Processing one more file is one more step of the loop. */
  lemma ProcessAppend<D>(files: seq<UploadedFile>, file: UploadedFile,
                             phash: Bytes -> Option<Fingerprint>, digest: Bytes -> D)
    ensures Process(files + [file], phash, digest) == Step(Process(files, phash, digest), file, phash, digest)
  {
    assert (files + [file])[..|files|] == files;
  }

  // ---------------------------------------------------------------------
  // The fate of a single file

  /** A file whose lower-cased extension is in neither table is in neither
      output list, and no index changes. */
  lemma UnsupportedFileIsIgnored<D>(files: seq<UploadedFile>, file: UploadedFile,
                                        phash: Bytes -> Option<Fingerprint>, digest: Bytes -> D)
    requires Classify(file.filename) == Unsupported
    ensures Process(files + [file], phash, digest) == Process(files, phash, digest)
  {
    ProcessAppend(files, file, phash, digest);
  }

  /** An image whose bytes do not decode is in neither output list, and no
      index changes. */
  lemma UndecodableImageIsIgnored<D>(files: seq<UploadedFile>, file: UploadedFile,
                                         phash: Bytes -> Option<Fingerprint>, digest: Bytes -> D)
    requires Classify(file.filename) == Image && phash(file.content) == None
    ensures Process(files + [file], phash, digest) == Process(files, phash, digest)
  {
    ProcessAppend(files, file, phash, digest);
  }

  /** An image is reported as deleted exactly when some stored hash is within
      the threshold of its own; a duplicate leaves the index alone, and an
      image that is not one is stored under its name and saved. */
  lemma ImageVerdict<D>(files: seq<UploadedFile>, file: UploadedFile, h: Fingerprint,
                            phash: Bytes -> Option<Fingerprint>, digest: Bytes -> D)
    requires Classify(file.filename) == Image && phash(file.content) == Some(h)
    ensures var b, r := Process(files, phash, digest), Process(files + [file], phash, digest);
      && (r.deletedFiles == b.deletedFiles + [file.filename] <==> HasNearImage(b.imageHashes, h))
      && (HasNearImage(b.imageHashes, h) ==> r == b.(deletedFiles := b.deletedFiles + [file.filename]))
      && (!HasNearImage(b.imageHashes, h) ==>
            r == b.(imageHashes := b.imageHashes[file.filename := h],
                    savedFiles := b.savedFiles + [file.filename]))
  {
    ProcessAppend(files, file, phash, digest);
  }

  /** A document is reported as deleted exactly when its digest is already
      stored; otherwise it is stored under its name and saved. */
  lemma DocumentVerdict<D>(files: seq<UploadedFile>, file: UploadedFile,
                               phash: Bytes -> Option<Fingerprint>, digest: Bytes -> D)
    requires Classify(file.filename) == Document
    ensures var b, r := Process(files, phash, digest), Process(files + [file], phash, digest);
      var d := digest(file.content);
      && (r.deletedFiles == b.deletedFiles + [file.filename] <==> d in b.docHashes.Values)
      && (d in b.docHashes.Values ==> r == b.(deletedFiles := b.deletedFiles + [file.filename]))
      && (d !in b.docHashes.Values ==>
            r == b.(docHashes := b.docHashes[file.filename := d],
                    savedFiles := b.savedFiles + [file.filename]))
  {
    ProcessAppend(files, file, phash, digest);
  }

  // ---------------------------------------------------------------------
  // The index invariant

  /** No two stored documents have the same digest. */
  predicate DigestsDistinct<D(==)>(docHashes: map<string, D>)
  {
    forall a, b :: a in docHashes && b in docHashes && a != b ==> docHashes[a] != docHashes[b]
  }

  /** No two stored images are near each other. */
  predicate FingerprintsApart(imageHashes: map<string, Fingerprint>)
  {
    forall a, b :: a in imageHashes && b in imageHashes && a != b ==> !Near(imageHashes[a], imageHashes[b])
  }

  /** What holds of the loop's state after every iteration: no two index
      entries of a family are duplicates of each other, and every index entry
      is a saved file of that family. */
  predicate IndexInvariant<D(==)>(b: LoopState<D>)
  {
    && DigestsDistinct(b.docHashes)
    && FingerprintsApart(b.imageHashes)
    && (forall name :: name in b.imageHashes ==> Classify(name) == Image && name in b.savedFiles)
    && (forall name :: name in b.docHashes ==> Classify(name) == Document && name in b.savedFiles)
  }

  /** One iteration keeps the invariant, also when a repeated file name
      overwrites its earlier index entry. */
  lemma StepKeepsIndexInvariant<D>(b: LoopState<D>, file: UploadedFile,
                                       phash: Bytes -> Option<Fingerprint>, digest: Bytes -> D)
    requires IndexInvariant(b)
    ensures IndexInvariant(Step(b, file, phash, digest))
  {
    var r := Step(b, file, phash, digest);
    if Judge(b, file, phash, digest) == Saved {
      if Classify(file.filename) == Image {
        var h := phash(file.content).value;
        assert !HasNearImage(b.imageHashes, h);
        forall name | name in b.imageHashes
          ensures !Near(b.imageHashes[name], h)
        {
          DistanceSymmetric(b.imageHashes[name], h);
        }
      } else {
        var d := digest(file.content);
        forall name | name in b.docHashes
          ensures b.docHashes[name] != d
        {
          assert b.docHashes[name] in b.docHashes.Values;
        }
      }
    }
  }

  /** After any prefix of any batch, the indices satisfy the invariant. */
  lemma {:induction false} ProcessKeepsIndexInvariant<D>(files: seq<UploadedFile>,
                                                             phash: Bytes -> Option<Fingerprint>, digest: Bytes -> D)
    ensures IndexInvariant(Process(files, phash, digest))
  {
    if files != [] {
      ProcessKeepsIndexInvariant(files[..|files| - 1], phash, digest);
      StepKeepsIndexInvariant(Process(files[..|files| - 1], phash, digest), files[|files| - 1], phash, digest);
    }
  }

  // ---------------------------------------------------------------------
  // The two output lists partition the handled files, in input order

  /** The file is of a supported type and, if it is an image, decodes: the
      loop puts it in one of the two output lists. */
  predicate Handled(file: UploadedFile, phash: Bytes -> Option<Fingerprint>)
  {
    match Classify(file.filename)
    case Unsupported => false
    case Image => phash(file.content).Some?
    case Document => true
  }

  /** How many files of `files` are handled. */
  function HandledCount(files: seq<UploadedFile>, phash: Bytes -> Option<Fingerprint>): (n: nat)
    ensures n <= |files|
  {
    if files == [] then 0
    else HandledCount(files[..|files| - 1], phash) + (if Handled(files[|files| - 1], phash) then 1 else 0)
  }

  /** The verdict on each file, in input order, each judged against the
      state the earlier files left behind. */
  function Verdicts<D(==)>(files: seq<UploadedFile>,
                           phash: Bytes -> Option<Fingerprint>, digest: Bytes -> D): (vs: seq<Verdict>)
    ensures |vs| == |files|
  {
    if files == [] then []
    else
      var init := files[..|files| - 1];
      Verdicts(init, phash, digest) + [Judge(Process(init, phash, digest), files[|files| - 1], phash, digest)]
  }

  /** The names of the files whose verdict is `v`, in input order. */
  function Pick(files: seq<UploadedFile>, vs: seq<Verdict>, v: Verdict): seq<string>
    requires |vs| == |files|
  {
    if files == [] then []
    else
      var n := |files| - 1;
      Pick(files[..n], vs[..n], v) + (if vs[n] == v then [files[n].filename] else [])
  }

  /** Each output list is the names the verdicts pick, in input order. */
  lemma {:induction false} OutputListsArePicks<D>(files: seq<UploadedFile>,
                                                  phash: Bytes -> Option<Fingerprint>, digest: Bytes -> D)
    ensures var b, vs := Process(files, phash, digest), Verdicts(files, phash, digest);
      b.savedFiles == Pick(files, vs, Saved) && b.deletedFiles == Pick(files, vs, Deleted)
  {
    if files != [] {
      var n := |files| - 1;
      OutputListsArePicks(files[..n], phash, digest);
      assert Verdicts(files, phash, digest)[..n] == Verdicts(files[..n], phash, digest);
    }
  }

  /** A file is judged `Dropped` exactly when it is not handled. */
  lemma {:induction false} DroppedIffUnhandled<D>(files: seq<UploadedFile>,
                                                  phash: Bytes -> Option<Fingerprint>, digest: Bytes -> D)
    ensures var vs := Verdicts(files, phash, digest);
      forall i :: 0 <= i < |files| ==> (vs[i] == Dropped <==> !Handled(files[i], phash))
  {
    if files != [] {
      var n := |files| - 1;
      var init := files[..n];
      DroppedIffUnhandled(init, phash, digest);
      var vs := Verdicts(files, phash, digest);
      assert vs[..n] == Verdicts(init, phash, digest);
      forall i | 0 <= i < |files|
        ensures vs[i] == Dropped <==> !Handled(files[i], phash)
      {
        if i < n {
          assert vs[i] == Verdicts(init, phash, digest)[i];
          assert files[i] == init[i];
        }
      }
    }
  }

  /** Every handled file lands in exactly one list, so together the two lists
      are as long as the number of handled files. */
  lemma {:induction false} OutputsCountHandledFiles<D>(files: seq<UploadedFile>,
                                                           phash: Bytes -> Option<Fingerprint>, digest: Bytes -> D)
    ensures var b := Process(files, phash, digest);
      |b.savedFiles| + |b.deletedFiles| == HandledCount(files, phash)
  {
    if files != [] {
      OutputsCountHandledFiles(files[..|files| - 1], phash, digest);
    }
  }

  /** Verdicts are final and the lists only grow at their ends: what a prefix
      of the batch decided is a prefix of what the whole batch decides, so a
      later file never displaces an earlier one. */
  lemma {:induction false} EarlierDecisionsStand<D>(files: seq<UploadedFile>, k: nat,
                                                        phash: Bytes -> Option<Fingerprint>, digest: Bytes -> D)
    requires k <= |files|
    ensures Verdicts(files[..k], phash, digest) == Verdicts(files, phash, digest)[..k]
    ensures Process(files[..k], phash, digest).savedFiles <= Process(files, phash, digest).savedFiles
    ensures Process(files[..k], phash, digest).deletedFiles <= Process(files, phash, digest).deletedFiles
  {
    if k < |files| {
      var init := files[..|files| - 1];
      assert files[..k] == init[..k];
      EarlierDecisionsStand(init, k, phash, digest);
    } else {
      assert files[..k] == files;
    }
  }

  // ---------------------------------------------------------------------
  // The image side and the document side do not see each other

  /** The files of one family, in input order. */
  function OfFamily(files: seq<UploadedFile>, family: Family): (r: seq<UploadedFile>)
    ensures |r| <= |files|
    ensures forall i :: 0 <= i < |r| ==> Classify(r[i].filename) == family
  {
    if files == [] then []
    else
      var n := |files| - 1;
      OfFamily(files[..n], family) + (if Classify(files[n].filename) == family then [files[n]] else [])
  }

  /** The names of one family, in their order. */
  function NamesOf(names: seq<string>, family: Family): (r: seq<string>)
    ensures |r| <= |names|
    ensures forall i :: 0 <= i < |r| ==> Classify(r[i]) == family
  {
    if names == [] then []
    else
      var n := |names| - 1;
      NamesOf(names[..n], family) + (if Classify(names[n]) == family then [names[n]] else [])
  }

  lemma NamesOfAppend(names: seq<string>, name: string, family: Family)
    ensures NamesOf(names + [name], family) == NamesOf(names, family) + (if Classify(name) == family then [name] else [])
  {
    assert (names + [name])[..|names|] == names;
  }

  lemma OfFamilyAppend(files: seq<UploadedFile>, file: UploadedFile, family: Family)
    ensures OfFamily(files + [file], family) == OfFamily(files, family) + (if Classify(file.filename) == family then [file] else [])
  {
    assert (files + [file])[..|files|] == files;
  }

  /** `alone` is what the batch's images alone would have produced from
      `all`'s history: the same image index, and the images of each output
      list. */
  ghost predicate SameImageSide<D>(all: LoopState<D>, alone: LoopState<D>)
  {
    && all.imageHashes == alone.imageHashes
    && NamesOf(all.savedFiles, Image) == alone.savedFiles
    && NamesOf(all.deletedFiles, Image) == alone.deletedFiles
  }

  /** `alone` is what the batch's documents alone would have produced. */
  ghost predicate SameDocumentSide<D>(all: LoopState<D>, alone: LoopState<D>)
  {
    && all.docHashes == alone.docHashes
    && NamesOf(all.savedFiles, Document) == alone.savedFiles
    && NamesOf(all.deletedFiles, Document) == alone.deletedFiles
  }

  /** One step keeps the image side in step: an image is judged by the image
      index alone, and any other file leaves the image side as it was. */
  lemma StepKeepsImageSide<D>(all: LoopState<D>, alone: LoopState<D>, file: UploadedFile,
                              phash: Bytes -> Option<Fingerprint>, digest: Bytes -> D)
    requires SameImageSide(all, alone)
    ensures SameImageSide(Step(all, file, phash, digest),
                          if Classify(file.filename) == Image then Step(alone, file, phash, digest) else alone)
  {
    var r := Step(all, file, phash, digest);
    NamesOfAppend(all.savedFiles, file.filename, Image);
    NamesOfAppend(all.deletedFiles, file.filename, Image);
    if Classify(file.filename) == Image {
      var a := Step(alone, file, phash, digest);
      assert Judge(all, file, phash, digest) == Judge(alone, file, phash, digest);
      match Judge(all, file, phash, digest)
      case Dropped =>
      case Deleted =>
        assert r.imageHashes == all.imageHashes && a.imageHashes == alone.imageHashes;
      case Saved =>
    } else {
      assert r.imageHashes == all.imageHashes;
      assert r.savedFiles == all.savedFiles || r.savedFiles == all.savedFiles + [file.filename];
      assert r.deletedFiles == all.deletedFiles || r.deletedFiles == all.deletedFiles + [file.filename];
    }
  }

  /** One step keeps the document side in step. */
  lemma StepKeepsDocumentSide<D>(all: LoopState<D>, alone: LoopState<D>, file: UploadedFile,
                                 phash: Bytes -> Option<Fingerprint>, digest: Bytes -> D)
    requires SameDocumentSide(all, alone)
    ensures SameDocumentSide(Step(all, file, phash, digest),
                             if Classify(file.filename) == Document then Step(alone, file, phash, digest) else alone)
  {
    var r := Step(all, file, phash, digest);
    NamesOfAppend(all.savedFiles, file.filename, Document);
    NamesOfAppend(all.deletedFiles, file.filename, Document);
    if Classify(file.filename) == Document {
      var a := Step(alone, file, phash, digest);
      assert Judge(all, file, phash, digest) == Judge(alone, file, phash, digest);
      match Judge(all, file, phash, digest)
      case Dropped =>
      case Deleted =>
        assert r.docHashes == all.docHashes && a.docHashes == alone.docHashes;
      case Saved =>
    } else {
      assert r.docHashes == all.docHashes;
      assert r.savedFiles == all.savedFiles || r.savedFiles == all.savedFiles + [file.filename];
      assert r.deletedFiles == all.deletedFiles || r.deletedFiles == all.deletedFiles + [file.filename];
    }
  }

  /** The image index and the images' places in the output lists are what
      they would be if the batch held its images only: an image is never
      judged against a document. */
  lemma {:induction false} ImagesIgnoreDocuments<D>(files: seq<UploadedFile>,
                                                    phash: Bytes -> Option<Fingerprint>, digest: Bytes -> D)
    ensures SameImageSide(Process(files, phash, digest), Process(OfFamily(files, Image), phash, digest))
  {
    if files != [] {
      var n := |files| - 1;
      var init, file := files[..n], files[n];
      ImagesIgnoreDocuments(init, phash, digest);
      var all, alone := Process(init, phash, digest), Process(OfFamily(init, Image), phash, digest);
      StepKeepsImageSide(all, alone, file, phash, digest);
      assert Process(files, phash, digest) == Step(all, file, phash, digest);
      if Classify(file.filename) == Image {
        assert OfFamily(files, Image) == OfFamily(init, Image) + [file];
        ProcessAppend(OfFamily(init, Image), file, phash, digest);
      } else {
        assert OfFamily(files, Image) == OfFamily(init, Image);
      }
    }
  }

  /** The document index and the documents' places in the output lists are
      what they would be if the batch held its documents only: a document is
      never judged against an image. */
  lemma {:induction false} DocumentsIgnoreImages<D>(files: seq<UploadedFile>,
                                                    phash: Bytes -> Option<Fingerprint>, digest: Bytes -> D)
    ensures SameDocumentSide(Process(files, phash, digest), Process(OfFamily(files, Document), phash, digest))
  {
    if files != [] {
      var n := |files| - 1;
      var init, file := files[..n], files[n];
      DocumentsIgnoreImages(init, phash, digest);
      var all, alone := Process(init, phash, digest), Process(OfFamily(init, Document), phash, digest);
      StepKeepsDocumentSide(all, alone, file, phash, digest);
      assert Process(files, phash, digest) == Step(all, file, phash, digest);
      if Classify(file.filename) == Document {
        assert OfFamily(files, Document) == OfFamily(init, Document) + [file];
        ProcessAppend(OfFamily(init, Document), file, phash, digest);
      } else {
        assert OfFamily(files, Document) == OfFamily(init, Document);
      }
    }
  }

  // ---------------------------------------------------------------------
  // Repeated content

  /** An image whose hash equals that of the image just before it is always a
      duplicate, whatever became of the first one. */
  lemma RepeatedImageIsDuplicate<D>(files: seq<UploadedFile>, first: UploadedFile, again: UploadedFile,
                                    phash: Bytes -> Option<Fingerprint>, digest: Bytes -> D)
    requires Classify(first.filename) == Image && Classify(again.filename) == Image
    requires phash(first.content).Some? && phash(again.content) == phash(first.content)
    ensures Process(files + [first, again], phash, digest).deletedFiles
            == Process(files + [first], phash, digest).deletedFiles + [again.filename]
  {
    var h := phash(first.content).value;
    var b := Process(files + [first], phash, digest);
    ProcessAppend(files, first, phash, digest);
    assert files + [first, again] == (files + [first]) + [again];
    ProcessAppend(files + [first], again, phash, digest);
    if !HasNearImage(Process(files, phash, digest).imageHashes, h) {
      DistanceToSelf(h);
      assert first.filename in b.imageHashes && Near(h, b.imageHashes[first.filename]);
    }
    assert HasNearImage(b.imageHashes, h);
  }

  /** A document whose digest equals that of the document just before it is
      always a duplicate, whatever became of the first one. */
  lemma RepeatedDocumentIsDuplicate<D>(files: seq<UploadedFile>, first: UploadedFile, again: UploadedFile,
                                       phash: Bytes -> Option<Fingerprint>, digest: Bytes -> D)
    requires Classify(first.filename) == Document && Classify(again.filename) == Document
    requires digest(again.content) == digest(first.content)
    ensures Process(files + [first, again], phash, digest).deletedFiles
            == Process(files + [first], phash, digest).deletedFiles + [again.filename]
  {
    var b := Process(files + [first], phash, digest);
    ProcessAppend(files, first, phash, digest);
    assert files + [first, again] == (files + [first]) + [again];
    ProcessAppend(files + [first], again, phash, digest);
    if digest(first.content) !in Process(files, phash, digest).docHashes.Values {
      assert b.docHashes[first.filename] == digest(first.content);
    }
    assert digest(again.content) in b.docHashes.Values;
  }

  // ---------------------------------------------------------------------
  // Copies anywhere in a batch of distinct names

  /** No two files of the batch share a name. */
  predicate NamesDistinct(files: seq<UploadedFile>)
  {
    forall i, j :: 0 <= i < j < |files| ==> files[i].filename != files[j].filename
  }

  /** `big` keeps every entry of `small`. */
  ghost predicate Extends<V>(small: map<string, V>, big: map<string, V>)
  {
    forall k :: k in small ==> k in big && big[k] == small[k]
  }

  /** `name` is the name of some file of `files`. */
  predicate NameOfSome(files: seq<UploadedFile>, name: string)
  {
    exists i :: 0 <= i < |files| && files[i].filename == name
  }

  /** Only the names of files of the batch are ever indexed. */
  lemma {:induction false} KeysAreEarlierNames<D>(files: seq<UploadedFile>,
                                                  phash: Bytes -> Option<Fingerprint>, digest: Bytes -> D)
    ensures var b := Process(files, phash, digest);
      forall k :: k in b.imageHashes || k in b.docHashes ==> NameOfSome(files, k)
  {
    if files != [] {
      var n := |files| - 1;
      var init := files[..n];
      var before := Process(init, phash, digest);
      KeysAreEarlierNames(init, phash, digest);
      var b := Process(files, phash, digest);
      assert b == Step(before, files[n], phash, digest);
      forall k | k in b.imageHashes || k in b.docHashes
        ensures NameOfSome(files, k)
      {
        if k == files[n].filename {
          assert files[n].filename == k;
        } else {
          assert k in before.imageHashes || k in before.docHashes;
          assert NameOfSome(init, k);
          var i :| 0 <= i < |init| && init[i].filename == k;
          assert files[i] == init[i];
        }
      }
    }
  }

  /** A step changes an index only under the file's own name. */
  lemma StepKeepsOtherEntries<D>(b: LoopState<D>, file: UploadedFile,
                                 phash: Bytes -> Option<Fingerprint>, digest: Bytes -> D)
    requires file.filename !in b.imageHashes && file.filename !in b.docHashes
    ensures Extends(b.imageHashes, Step(b, file, phash, digest).imageHashes)
    ensures Extends(b.docHashes, Step(b, file, phash, digest).docHashes)
  {
  }

  /** When every file has its own name, the name of the next file is not
      yet indexed. */
  lemma NextNameIsFresh<D>(files: seq<UploadedFile>, m: nat,
                           phash: Bytes -> Option<Fingerprint>, digest: Bytes -> D)
    requires NamesDistinct(files) && m < |files|
    ensures files[m].filename !in Process(files[..m], phash, digest).imageHashes
    ensures files[m].filename !in Process(files[..m], phash, digest).docHashes
  {
    var b := Process(files[..m], phash, digest);
    KeysAreEarlierNames(files[..m], phash, digest);
    forall key | key in b.imageHashes || key in b.docHashes
      ensures key != files[m].filename
    {
      assert NameOfSome(files[..m], key);
      var i :| 0 <= i < |files[..m]| && files[..m][i].filename == key;
      assert files[..m][i] == files[i];
    }
  }

  /** When every file has its own name, no step touches an entry already in
      an index: the indices only grow from one prefix to a longer one. */
  lemma {:induction false} IndicesOnlyGrow<D>(files: seq<UploadedFile>, k: nat, m: nat,
                                              phash: Bytes -> Option<Fingerprint>, digest: Bytes -> D)
    requires NamesDistinct(files) && k <= m <= |files|
    ensures Extends(Process(files[..k], phash, digest).imageHashes, Process(files[..m], phash, digest).imageHashes)
    ensures Extends(Process(files[..k], phash, digest).docHashes, Process(files[..m], phash, digest).docHashes)
  {
    if k < m {
      IndicesOnlyGrow(files, k, m - 1, phash, digest);
      PrefixSnoc(files, m - 1);
      ProcessAppend(files[..m - 1], files[m - 1], phash, digest);
      NextNameIsFresh(files, m - 1, phash, digest);
      StepKeepsOtherEntries(Process(files[..m - 1], phash, digest), files[m - 1], phash, digest);
    }
  }

  /** A prefix one longer is the shorter prefix and the next element. */
  lemma PrefixSnoc<T>(s: seq<T>, j: nat)
    requires j < |s|
    ensures s[..j + 1] == s[..j] + [s[j]]
  {
  }

  /** In a batch of distinct names, a document whose digest equals that of
      any earlier document is deleted and changes nothing else: one
      representative per content. */
  lemma CopiedDocumentIsDuplicate<D>(files: seq<UploadedFile>, i: nat, j: nat,
                                     phash: Bytes -> Option<Fingerprint>, digest: Bytes -> D)
    requires NamesDistinct(files) && i < j < |files|
    requires Classify(files[i].filename) == Document && Classify(files[j].filename) == Document
    requires digest(files[j].content) == digest(files[i].content)
    ensures var b := Process(files[..j], phash, digest);
      Process(files[..j + 1], phash, digest) == b.(deletedFiles := b.deletedFiles + [files[j].filename])
  {
    var d := digest(files[i].content);
    var before := Process(files[..i], phash, digest);
    var after := Process(files[..i + 1], phash, digest);
    PrefixSnoc(files, i);
    DocumentVerdict(files[..i], files[i], phash, digest);
    var key: string;
    if d in before.docHashes.Values {
      key :| key in before.docHashes && before.docHashes[key] == d;
    } else {
      key := files[i].filename;
    }
    assert key in after.docHashes && after.docHashes[key] == d;
    IndicesOnlyGrow(files, i + 1, j, phash, digest);
    var atJ := Process(files[..j], phash, digest);
    assert atJ.docHashes[key] in atJ.docHashes.Values;
    PrefixSnoc(files, j);
    DocumentVerdict(files[..j], files[j], phash, digest);
  }

  /** In a batch of distinct names, an image whose perceptual hash equals
      that of any earlier image is deleted and changes nothing else. */
  lemma CopiedImageIsDuplicate<D>(files: seq<UploadedFile>, i: nat, j: nat, h: Fingerprint,
                                  phash: Bytes -> Option<Fingerprint>, digest: Bytes -> D)
    requires NamesDistinct(files) && i < j < |files|
    requires Classify(files[i].filename) == Image && Classify(files[j].filename) == Image
    requires phash(files[i].content) == Some(h) && phash(files[j].content) == Some(h)
    ensures var b := Process(files[..j], phash, digest);
      Process(files[..j + 1], phash, digest) == b.(deletedFiles := b.deletedFiles + [files[j].filename])
  {
    var before := Process(files[..i], phash, digest);
    var after := Process(files[..i + 1], phash, digest);
    PrefixSnoc(files, i);
    ImageVerdict(files[..i], files[i], h, phash, digest);
    var key: string;
    if HasNearImage(before.imageHashes, h) {
      key :| key in before.imageHashes && Near(h, before.imageHashes[key]);
    } else {
      key := files[i].filename;
      DistanceToSelf(h);
    }
    assert key in after.imageHashes && Near(h, after.imageHashes[key]);
    IndicesOnlyGrow(files, i + 1, j, phash, digest);
    var atJ := Process(files[..j], phash, digest);
    assert key in atJ.imageHashes && Near(h, atJ.imageHashes[key]);
    PrefixSnoc(files, j);
    ImageVerdict(files[..j], files[j], h, phash, digest);
  }

  /** In a batch of distinct names, an image that was saved blocks every later
      image near it: that later image is deleted and changes nothing else. */
  lemma NearSavedImageBlocksLater<D>(files: seq<UploadedFile>, i: nat, j: nat, hi: Fingerprint, hj: Fingerprint,
                                     phash: Bytes -> Option<Fingerprint>, digest: Bytes -> D)
    requires NamesDistinct(files) && i < j < |files|
    requires Classify(files[i].filename) == Image && Classify(files[j].filename) == Image
    requires phash(files[i].content) == Some(hi) && phash(files[j].content) == Some(hj) && Near(hi, hj)
    requires Judge(Process(files[..i], phash, digest), files[i], phash, digest) == Saved
    ensures var b := Process(files[..j], phash, digest);
      Process(files[..j + 1], phash, digest) == b.(deletedFiles := b.deletedFiles + [files[j].filename])
  {
    var key := files[i].filename;
    PrefixSnoc(files, i);
    ImageVerdict(files[..i], files[i], hi, phash, digest);
    assert Process(files[..i + 1], phash, digest).imageHashes[key] == hi;
    IndicesOnlyGrow(files, i + 1, j, phash, digest);
    var atJ := Process(files[..j], phash, digest);
    DistanceSymmetric(hi, hj);
    assert key in atJ.imageHashes && Near(hj, atJ.imageHashes[key]);
    PrefixSnoc(files, j);
    ImageVerdict(files[..j], files[j], hj, phash, digest);
  }

  /** Nearness is not transitive, and only saved images are scanned, so a
      deleted image blocks nothing. For three images whose hashes are `z`,
      `z` with 5 bits inverted and `z` with 10 bits inverted, the second is
      near the first and deleted; the third is near the second, which came
      before it, and is saved all the same. */
  lemma NearChain<D>(x0: UploadedFile, x1: UploadedFile, x2: UploadedFile, z: Fingerprint,
                     phash: Bytes -> Option<Fingerprint>, digest: Bytes -> D)
    requires Classify(x0.filename) == Image && Classify(x1.filename) == Image && Classify(x2.filename) == Image
    requires phash(x0.content) == Some(z)
    requires phash(x1.content) == Some(FlipFirst(z, 5)) && phash(x2.content) == Some(FlipFirst(z, 10))
    ensures Near(FlipFirst(z, 5), FlipFirst(z, 10))
    ensures Process([x0, x1, x2], phash, digest).savedFiles == [x0.filename, x2.filename]
    ensures Process([x0, x1, x2], phash, digest).deletedFiles == [x1.filename]
  {
    var h1, h2 := FlipFirst(z, 5), FlipFirst(z, 10);
    var b2 := Process([x0, x1], phash, digest);
    assert b2.imageHashes == map[x0.filename := z]
           && b2.savedFiles == [x0.filename] && b2.deletedFiles == [x1.filename] by {
      ThresholdBoundary(z, 5);
      NearImagePair(x0, x1, phash, digest);
    }
    assert !HasNearImage(b2.imageHashes, h2) by {
      ThresholdBoundary(z, 10);
      DistanceSymmetric(z, h2);
    }
    DistanceOfTwoFlips(z, 5, 10);
    ImageVerdict([x0, x1], x2, h2, phash, digest);
    assert [x0, x1] + [x2] == [x0, x1, x2];
  }

  // ---------------------------------------------------------------------
  // Whole batches

  /** A batch of one file is one step from the empty state. */
  lemma ProcessOne<D>(file: UploadedFile, phash: Bytes -> Option<Fingerprint>, digest: Bytes -> D)
    ensures Process([file], phash, digest) == Step(InitialState(), file, phash, digest)
  {
    assert [file][..0] == [];
  }

  /** Of two near images, the one that comes first is saved and the other
      deleted; reversing them swaps the roles, and either way one file is
      saved and one deleted. */
  lemma FirstOfNearPairWins<D>(x: UploadedFile, y: UploadedFile, hx: Fingerprint, hy: Fingerprint,
                               phash: Bytes -> Option<Fingerprint>, digest: Bytes -> D)
    requires Classify(x.filename) == Image && Classify(y.filename) == Image
    requires phash(x.content) == Some(hx) && phash(y.content) == Some(hy) && Near(hx, hy)
    ensures Process([x, y], phash, digest).savedFiles == [x.filename]
    ensures Process([x, y], phash, digest).deletedFiles == [y.filename]
    ensures Process([y, x], phash, digest).savedFiles == [y.filename]
    ensures Process([y, x], phash, digest).deletedFiles == [x.filename]
  {
    DistanceSymmetric(hx, hy);
    ProcessOne(x, phash, digest);
    ProcessOne(y, phash, digest);
    assert [x, y] == [x] + [y] && [y, x] == [y] + [x];
    ProcessAppend([x], y, phash, digest);
    ProcessAppend([y], x, phash, digest);
    var afterX, afterY := Process([x], phash, digest), Process([y], phash, digest);
    assert afterX.imageHashes == map[x.filename := hx];
    assert afterY.imageHashes == map[y.filename := hy];
    assert Near(hy, afterX.imageHashes[x.filename]);
    assert Near(hx, afterY.imageHashes[y.filename]);
  }

  /** Two images more than 5 bits apart are both saved, in input order. */
  lemma FarImagePair<D>(x: UploadedFile, y: UploadedFile, hx: Fingerprint, hy: Fingerprint,
                        phash: Bytes -> Option<Fingerprint>, digest: Bytes -> D)
    requires Classify(x.filename) == Image && Classify(y.filename) == Image
    requires phash(x.content) == Some(hx) && phash(y.content) == Some(hy) && !Near(hx, hy)
    ensures Process([x, y], phash, digest).savedFiles == [x.filename, y.filename]
    ensures Process([x, y], phash, digest).deletedFiles == []
  {
    ImageVerdict([], x, hx, phash, digest);
    assert [] + [x] == [x];
    ImageVerdict([x], y, hy, phash, digest);
    var afterX := Process([x], phash, digest);
    assert afterX.imageHashes == map[x.filename := hx];
    DistanceSymmetric(hx, hy);
    assert !HasNearImage(afterX.imageHashes, hy);
    assert [x] + [y] == [x, y];
  }

  /** Two documents with different digests are both saved, in input order. */
  lemma DistinctDocumentPair<D>(x: UploadedFile, y: UploadedFile,
                                phash: Bytes -> Option<Fingerprint>, digest: Bytes -> D)
    requires Classify(x.filename) == Document && Classify(y.filename) == Document
    requires digest(x.content) != digest(y.content)
    ensures Process([x, y], phash, digest).savedFiles == [x.filename, y.filename]
    ensures Process([x, y], phash, digest).deletedFiles == []
  {
    DocumentVerdict([], x, phash, digest);
    assert [] + [x] == [x];
    DocumentVerdict([x], y, phash, digest);
    var afterX := Process([x], phash, digest);
    assert afterX.docHashes == map[x.filename := digest(x.content)];
    assert [x] + [y] == [x, y];
  }

  /** Two near images alone: the first is saved and indexed, the second
      deleted, and no document is indexed. */
  lemma NearImagePair<D>(a: UploadedFile, b: UploadedFile, phash: Bytes -> Option<Fingerprint>, digest: Bytes -> D)
    requires Classify(a.filename) == Image && Classify(b.filename) == Image
    requires phash(a.content).Some? && phash(b.content).Some?
    requires Near(phash(a.content).value, phash(b.content).value)
    ensures var r := Process([a, b], phash, digest);
      && r.savedFiles == [a.filename] && r.deletedFiles == [b.filename]
      && r.imageHashes == map[a.filename := phash(a.content).value] && r.docHashes == map[]
  {
    var ha, hb := phash(a.content).value, phash(b.content).value;
    ImageVerdict([], a, ha, phash, digest);
    assert [] + [a] == [a];
    ImageVerdict([a], b, hb, phash, digest);
    var b1 := Process([a], phash, digest);
    assert b1.imageHashes == map[a.filename := ha];
    DistanceSymmetric(ha, hb);
    assert Near(hb, b1.imageHashes[a.filename]);
    assert [a] + [b] == [a, b];
  }

  /** Two documents with the same bytes after a prefix that indexed no
      document: the first is saved and the second deleted. */
  lemma CopiedDocumentPair<D>(files: seq<UploadedFile>, c: UploadedFile, d: UploadedFile,
                              phash: Bytes -> Option<Fingerprint>, digest: Bytes -> D)
    requires Classify(c.filename) == Document && Classify(d.filename) == Document
    requires c.content == d.content
    requires Process(files, phash, digest).docHashes == map[]
    ensures var b, r := Process(files, phash, digest), Process(files + [c, d], phash, digest);
      r.savedFiles == b.savedFiles + [c.filename] && r.deletedFiles == b.deletedFiles + [d.filename]
  {
    DocumentVerdict(files, c, phash, digest);
    var withC := files + [c];
    var b := Process(withC, phash, digest);
    assert b.docHashes == map[c.filename := digest(c.content)];
    assert b.docHashes[c.filename] in b.docHashes.Values;
    DocumentVerdict(withC, d, phash, digest);
    assert withC + [d] == files + [c, d];
  }

  /** Two copies of an image (the second a recompressed variant whose hash is
      within the threshold) followed by two identical text files: the first
      of each pair is saved and the second deleted. */
  lemma MixedBatchScenario<D>(a: UploadedFile, b: UploadedFile, c: UploadedFile, d: UploadedFile,
                              phash: Bytes -> Option<Fingerprint>, digest: Bytes -> D)
    requires Classify(a.filename) == Image && Classify(b.filename) == Image
    requires Classify(c.filename) == Document && Classify(d.filename) == Document
    requires phash(a.content).Some? && phash(b.content).Some?
    requires Near(phash(a.content).value, phash(b.content).value)
    requires c.content == d.content
    ensures Process([a, b, c, d], phash, digest).savedFiles == [a.filename, c.filename]
    ensures Process([a, b, c, d], phash, digest).deletedFiles == [b.filename, d.filename]
  {
    NearImagePair(a, b, phash, digest);
    CopiedDocumentPair([a, b], c, d, phash, digest);
    assert [a, b] + [c, d] == [a, b, c, d];
  }

  /** An undecodable image beside one document: only the document is saved,
      nothing is deleted, and the image is in neither list. */
  lemma CorruptImageScenario<D>(image: UploadedFile, doc: UploadedFile,
                                phash: Bytes -> Option<Fingerprint>, digest: Bytes -> D)
    requires Classify(image.filename) == Image && phash(image.content) == None
    requires Classify(doc.filename) == Document
    ensures Process([image, doc], phash, digest).savedFiles == [doc.filename]
    ensures Process([image, doc], phash, digest).deletedFiles == []
  {
    ProcessOne(image, phash, digest);
    assert [image, doc] == [image] + [doc];
    ProcessAppend([image], doc, phash, digest);
  }

  /** The document index is keyed by file name: a document saved under the
      name of an earlier one replaces that entry, so the earlier digest is
      forgotten and a later copy of the first document is saved again. */
  lemma OverwriteForgetsEarlierDigest<D>(first: UploadedFile, replacement: UploadedFile, copy: UploadedFile,
                                         phash: Bytes -> Option<Fingerprint>, digest: Bytes -> D)
    requires Classify(first.filename) == Document && Classify(copy.filename) == Document
    requires replacement.filename == first.filename
    requires digest(copy.content) == digest(first.content) != digest(replacement.content)
    ensures Process([first, replacement, copy], phash, digest).savedFiles
            == [first.filename, replacement.filename, copy.filename]
    ensures Process([first, replacement, copy], phash, digest).deletedFiles == []
  {
    DocumentVerdict([], first, phash, digest);
    assert [] + [first] == [first];
    DocumentVerdict([first], replacement, phash, digest);
    assert [first] + [replacement] == [first, replacement];
    var b2 := Process([first, replacement], phash, digest);
    assert b2.docHashes == map[first.filename := digest(replacement.content)];
    DocumentVerdict([first, replacement], copy, phash, digest);
    assert [first, replacement] + [copy] == [first, replacement, copy];
    assert digest(copy.content) !in b2.docHashes.Values;
  }
}
