# Batch deduplication of uploaded photos and documents

A Dafny model of the deduplication loop of the upload endpoint of the
"Photo & Document Deduplicator API". One call receives an ordered batch of
named files. For each file, in order, the loop:

- classifies it by the lower-cased extension of its name (images: `.jpg`,
  `.jpeg`, `.png`, `.bmp`, `.gif`, `.tiff`; documents: `.pdf`, `.docx`,
  `.txt`);
- for an image, computes a perceptual hash (an 8 x 8 grid of bits) and scans the stored image
  hashes for one within Hamming distance 5 (`IMAGE_HASH_THRESHOLD`);
- for a document, computes a digest and tests whether it is already stored;
- stores a file that is not a duplicate in its family's index under its file
  name and appends the name to `saved_files`, or appends the name of a
  duplicate to `deleted_duplicates`;
- silently drops files with any other extension and images that do not decode.

Modules, one file each:

- `classifier.dfy` (`Classifier`): `os.path.splitext` on POSIX names,
  lower-casing, and the two extension tables.
- `hamming.dfy` (`Hamming`): fingerprints as 64-position bit grids, Hamming
  distance as the number of positions that differ, and the threshold.
- `upload.dfy` (`Upload`): the loop as an imperative method, `UploadFiles`.
  It keeps the two dictionaries as `map`-valued locals and the two lists as
  `seq`-valued outputs. The image check is an inner loop with a break and an
  `isDuplicate` flag. The method is proved equal to a functional
  specification: `Process` folds `Step` over the batch, and `Step` applies the
  verdict `Judge` gives. `LoopState` is the loop's state after a prefix of the
  batch and `InitialState` the state before the first file.
- `properties.dfy` (`UploadProperties`): what the loop guarantees, proved
  about `Process`.

The two hash helpers are parameters of every member. `phash: Bytes ->
Option<Fingerprint>` returns `None` when the bytes do not decode as an image.
`digest: Bytes -> D` is any deterministic function into a type with equality.
Nothing is assumed about either beyond determinism, which holds because they
are functions. So `UploadFiles`'s outputs are a function of the batch: the
same batch always gives the same two lists.

The code and the design description of the system disagree in four places.
The model follows the code:

- The design calls each index an append-only list of entries. The code keeps
  dictionaries keyed by file name (app/main.py:86, 97). A file saved under a
  name already in the index replaces that entry, and its earlier hash is
  forgotten; `OverwriteForgetsEarlierDigest` shows the consequence.
- The design's decision names the entry that was matched. The code reports
  only the two name lists, so only whether a match exists matters
  (`HasNearImage`), and the order in which the dictionary is scanned does not
  affect the result.
- The design treats a failing digest as impossible. The code's
  `get_file_hash` may return `None` (app/main.py:60-66), and `None` is then
  compared like any other digest. Because the digest type `D` is left
  abstract, `None` is simply one more value of `D`.
- The design says an image near an earlier one is its duplicate, and that
  images more than the threshold apart are both kept. The code scans only the
  hashes of saved images (app/main.py:79-86), and nearness is not transitive,
  so a deleted image never blocks a later one. The near-pair promise holds
  when the earlier image was saved (`NearSavedImageBlocksLater`). It fails
  for a chain of three hashes, each 5 bits from the one before: the second
  is deleted, and the third, though near the second, is saved (`NearChain`).

## Model

| member | source | states |
|---|---|---|
| `Upload.UploadFiles` | app/main.py:41-100 | The loop's two output lists are exactly those of the functional specification `Process` for every batch and every pair of hash functions. The inner scan finds a near stored hash exactly when one exists, whatever order the keys are visited in. |
| `Upload.Process` | app/main.py:68-100 | The loop as a fold of `Step` over the batch. `Upload.UploadFiles` is proved to return its lists. `ProcessKeepsIndexInvariant`, `OutputListsArePicks`, `OutputsCountHandledFiles` and `EarlierDecisionsStand` state what they are. |
| `Upload.Step` | app/main.py:73-100 | One iteration of the loop body. `ImageVerdict`, `DocumentVerdict`, `UnsupportedFileIsIgnored` and `UndecodableImageIsIgnored` give its complete result in each case. |
| `Upload.Judge` | app/main.py:73-93 | The verdict on one file: dropped, deleted or saved. `DroppedIffUnhandled` and the two verdict lemmas state when each is given. |
| `Upload.HasNearImage` | app/main.py:78-84 | Whether some stored image hash is near the new one. `Upload.UploadFiles` proves the inner scan with its break finds a match exactly when this holds. |
| `UploadProperties.UnsupportedFileIsIgnored` | app/main.py:70-91 | A file whose lower-cased extension is in neither table changes nothing: it is in neither output list and both indices are unchanged. |
| `UploadProperties.UndecodableImageIsIgnored` | app/main.py:52-76 | An image whose hash fails changes nothing: it is in neither output list and both indices are unchanged. |
| `UploadProperties.ImageVerdict` | app/main.py:78-89 | An image goes to the deleted list exactly when some stored image hash is within 5 bits of its own. A duplicate leaves both indices unchanged. Otherwise the image is stored under its name and appended to the saved list, and nothing else changes. |
| `UploadProperties.DocumentVerdict` | app/main.py:92-100 | A document goes to the deleted list exactly when its digest is among the stored digests. Otherwise it is stored under its name and appended to the saved list, and nothing else changes. |
| `UploadProperties.StepKeepsIndexInvariant` | app/main.py:78-100 | One iteration preserves the index invariant, also when a repeated file name overwrites an entry. The invariant: stored digests are pairwise distinct, stored image hashes are pairwise more than 5 bits apart, and every indexed name is a saved name of that family. |
| `UploadProperties.ProcessKeepsIndexInvariant` | app/main.py:68-100 | After every prefix of every batch, the index invariant holds. |
| `UploadProperties.OutputListsArePicks` | app/main.py:68-100 | The saved list is the names of the files judged saved, and the deleted list the names of those judged duplicates, each in input order. So both lists are subsequences of the input names. |
| `UploadProperties.DroppedIffUnhandled` | app/main.py:70-91 | A file is dropped exactly when its extension is in neither table, or it is an image whose hash fails. So every other file is in exactly one of the two lists. |
| `UploadProperties.OutputsCountHandledFiles` | app/main.py:68-100 | The lengths of the two lists add up to the number of supported, hashable files in the batch. |
| `UploadProperties.EarlierDecisionsStand` | app/main.py:68-100 | The verdicts on a prefix of the batch are a prefix of the verdicts on the whole batch. The lists after a prefix are prefixes of the final lists, so a later file never displaces an earlier one. |
| `UploadProperties.ImagesIgnoreDocuments` | app/main.py:73-100 | The image index, and the image names in each output list, are what the batch's images alone would produce. An image is never judged against a document. |
| `UploadProperties.DocumentsIgnoreImages` | app/main.py:73-100 | The document index, and the document names in each output list, are what the batch's documents alone would produce. A document is never judged against an image. |
| `UploadProperties.RepeatedImageIsDuplicate` | app/main.py:78-89 | An image with the same perceptual hash as the image just before it is always deleted, whether that earlier image was saved or was itself a duplicate. |
| `UploadProperties.RepeatedDocumentIsDuplicate` | app/main.py:92-100 | A document with the same digest as the document just before it is always deleted, whether that earlier document was saved or was itself a duplicate. |
| `UploadProperties.KeysAreEarlierNames` | app/main.py:78-100 | Every name in either index is the name of some file of the batch. |
| `UploadProperties.IndicesOnlyGrow` | app/main.py:78-100 | When every file in the batch has its own name, an entry once indexed stays, with the same hash, for the rest of the batch. |
| `UploadProperties.CopiedDocumentIsDuplicate` | app/main.py:92-100 | When every file in the batch has its own name, a document whose digest equals that of any earlier document is deleted and changes nothing else. So only the first file of each content is saved. |
| `UploadProperties.CopiedImageIsDuplicate` | app/main.py:78-89 | When every file in the batch has its own name, an image whose perceptual hash equals that of any earlier image is deleted and changes nothing else. |
| `UploadProperties.NearSavedImageBlocksLater` | app/main.py:78-89 | When every file in the batch has its own name, an image that was saved blocks every later image near it: that later image is deleted and changes nothing else. |
| `UploadProperties.NearChain` | app/main.py:78-89 | For three images whose hashes are z, z with 5 bits inverted and z with 10 bits inverted, the third is near the second, yet the second is deleted and the third saved. So only saved images block later ones. |
| `UploadProperties.FirstOfNearPairWins` | app/main.py:78-89 | Of two near images, the first in input order is saved and the second deleted. Reversing the pair swaps the roles, and one file is saved and one deleted either way. |
| `UploadProperties.FarImagePair` | app/main.py:78-89 | Two images more than 5 bits apart are both saved, in input order, and nothing is deleted. |
| `UploadProperties.DistinctDocumentPair` | app/main.py:92-100 | Two documents with different digests are both saved, in input order, and nothing is deleted. |
| `UploadProperties.NearImagePair` | app/main.py:78-89 | Two near images alone: the first is saved and is the only indexed image, the second is deleted, and no document is indexed. |
| `UploadProperties.CopiedDocumentPair` | app/main.py:92-100 | After any prefix that indexed no document, two documents with the same bytes append the first to the saved list and the second to the deleted list. |
| `UploadProperties.MixedBatchScenario` | app/main.py:68-100 | For a batch of two images whose hashes are within 5 bits, then two documents with the same bytes, the saved list is the first image and the first document, and the deleted list is the second image and the second document, in that order. |
| `UploadProperties.CorruptImageScenario` | app/main.py:52-100 | An undecodable image followed by one document: only the document is saved, nothing is deleted, and the image is in neither list. |
| `UploadProperties.OverwriteForgetsEarlierDigest` | app/main.py:92-100 | Three documents in order: the first, one under the same name with a different digest, and a copy of the first. All three are saved. The second overwrote the first's dictionary entry, so the first's digest was no longer in the index. |
| `Classifier.Extension` | app/main.py:70 | `os.path.splitext` on a POSIX name, scanning from the end. `ExtensionShape`, `ExtensionOfDottedName` and the four classification examples state what it yields. |
| `Classifier.LowerChar` | app/main.py:70 | `str.lower` on one character, for ASCII capitals only. |
| `Classifier.Lower` | app/main.py:70 | Lower-casing keeps the length. Only the ASCII capitals change, each to its small letter, and the result holds no ASCII capital. |
| `Classifier.LowerIdempotent` | app/main.py:70 | Lower-casing twice is lower-casing once. |
| `Classifier.Classify` | app/main.py:48-73 | The family given by looking the lower-cased extension up in the image table, then the document table. `ClassifyByTable` states it, and the `Classify...` examples apply it to concrete names. |
| `Classifier.ExtensionShape` | app/main.py:70 | The extension is empty or a suffix of the name. A non-empty extension starts with a dot and has no other dot and no `/`. |
| `Classifier.ExtensionOfDottedName` | app/main.py:70 | For `stem.suffix`, where the stem's last component holds a character other than a dot and the suffix holds neither a dot nor `/`, the extension is `.suffix`. |
| `Classifier.ExtensionOfLower` | app/main.py:70 | Taking the extension commutes with lower-casing the name. |
| `Classifier.ClassifyIgnoresCase` | app/main.py:70-73 | Two names that agree once lower-cased fall into the same family. |
| `Classifier.ClassifyByTable` | app/main.py:48-49 | The two tables are disjoint. A name is an image exactly when its lower-cased extension is in the image table, a document exactly when it is in the document table, and unsupported otherwise. |
| `Classifier.ClassifyUpperCaseImage` | app/main.py:70-73 | The extension is lower-cased before lookup, so `IMG.JPG` is an image. |
| `Classifier.ClassifyLeadingDot` | app/main.py:70-73 | A name made of a leading dot and a known extension, `.png`, has no extension and is unsupported. |
| `Classifier.ClassifyLastDot` | app/main.py:70-73 | Only the text from the last dot counts: `report.tar.PDF` is a document. |
| `Classifier.ClassifyUnknownExtension` | app/main.py:70-73 | An extension in neither table, as in `notes.xyz`, makes the file unsupported. |
| `Hamming.Distance` | app/main.py:80 | The distance between two hashes is at most 64, the number of grid positions. |
| `Hamming.Near` | app/main.py:80 | The comparison `<= IMAGE_HASH_THRESHOLD` against 5. `ThresholdBoundary` shows the bound is inclusive. |
| `Hamming.DistanceOfTwoFlips` | app/main.py:80 | Inverting the first j bits and the first k bits of the same hash gives two hashes at distance k - j. |
| `Hamming.DistanceCountsDifferingPositions` | app/main.py:80 | The distance is exactly the number of positions at which the two hashes hold different bits. |
| `Hamming.DistanceZeroIffEqual` | app/main.py:80 | Two hashes are at distance 0 exactly when they are equal. |
| `Hamming.ThresholdBoundary` | app/main.py:80 | Inverting k bits of a hash puts it at distance k. The threshold is inclusive: up to 5 inverted bits is near, 6 or more is not. |
| `Hamming.DistanceToSelf` | app/main.py:80 | A hash is at distance 0 from itself, so equal hashes are always within the threshold. |
| `Hamming.DistanceSymmetric` | app/main.py:80 | Distance, and so being within the threshold, does not depend on argument order. |

## Left out

- The web layer is not modelled: FastAPI routes, the `root` and `favicon` endpoints, and the response envelope. The model returns the two name lists; the `firebase_user` field is left out.
- Firebase initialisation and token verification (`get_current_user`) are left out. They are an external identity service, and the loop never uses the identity.
- Creating the upload directory, joining the path, writing saved files and `await file.read()` are file and network I/O. The batch is a given sequence of (name, bytes) pairs.
- The internals of `PIL.Image.open`, `imagehash.phash` and `hashlib.md5` are left out, because they are foreign library code. They are parameters. Nothing about perceptual similarity or digest collisions is claimed.
- Hamming distance is taken to be what subtracting two `imagehash` hashes yields: the count of differing bits of the 8 x 8 hash. The `imagehash` library is not part of this model.
- `Upload.UploadFiles` assumes every write of a saved file succeeds. In the handler, `open(file_path, "wb")` (app/main.py:87, 98) can raise, for instance for a name with a directory part that does not exist under `uploaded_files`, or a name that is too long. The exception then aborts the whole request, and no lists are returned. The model returns both lists for such a batch.
- The diagnostic `print` calls are side output only and are left out.
- `Classifier.Extension` follows `os.path.splitext` for POSIX names only: `/` is the only separator, and a Windows `\` is an ordinary character.
- `Classifier.Lower` lower-cases the ASCII letters `A`-`Z` only. Python's `str.lower` also maps non-ASCII characters, and a few of them lower-case to ASCII: the Kelvin sign U+212A becomes `k`, and `İ` becomes `i` followed by U+0307. Classification is still the same, because no non-ASCII character lower-cases to text that completes an extension in either table. No table extension contains `k`, and a combining mark never belongs to one.
- The inner image scan visits the dictionary's keys in an arbitrary order instead of insertion order. The outputs do not depend on it, because the loop records only whether a match exists.
