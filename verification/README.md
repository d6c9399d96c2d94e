# IndexedCorpus: random access into a sequentially stored corpus

gensim stores a corpus as one file that is normally read front to back. `IndexedCorpus`
(`src/gensim/corpora/indexedcorpus.py`) makes random access possible. When a corpus is
saved, the byte offset of each document is recorded. These offsets (the *index*) are
pickled to a second file. When a corpus is opened, the index is loaded if possible.
`corpus[docno]` then decodes the document at `index[docno]`.

This Dafny project models that component:

- `Wrappers`: `Option` (Python's `None` or a value) and `Result` (a value or a raised error).
- `IndexStore`: the persisted index files. It stands in for `utils.pickle` and
  `utils.unpickle` and maps a path to the offset sequence stored there. A path with no
  entry models every way unpickling can fail.
- `IndexedCorpus`: the index-path rule, `Open` (the constructor), `SaveIndexedCorpus`,
  `GetItem` (`__getitem__`) and `ReadByIndex`. `ReadByIndex` is the loop
  `for i in xrange(len(corpus)): doc = corpus[i]`, with `len(corpus)` given as a
  parameter. The serializer is a datatype holding two functions:
  - `saveCorpus` writes the documents and returns the offsets, or `None`;
  - `docByOffset` decodes the document at an offset of a storage file.

  The predicate `ReadsBack` states what a serializer promises: one offset per document,
  and each offset leads back to its document.
- `IndexedCorpusFacts`: lemmas that connect the operations: the save/open round trip,
  framing, how a missing index behaves, and the documentation example.

A handle is the immutable value `Corpus(fname, index)`. Its index is either `None` (the
NoIndex state) or `Some(offsets)` (the IndexLoaded state). A lookup does not change the
handle, so a handle never moves from one state to the other.

## Model

| member | source | states |
|---|---|---|
| IndexedCorpus.IndexPath | src/gensim/corpora/indexedcorpus.py:69-70 | an explicit index path is used unchanged; otherwise the path is the storage path followed by exactly the suffix ".index" |
| IndexedCorpusFacts.DefaultIndexPathInjective | src/gensim/corpora/indexedcorpus.py:45-46 | two storage paths have the same default index path if and only if they are the same path |
| IndexStore.Unpickle | src/gensim/corpora/indexedcorpus.py:48-51 | a path with a stored entry loads exactly that entry; every other path is a failed load, reported as None and never as an error |
| IndexStore.Pickle | src/gensim/corpora/indexedcorpus.py:79 | after pickling offsets to a path, unpickling that path returns exactly those offsets; every other path unpickles as before |
| IndexedCorpus.Open | src/gensim/corpora/indexedcorpus.py:45-51 | opening never fails; the handle has an index exactly when the index path holds one, and then the index is the stored sequence |
| IndexedCorpus.SaveIndexedCorpus | src/gensim/corpora/indexedcorpus.py:55-79 | the save raises NotImplementedError naming the serializer exactly when saveCorpus returns None, and then no index file changes; otherwise the index path holds the returned offsets; in both cases other index files are kept |
| IndexedCorpus.GetItem | src/gensim/corpora/indexedcorpus.py:82-85 | without an index the lookup raises the no-index error; it succeeds exactly when docno is below the index length, and then returns the document at the indexed offset; otherwise it raises out-of-range |
| IndexedCorpus.ReadByIndex | src/gensim/corpora/indexedcorpus.py:32-33 | looking up docnos 0 to len(corpus)-1 in turn succeeds exactly when len(corpus) is 0 or an index of at least that length is loaded, and then returns the documents at the first len(corpus) indexed offsets in order, each the one the lookup returns; otherwise it raises the no-index error, or the out-of-range error for the first docno past the index |
| IndexedCorpusFacts.SaveThenOpen | src/gensim/corpora/indexedcorpus.py:45-79 | a successful save followed by an open with the same paths loads exactly the reported offsets, in the same order, one per document written |
| IndexedCorpusFacts.SaveThenGetItem | src/gensim/corpora/indexedcorpus.py:61-66 | after save and open, the lookup of docno returns the docno-th document written, and raises out-of-range past the last one |
| IndexedCorpusFacts.SaveThenReadAll | src/gensim/corpora/indexedcorpus.py:32-33 | reading every docno of a freshly saved corpus gives back exactly the documents written, in order |
| IndexedCorpusFacts.FailedSaveChangesNoHandle | src/gensim/corpora/indexedcorpus.py:72-75 | a save whose serializer reports no offsets raises NotImplementedError, and every handle opened afterwards equals the handle opened before |
| IndexedCorpusFacts.SaveLeavesOtherIndexesAlone | src/gensim/corpora/indexedcorpus.py:77-79 | a save changes only handles whose index path is the path it wrote |
| IndexedCorpusFacts.DefaultSaveLeavesOtherCorporaAlone | src/gensim/corpora/indexedcorpus.py:69-70 | with default index paths, saving one storage file never changes how a different storage file opens |
| IndexedCorpusFacts.NoIndexRefusesEveryDocno | src/gensim/corpora/indexedcorpus.py:83-84 | when the index file cannot be loaded, the handle has no index and every docno is refused with the no-index error |
| IndexedCorpusFacts.DeletedIndexDisablesRandomAccess | src/gensim/corpora/indexedcorpus.py:47-51 | deleting the index file after a save gives a handle without an index, and every lookup on it fails |
| IndexedCorpusFacts.DocExampleAsWritten | src/gensim/corpora/indexedcorpus.py:35-42 | the documentation example saves to one name and opens another, so corpus[1] raises the no-index error |
| IndexedCorpusFacts.DocExample | src/gensim/corpora/indexedcorpus.py:35-42 | with matching names, the example's corpus[1] is the second document saved |

## Left out

- File I/O and pickling. `utils.pickle` and `utils.unpickle` are not part of this model.
  They are replaced by the path-to-offsets store. Unpickling an object that is not an
  offset list is not modelled.
- Storage formats such as `SvmLightCorpus`. They are not part of this model. `saveCorpus`
  and `docbyoffset` are opaque functions. Writing the storage file is not modelled; that
  includes the write that happens before the `None` check.
- The decoded document depends only on the storage path and the offset. It is assumed
  that the storage file does not change between save and lookup.
- IndexStore.Pickle: cannot fail. At line 79, `utils.pickle` can raise, for example when
  the index path is not writable, after `saveCorpus` has already written the storage file.
  `SaveIndexedCorpus` raises only `NotImplementedError`, so such a write error is not modelled.
- `len(corpus)` comes from the concrete corpus class, which is not part of this model.
  `ReadByIndex` takes it as a parameter.
- Logging (lines 49 and 78).
- Negative docnos. Python's `index[-1]` wraps around. Docnos are natural numbers here.
- Sequential iteration through `interfaces.CorpusABC`. It is inherited and not part of
  this model.
- Concurrent access by several processes.
- A failed save is not required to remove an older index file at the index path. The code
  does not delete such a file, so after `NotImplementedError` any earlier index is still
  there and still loads.

## Findings

| source | as written | input that shows it | evidently intended | confidence | as-written member | corrected member |
|---|---|---|---|---|---|---|
| src/gensim/corpora/indexedcorpus.py:37-41 | the example saves `'testfile.svmlight'` but opens `'tstfile.svmlight'` | a store with no `tstfile.svmlight.index`: the reopened handle has no index, so `corpus_with_random_access[1]` raises RuntimeError | open `'testfile.svmlight'` and print the second document | high; not executed | IndexedCorpusFacts.DocExampleAsWritten | IndexedCorpusFacts.DocExample |
