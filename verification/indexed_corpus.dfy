/**
 Random access into a sequentially stored corpus through a persisted table of
 byte offsets: the index-path rule, opening a handle (which loads the index if
 it can), saving a corpus together with its index, and looking a document up by
 its number.
 */
module IndexedCorpus {
  import opened Wrappers
  import opened IndexStore

  /** Appended to the storage path when no index path is given. */
  const IndexSuffix: string := ".index"

  /** The conditions the operations raise. */
  datatype Error =
      /** `NotImplementedError`: the serializer's write reports no offsets. */
    | NotImplemented(serializerName: string)
      /** `RuntimeError`: `corpus[docno]` on a handle without an index. */
    | NoIndex
      /** `IndexError`: `docno` is not a position of the loaded index. */
    | DocnoOutOfRange(docno: nat, length: nat)

  /**
   The storage format a corpus class plugs in. `saveCorpus(fname, docs)` writes
   `docs` to `fname` and returns the offset of each document, or `None` when the
   format cannot report offsets; `docByOffset(fname, offset)` decodes the
   document stored at `offset` in `fname`.
   */
  datatype Serializer<!Doc> = Serializer(
    name: string,
    saveCorpus: (Path, seq<Doc>) -> Option<Offsets>,
    docByOffset: (Path, nat) -> Doc)

  /** An open corpus: its storage path and the index loaded for it, if any. */
  datatype Corpus = Corpus(fname: Path, index: Option<Offsets>)

  /** The outcome of a save: the index files afterwards, and the error raised, if any. */
  datatype Saved = Saved(store: Store, raised: Option<Error>)

  /**
   What a serializer promises: when it reports offsets for writing `docs` to
   `fname`, there is one per document and each leads back to its document.
   */
  ghost predicate ReadsBack<Doc>(serializer: Serializer<Doc>, fname: Path, docs: seq<Doc>)
  {
    match serializer.saveCorpus(fname, docs)
    case None => true
    case Some(offsets) =>
      && |offsets| == |docs|
      && forall i :: 0 <= i < |docs| ==> serializer.docByOffset(fname, offsets[i]) == docs[i]
  }

  /** The index file of storage `fname`: the explicit one, else `fname` with the suffix appended. */
  function IndexPath(fname: Path, indexFname: Option<Path>): (p: Path)
    ensures indexFname.Some? ==> p == indexFname.value
    ensures indexFname.None? ==> |p| == |fname| + |IndexSuffix|
    ensures indexFname.None? ==> p[..|fname|] == fname && p[|fname|..] == IndexSuffix
  {
    match indexFname
    case Some(path) => path
    case None => fname + IndexSuffix
  }

  /**
   Opens a corpus handle. A failed index load is absorbed: the handle simply
   has no index, and opening itself never fails.
   */
  function Open(store: Store, fname: Path, indexFname: Option<Path>): (c: Corpus)
    ensures c.fname == fname
    ensures c.index.Some? <==> IndexPath(fname, indexFname) in store
    ensures c.index.Some? ==> c.index.value == store[IndexPath(fname, indexFname)]
  {
    Corpus(fname, Unpickle(store, IndexPath(fname, indexFname)))
  }

  /**
   Writes `docs` to `fname` with the serializer and persists the offsets it
   reports at the index path. When the serializer reports none, the save
   raises and no index file is touched.
   */
  function SaveIndexedCorpus<Doc>(serializer: Serializer<Doc>, store: Store, fname: Path,
                                  docs: seq<Doc>, indexFname: Option<Path>): (r: Saved)
    ensures r.raised.Some? <==> serializer.saveCorpus(fname, docs).None?
    ensures r.raised.Some? ==> r.raised.value == NotImplemented(serializer.name) && r.store == store
    ensures r.raised.None? ==>
              && r.store.Keys == store.Keys + {IndexPath(fname, indexFname)}
              && r.store[IndexPath(fname, indexFname)] == serializer.saveCorpus(fname, docs).value
    ensures forall p :: p in store && p != IndexPath(fname, indexFname) ==> p in r.store && r.store[p] == store[p]
  {
    match serializer.saveCorpus(fname, docs)
    case None => Saved(store, Some(NotImplemented(serializer.name)))
    case Some(offsets) => Saved(Pickle(store, offsets, IndexPath(fname, indexFname)), None)
  }

  /**
   `corpus[docno]`: the document at the offset the index records for `docno`.
   Without an index the lookup raises, whatever `docno` is; past the end of the
   index it raises an out-of-range error.
   */
  function GetItem<Doc>(serializer: Serializer<Doc>, corpus: Corpus, docno: nat): (r: Result<Doc, Error>)
    ensures corpus.index.None? ==> r == Err(NoIndex)
    ensures r.Ok? <==> corpus.index.Some? && docno < |corpus.index.value|
    ensures r.Ok? ==> r.value == serializer.docByOffset(corpus.fname, corpus.index.value[docno])
    ensures corpus.index.Some? && |corpus.index.value| <= docno ==>
              r == Err(DocnoOutOfRange(docno, |corpus.index.value|))
  {
    match corpus.index
    case None => Err(NoIndex)
    case Some(index) =>
      if docno < |index| then Ok(serializer.docByOffset(corpus.fname, index[docno]))
      else Err(DocnoOutOfRange(docno, |index|))
  }

  /** The documents an index leads to, in document-number order. */
  function DocsAt<Doc>(serializer: Serializer<Doc>, fname: Path, offsets: Offsets): (docs: seq<Doc>)
    ensures |docs| == |offsets|
  {
    seq(|offsets|, i requires 0 <= i < |offsets| => serializer.docByOffset(fname, offsets[i]))
  }

  /**
   `for i in xrange(len(corpus)): doc = corpus[i]`, with `length` standing for
   `len(corpus)`: the iteration pattern the class documentation warns is much
   slower than sequential iteration. The first lookup that raises ends the
   loop with its error; otherwise the result holds one document per docno.
   */
  method ReadByIndex<Doc>(serializer: Serializer<Doc>, corpus: Corpus, length: nat)
    returns (r: Result<seq<Doc>, Error>)
    ensures r.Ok? <==> length == 0 || (corpus.index.Some? && length <= |corpus.index.value|)
    ensures corpus.index.None? && 0 < length ==> r == Err(NoIndex)
    ensures corpus.index.Some? && |corpus.index.value| < length ==>
              r == Err(DocnoOutOfRange(|corpus.index.value|, |corpus.index.value|))
    ensures r.Ok? ==> |r.value| == length
    ensures r.Ok? ==> forall docno :: 0 <= docno < |r.value| ==> GetItem(serializer, corpus, docno) == Ok(r.value[docno])
    ensures r.Ok? && corpus.index.Some? ==> r.value == DocsAt(serializer, corpus.fname, corpus.index.value[..length])
  {
    var docs: seq<Doc> := [];
    var docno := 0;
    while docno < length
      invariant docno <= length
      invariant |docs| == docno
      invariant corpus.index.None? ==> docno == 0
      invariant corpus.index.Some? ==> docno <= |corpus.index.value|
      invariant forall i :: 0 <= i < docno ==> GetItem(serializer, corpus, i) == Ok(docs[i])
    {
      var item := GetItem(serializer, corpus, docno);
      if item.Err? {
        return Err(item.error);
      }
      docs := docs + [item.value];
      docno := docno + 1;
    }
    if corpus.index.Some? {
      var read := DocsAt(serializer, corpus.fname, corpus.index.value[..length]);
      assert docs == read by {
        forall i | 0 <= i < |docs|
          ensures docs[i] == read[i]
        {
          assert GetItem(serializer, corpus, i) == Ok(docs[i]);
        }
      }
    }
    return Ok(docs);
  }
}
