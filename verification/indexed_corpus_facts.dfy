/**
 Properties that relate several operations: the shared default path, the
 save/open round trip, what a save leaves alone, how a missing index disables
 random access, and the example from the class documentation.
 */
module IndexedCorpusFacts {
  import opened Wrappers
  import opened IndexStore
  import opened IndexedCorpus

  /** Two storage files never share a default index file. */
  lemma DefaultIndexPathInjective(fname1: Path, fname2: Path)
    ensures IndexPath(fname1, None) == IndexPath(fname2, None) <==> fname1 == fname2
  {
  }

  /**
   Save and open apply the same path rule: whatever index path is given (or
   none at both), opening the saved storage loads exactly the offsets the
   serializer reported, and under the serializer's promise there is one per
   document written.
   */
  lemma SaveThenOpen<Doc>(serializer: Serializer<Doc>, store: Store, fname: Path,
                          docs: seq<Doc>, indexFname: Option<Path>)
    requires serializer.saveCorpus(fname, docs).Some?
    ensures SaveIndexedCorpus(serializer, store, fname, docs, indexFname).raised == None
    ensures Open(SaveIndexedCorpus(serializer, store, fname, docs, indexFname).store, fname, indexFname).index
            == serializer.saveCorpus(fname, docs)
    ensures ReadsBack(serializer, fname, docs) ==>
              |Open(SaveIndexedCorpus(serializer, store, fname, docs, indexFname).store, fname, indexFname).index.value| == |docs|
  {
  }

  /**
   After a successful save and an open with the same paths, `corpus[docno]`
   returns the `docno`-th document written, and raises out-of-range past the
   last one.
   */
  lemma SaveThenGetItem<Doc>(serializer: Serializer<Doc>, store: Store, fname: Path,
                             docs: seq<Doc>, indexFname: Option<Path>, docno: nat)
    requires serializer.saveCorpus(fname, docs).Some?
    requires ReadsBack(serializer, fname, docs)
    ensures var corpus := Open(SaveIndexedCorpus(serializer, store, fname, docs, indexFname).store, fname, indexFname);
            GetItem(serializer, corpus, docno)
            == if docno < |docs| then Ok(docs[docno]) else Err(DocnoOutOfRange(docno, |docs|))
  {
  }

  /** Reading every docno of a freshly saved and reopened corpus gives back the documents written. */
  lemma SaveThenReadAll<Doc>(serializer: Serializer<Doc>, store: Store, fname: Path,
                             docs: seq<Doc>, indexFname: Option<Path>)
    requires serializer.saveCorpus(fname, docs).Some?
    requires ReadsBack(serializer, fname, docs)
    ensures var corpus := Open(SaveIndexedCorpus(serializer, store, fname, docs, indexFname).store, fname, indexFname);
            corpus.index.Some? && DocsAt(serializer, fname, corpus.index.value) == docs
  {
  }

  /** A save the serializer cannot index leaves every handle opened afterwards as it was before. */
  lemma FailedSaveChangesNoHandle<Doc>(serializer: Serializer<Doc>, store: Store, fname: Path,
                                       docs: seq<Doc>, indexFname: Option<Path>,
                                       otherFname: Path, otherIndexFname: Option<Path>)
    requires serializer.saveCorpus(fname, docs).None?
    ensures SaveIndexedCorpus(serializer, store, fname, docs, indexFname).raised == Some(NotImplemented(serializer.name))
    ensures Open(SaveIndexedCorpus(serializer, store, fname, docs, indexFname).store, otherFname, otherIndexFname)
            == Open(store, otherFname, otherIndexFname)
  {
  }

  /** A save only affects handles whose index path is the one it wrote. */
  lemma SaveLeavesOtherIndexesAlone<Doc>(serializer: Serializer<Doc>, store: Store, fname: Path,
                                         docs: seq<Doc>, indexFname: Option<Path>,
                                         otherFname: Path, otherIndexFname: Option<Path>)
    requires IndexPath(otherFname, otherIndexFname) != IndexPath(fname, indexFname)
    ensures Open(SaveIndexedCorpus(serializer, store, fname, docs, indexFname).store, otherFname, otherIndexFname)
            == Open(store, otherFname, otherIndexFname)
  {
  }

  /** With default index paths, saving one storage file never changes what another one opens with. */
  lemma DefaultSaveLeavesOtherCorporaAlone<Doc>(serializer: Serializer<Doc>, store: Store, fname: Path,
                                                docs: seq<Doc>, otherFname: Path)
    requires otherFname != fname
    ensures Open(SaveIndexedCorpus(serializer, store, fname, docs, None).store, otherFname, None)
            == Open(store, otherFname, None)
  {
  }

  /** A handle whose index could not be loaded refuses every lookup with the same error. */
  lemma NoIndexRefusesEveryDocno<Doc>(serializer: Serializer<Doc>, store: Store, fname: Path,
                                      indexFname: Option<Path>)
    requires IndexPath(fname, indexFname) !in store
    ensures Open(store, fname, indexFname).index == None
    ensures forall docno: nat :: GetItem(serializer, Open(store, fname, indexFname), docno) == Err(NoIndex)
  {
  }

  /** Deleting the index file after a save leaves the reopened corpus without random access. */
  lemma DeletedIndexDisablesRandomAccess<Doc>(serializer: Serializer<Doc>, store: Store, fname: Path,
                                              docs: seq<Doc>, docno: nat)
    ensures var saved := SaveIndexedCorpus(serializer, store, fname, docs, None).store;
            var corpus := Open(saved - {IndexPath(fname, None)}, fname, None);
            corpus.index == None && GetItem(serializer, corpus, docno) == Err(NoIndex)
  {
  }

  /**
   The class documentation's example as written: two documents saved to
   "testfile.svmlight", then the corpus opened as "tstfile.svmlight". Unless
   some index happened to be stored for the misspelt name, the handle has no
   index and `corpus[1]` raises instead of returning the second document.
   */
  lemma DocExampleAsWritten<Doc>(serializer: Serializer<Doc>, store: Store, docs: seq<Doc>)
    requires "tstfile.svmlight.index" !in store
    ensures var saved := SaveIndexedCorpus(serializer, store, "testfile.svmlight", docs, None).store;
            GetItem(serializer, Open(saved, "tstfile.svmlight", None), 1) == Err(NoIndex)
  {
    assert IndexPath("testfile.svmlight", None) == "testfile.svmlight.index";
    assert IndexPath("tstfile.svmlight", None) == "tstfile.svmlight.index";
    assert "testfile.svmlight.index" != "tstfile.svmlight.index" by {
      assert |"testfile.svmlight.index"| != |"tstfile.svmlight.index"|;
    }
  }

  /** The example as intended, opening the file it saved: `corpus[1]` is the second document. */
  lemma DocExample<Doc>(serializer: Serializer<Doc>, store: Store, docs: seq<Doc>)
    requires |docs| == 2
    requires serializer.saveCorpus("testfile.svmlight", docs).Some?
    requires ReadsBack(serializer, "testfile.svmlight", docs)
    ensures var saved := SaveIndexedCorpus(serializer, store, "testfile.svmlight", docs, None).store;
            GetItem(serializer, Open(saved, "testfile.svmlight", None), 1) == Ok(docs[1])
  {
  }
}
