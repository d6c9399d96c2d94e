/**
 The persisted index files. `utils.pickle` and `utils.unpickle` are modelled as
 an abstract store from file path to the offset sequence saved there; a path
 with no entry stands for every way an unpickle can fail (missing file,
 unreadable file, corrupt or foreign data).
 */
module IndexStore {
  import opened Wrappers

  type Path = string

  /** Byte offsets, one per document, in document-number order. */
  type Offsets = seq<nat>

  type Store = map<Path, Offsets>

  /** Reads the index at `path`; `None` is any failure of the read. */
  function Unpickle(store: Store, path: Path): (r: Option<Offsets>)
    ensures r.Some? <==> path in store
    ensures r.Some? ==> r.value == store[path]
  {
    if path in store then Some(store[path]) else None
  }

  /** Writes `offsets` to `path`, replacing whatever was stored there. */
  function Pickle(store: Store, offsets: Offsets, path: Path): (r: Store)
    ensures Unpickle(r, path) == Some(offsets)
    ensures forall p :: p != path ==> Unpickle(r, p) == Unpickle(store, p)
    ensures r.Keys == store.Keys + {path}
  {
    store[path := offsets]
  }
}
