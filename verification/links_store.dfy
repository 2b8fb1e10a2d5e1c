/**
 The persisted seen-set store of the photo checker (`load_links` / `save_links`).
 The links file holds a JSON object mapping a source key to a list of post ids;
 list order and duplicates carry no meaning, because `load_links` turns the list
 into a set, so the model keeps a set per key.
 */
module LinksStore {
  import opened Common

  /** Post identifiers as VK returns them. */
  type Id = int

  /** The state of the links file on disk. */
  datatype LinksFile =
    /** No file at the configured path (`FileNotFoundError`). */
    | Missing
    /** A file `json.load` rejects, or whose top level is not an object. */
    | Unreadable
    /** A readable JSON object: key -> set of ids. */
    | Stored(data: map<string, set<Id>>)

  /** What `json.load` yields, with an absent file read as `{}`. */
  function Contents(f: LinksFile): (r: Result<map<string, set<Id>>>)
    ensures r.Err? <==> f.Unreadable?
    ensures f.Missing? ==> r == Ok(map[])
    ensures f.Stored? ==> r == Ok(f.data)
  {
    match f
    case Missing => Ok(map[])
    case Unreadable => Err(StoreUnreadable)
    case Stored(data) => Ok(data)
  }

  /** `load_links(key)`: the ids stored under `key`; empty when the file or the key is absent. */
  function Load(f: LinksFile, key: string): (r: Result<set<Id>>)
    ensures r.Err? <==> f.Unreadable?
    ensures f.Missing? ==> r == Ok({})
    ensures f.Stored? && key !in f.data ==> r == Ok({})
    ensures f.Stored? && key in f.data ==> r == Ok(f.data[key])
  {
    match Contents(f)
    case Err(e) => Err(e)
    case Ok(data) => Ok(if key in data then data[key] else {})
  }

  /** `save_links(key, links)`: rewrites the whole file with the entry for `key` replaced. */
  function Save(f: LinksFile, key: string, links: set<Id>): (r: Result<LinksFile>)
    ensures r.Err? <==> f.Unreadable?
    ensures r.Ok? ==> r.value.Stored?
    ensures r.Ok? ==> key in r.value.data && r.value.data[key] == links
    ensures f.Missing? ==> r == Ok(Stored(map[key := links]))
    ensures f.Stored? ==> r.value.data.Keys == f.data.Keys + {key}
    ensures f.Stored? ==>
      forall k :: k in f.data && k != key ==> k in r.value.data && r.value.data[k] == f.data[k]
  {
    match Contents(f)
    case Err(e) => Err(e)
    case Ok(data) => Ok(Stored(data[key := links]))
  }

  /** Loading a key right after saving it gives back exactly the saved set. */
  lemma LoadAfterSave(f: LinksFile, key: string, links: set<Id>)
    requires !f.Unreadable?
    ensures Save(f, key, links).Ok?
    ensures Load(Save(f, key, links).value, key) == Ok(links)
  {
  }

  /** Saving one key does not change what any other key loads to. */
  lemma LoadOtherAfterSave(f: LinksFile, key: string, other: string, links: set<Id>)
    requires !f.Unreadable?
    requires other != key
    ensures Load(Save(f, key, links).value, other) == Load(f, other)
  {
  }

  /** Saving what was just loaded leaves every key loading to what it did before. */
  lemma SaveLoadedIsNeutral(f: LinksFile, key: string, other: string)
    requires !f.Unreadable?
    ensures Load(Save(f, key, Load(f, key).value).value, other) == Load(f, other)
  {
  }

  /** Saving twice under the same key keeps only the second set. */
  lemma SaveOverwrites(f: LinksFile, key: string, a: set<Id>, b: set<Id>)
    requires !f.Unreadable?
    ensures Save(Save(f, key, a).value, key, b) == Save(f, key, b)
  {
    var data := Contents(f).value;
    assert data[key := a][key := b] == data[key := b];
  }
}
