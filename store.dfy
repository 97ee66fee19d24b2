/** The vector store as the two programs use it: the upload handler's
    bootstrap `ensure_collection_exists`, and the ingester's
    `create_collection`, `store_chunks` and `load_model`.

    The remote store is a map from collection name to collection; the
    bootstrap sees the store only through what its `get_collection` and
    `create_collection` calls raise, which are inputs. */
module Store {
  import opened Text
  import opened Wrappers
  import opened Retry

  // ----- The upload handler's bootstrap -----

  /** What `ensure_collection_exists` did: its return value, whether it
      called `create_collection`, and the error it showed, if any. */
  datatype Ensured = Ensured(ok: bool, createCalled: bool, shown: Option<string>)

  /** A `create_collection` error the bootstrap treats as success: the
      collection already exists, or the call timed out. */
  predicate CreateErrorIgnored(message: string) {
    var m := Lower(message);
    Contains(m, "already exists") || (Contains(m, "collection") && Contains(m, "exists")) || IsTimeout(message)
  }

  /** `ensure_collection_exists(silent)`: `get` is what `get_collection`
      raises (`None` when the collection is there) and `create` what the
      inner `try` that follows raises, whether `get_vector_size` or
      `create_collection` fails (`None` when the collection is created). */
  function EnsureCollectionExists(hasClient: bool, get: Option<string>, create: Option<string>, silent: bool): (r: Ensured)
    ensures r.ok <==> hasClient
    ensures r.createCalled <==> hasClient && get.Some? && !IsTimeout(get.value)
    ensures r.shown.Some? <==> r.createCalled && create.Some? && !CreateErrorIgnored(create.value) && !silent
    ensures r.shown.Some? ==> r.shown.value == "Error ensuring collection exists: " + create.value
  {
    if !hasClient then Ensured(false, false, None)
    else if get.None? then Ensured(true, false, None)
    else if IsTimeout(get.value) then Ensured(true, false, None)
    else if create.None? then Ensured(true, true, None)
    else
      TimeoutMentions(create.value);
      var m := Lower(create.value);
      if Contains(m, "already exists") || (Contains(m, "collection") && Contains(m, "exists")) then Ensured(true, true, None)
      else if Contains(m, "timeout") || Contains(m, "handshake") || Contains(m, "ssl") then Ensured(true, true, None)
      else if !silent then Ensured(true, true, Some("Error ensuring collection exists: " + create.value))
      else Ensured(true, true, None)
  }

  /** The silent call made before every upload never shows anything. */
  lemma SilentShowsNothing(hasClient: bool, get: Option<string>, create: Option<string>)
    ensures EnsureCollectionExists(hasClient, get, create, true).shown == None
  {
  }

  // ----- The ingester -----

  datatype Distance = Cosine

  /** The vector parameters a collection is created with. */
  datatype VectorParams = VectorParams(size: nat, distance: Distance)

  /** The embedding of a chunk: floating-point numbers the model computes. */
  type Embedding = seq<real>

  /** A stored point: its id, its vector and its `{"text": chunk}` payload. */
  datatype Point = Point(id: nat, vector: Embedding, text: string)

  datatype Collection = Collection(params: VectorParams, points: map<nat, Point>)

  /** The collections after `create_collection` for `name`: unchanged when it
      exists, else with a new empty cosine collection of `size`. */
  function AfterCreate(collections: map<string, Collection>, name: string, size: nat): map<string, Collection> {
    if name in collections then collections
    else collections[name := Collection(VectorParams(size, Cosine), map[])]
  }

  /** The points of a collection after an upsert of `batch`: each point is
      stored under its id, a later one replacing an earlier one. */
  function AfterUpsert(points: map<nat, Point>, batch: seq<Point>): map<nat, Point>
    decreases |batch|
  {
    if batch == [] then points
    else AfterUpsert(points, batch[..|batch| - 1])[batch[|batch| - 1].id := batch[|batch| - 1]]
  }

  /** Every vector of the batch has the collection's dimension; the store
      refuses a batch that breaks this. */
  predicate Fits(params: VectorParams, batch: seq<Point>) {
    forall i :: 0 <= i < |batch| ==> |batch[i].vector| == params.size
  }

  /** The remote store the ingester talks to. */
  class VectorStore {
    var collections: map<string, Collection>

    constructor ()
      ensures collections == map[]
    {
      collections := map[];
    }

    /** `client.collection_exists(name)`. */
    function CollectionExists(name: string): bool
      reads this
    {
      name in collections
    }

    /** `create_collection(client)` of the ingester: nothing happens when
        the collection exists; otherwise one collection is created, empty,
        with the model's vector size and cosine distance. */
    method CreateCollection(name: string, vectorSize: nat) returns (created: bool)
      modifies this
      ensures created <==> name !in old(collections)
      ensures collections == AfterCreate(old(collections), name, vectorSize)
    {
      if CollectionExists(name) {
        created := false;
        return;
      }
      collections := collections[name := Collection(VectorParams(vectorSize, Cosine), map[])];
      created := true;
    }

    /** `client.upsert(collection_name, points)`: stores the batch in the
        collection, or fails (and changes nothing) when there is none or
        when a vector's length is not the collection's size. */
    method Upsert(name: string, batch: seq<Point>) returns (stored: bool)
      modifies this
      ensures stored <==> name in old(collections) && Fits(old(collections)[name].params, batch)
      ensures stored ==> collections == old(collections)[name := Collection(old(collections)[name].params, AfterUpsert(old(collections)[name].points, batch))]
      ensures !stored ==> collections == old(collections)
    {
      if name !in collections || !Fits(collections[name].params, batch) {
        stored := false;
        return;
      }
      var c := collections[name];
      collections := collections[name := Collection(c.params, AfterUpsert(c.points, batch))];
      stored := true;
    }
  }

  /** Creating a collection twice is creating it once. */
  lemma CreateIdempotent(collections: map<string, Collection>, name: string, size: nat, size2: nat)
    ensures AfterCreate(AfterCreate(collections, name, size), name, size2) == AfterCreate(collections, name, size)
  {
  }

  /** Creation adds exactly the one name, leaves every other collection as
      it was, and a new collection has the requested size, cosine distance
      and no points. */
  lemma CreateAddsOne(collections: map<string, Collection>, name: string, size: nat)
    ensures AfterCreate(collections, name, size).Keys == collections.Keys + {name}
    ensures forall n :: n in collections ==> AfterCreate(collections, name, size)[n] == collections[n]
    ensures name !in collections ==> AfterCreate(collections, name, size)[name] == Collection(VectorParams(size, Cosine), map[])
  {
  }

  /** The points `store_chunks` builds: point `i` has id `i`, the embedding
      of chunk `i` and the chunk as its text. */
  method BuildPoints(chunks: seq<string>, embed: string -> Embedding) returns (points: seq<Point>)
    ensures |points| == |chunks|
    ensures forall i :: 0 <= i < |chunks| ==> points[i] == Point(i, embed(chunks[i]), chunks[i])
  {
    points := [];
    for idx := 0 to |chunks|
      invariant |points| == idx
      invariant forall i :: 0 <= i < idx ==> points[i] == Point(i, embed(chunks[i]), chunks[i])
    {
      var vec := embed(chunks[idx]);
      points := points + [Point(idx, vec, chunks[idx])];
    }
  }

  /** After an upsert of a batch whose ids are its positions, the point
      with id `i` is exactly batch entry `i`, and no other id changes. */
  lemma {:induction false} UpsertByPosition(points: map<nat, Point>, batch: seq<Point>)
    requires forall i :: 0 <= i < |batch| ==> batch[i].id == i
    ensures forall i :: 0 <= i < |batch| ==> i in AfterUpsert(points, batch) && AfterUpsert(points, batch)[i] == batch[i]
    ensures forall id :: id !in points && |batch| <= id ==> id !in AfterUpsert(points, batch)
    ensures forall id :: id in points && |batch| <= id ==> id in AfterUpsert(points, batch) && AfterUpsert(points, batch)[id] == points[id]
    decreases |batch|
  {
    if batch != [] {
      UpsertByPosition(points, batch[..|batch| - 1]);
    }
  }

  /** `store_chunks(client, chunks)`: builds one point per chunk and sends
      them all in a single upsert. */
  method StoreChunks(store: VectorStore, name: string, chunks: seq<string>, embed: string -> Embedding)
    returns (stored: bool)
    modifies store
    ensures stored <==> (name in old(store.collections)
      && forall i :: 0 <= i < |chunks| ==> |embed(chunks[i])| == old(store.collections)[name].params.size)
    ensures stored ==> store.collections.Keys == old(store.collections).Keys
    ensures stored ==> forall i :: 0 <= i < |chunks| ==>
      i in store.collections[name].points && store.collections[name].points[i] == Point(i, embed(chunks[i]), chunks[i])
    ensures stored ==> store.collections[name].params == old(store.collections)[name].params
    ensures stored ==> forall n :: n in old(store.collections) && n != name ==>
      store.collections[n] == old(store.collections)[n]
    ensures stored ==> forall id :: |chunks| <= id ==>
      (id in store.collections[name].points <==> id in old(store.collections)[name].points)
      && (id in old(store.collections)[name].points ==>
            store.collections[name].points[id] == old(store.collections)[name].points[id])
    ensures !stored ==> store.collections == old(store.collections)
  {
    var points := BuildPoints(chunks, embed);
    UpsertByPosition(if name in store.collections then store.collections[name].points else map[], points);
    stored := store.Upsert(name, points);
  }

  /** The bootstrap and store steps of `ingest()`: `create_collection`
      with the model's `VECTOR_SIZE`, then `store_chunks`. The chunks are
      stored exactly when every embedding has the size of the collection,
      the one just created or the one that was already there. */
  method CreateAndStore(store: VectorStore, name: string, vectorSize: nat, chunks: seq<string>, embed: string -> Embedding)
    returns (stored: bool)
    modifies store
    ensures store.collections.Keys == old(store.collections).Keys + {name}
    ensures store.collections[name].params
            == if name in old(store.collections) then old(store.collections)[name].params else VectorParams(vectorSize, Cosine)
    ensures stored <==> forall i :: 0 <= i < |chunks| ==> |embed(chunks[i])| == store.collections[name].params.size
    ensures name !in old(store.collections) && (forall i :: 0 <= i < |chunks| ==> |embed(chunks[i])| == vectorSize) ==> stored
    ensures stored ==> forall i :: 0 <= i < |chunks| ==>
      i in store.collections[name].points && store.collections[name].points[i] == Point(i, embed(chunks[i]), chunks[i])
    ensures forall n :: n in old(store.collections) && n != name ==> store.collections[n] == old(store.collections)[n]
  {
    var _ := store.CreateCollection(name, vectorSize);
    stored := StoreChunks(store, name, chunks, embed);
  }

  /** The embedding model as the ingester caches it: `load_model` loads it
      once and records its dimension as `VECTOR_SIZE`. */
  datatype EmbeddingModel = EmbeddingModel(name: string, dimension: nat)

  class ModelCache {
    var model: Option<EmbeddingModel>
    var vectorSize: Option<nat>

    /** `VECTOR_SIZE` is set exactly when a model is loaded, to its
        dimension. */
    predicate Valid()
      reads this
    {
      (model.Some? <==> vectorSize.Some?) && (model.Some? ==> vectorSize.value == model.value.dimension)
    }

    constructor ()
      ensures Valid() && model == None
    {
      model := None;
      vectorSize := None;
    }

    /** `load_model()`: `loaded` is the model the library would load. The
        first call loads it; every later call returns the cached one and
        changes nothing. */
    method LoadModel(loaded: EmbeddingModel) returns (m: EmbeddingModel)
      requires Valid()
      modifies this
      ensures Valid()
      ensures old(model).Some? ==> m == old(model).value && model == old(model) && vectorSize == old(vectorSize)
      ensures old(model).None? ==> m == loaded && model == Some(loaded) && vectorSize == Some(loaded.dimension)
    {
      if model.None? {
        model := Some(loaded);
        vectorSize := Some(loaded.dimension);
      }
      m := model.value;
    }
  }
}
