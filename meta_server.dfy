/** The metadata side of the main process, src/main/server.ts: the cache of extracted JPEG metadata
    keyed by path, the work queue that `precacheJpegMeta` replaces and the worker loop drains one
    request at a time, `getJpegMeta`, the shape of an extraction, and the file filter of
    `deleteFromDirectory`. */
module MetaServer {
  import opened Api
  import opened Strings
  import opened Pairing

  /** `makeJpegMetaRequestCacheKey`: the path alone. */
  function CacheKey(request: JpegMetaRequest): string {
    request.path
  }

  /** Two requests share a cache entry exactly when they name the same path, whatever their heights. */
  lemma CacheKeyIgnoresWindowHeight(a: JpegMetaRequest, b: JpegMetaRequest)
    ensures CacheKey(a) == CacheKey(b) <==> a.path == b.path
    ensures CacheKey(JpegMetaRequest(a.path, b.windowHeight)) == CacheKey(a)
  {
  }

  // ----- extraction -----

  /** What the image library reports for a file: the metadata read failed, or the metadata was read
      (with possibly missing dimensions) but the half-size rendering failed, or both succeeded. */
  datatype SharpResult =
    | MetadataFailed
    | ResizeFailed(width: Option<int>, height: Option<int>)
    | Resized(width: Option<int>, height: Option<int>, base64: string, halfWidth: int, halfHeight: int)

  /** The file system and the image library, as seen by the extraction: the file URL of a path and
      what decoding the file at a path yields. */
  datatype Imaging = Imaging(fileUrl: string -> string, sharp: string -> SharpResult)

  const DataUrlPrefix: string := "data:image/jpeg;base64,"

  /** `extractJpegMeta`: the path and the file URL always; the dimensions (0 where unknown) and the
      full-size entry once the metadata is read; the half-size data URL after it once the resize succeeds. */
  function Extract(imaging: Imaging, request: JpegMetaRequest): (r: JpegMeta)
    ensures r.path == Some(request.path) && r.src == imaging.fileUrl(request.path)
    ensures r.width.Some? && r.height.Some? && r.srcSet.Some? && |r.srcSet.value| <= 2
    ensures imaging.sharp(request.path).MetadataFailed? <==> r.srcSet.value == []
    ensures imaging.sharp(request.path).MetadataFailed? ==> r.width == Some(0) && r.height == Some(0)
    ensures r.srcSet.value != [] ==>
              r.srcSet.value[0] == JpegSrcSet(imaging.fileUrl(request.path), r.width.value, r.height.value)
    ensures |r.srcSet.value| == 2 <==> imaging.sharp(request.path).Resized?
    ensures |r.srcSet.value| == 2 ==> StartsWith(r.srcSet.value[1].src, DataUrlPrefix)
  {
    var url := imaging.fileUrl(request.path);
    match imaging.sharp(request.path)
    case MetadataFailed =>
      JpegMeta(Some(request.path), url, Some(0), Some(0), Some([]))
    case ResizeFailed(width, height) =>
      var full := JpegSrcSet(url, width.GetOr(0), height.GetOr(0));
      JpegMeta(Some(request.path), url, Some(full.width), Some(full.height), Some([full]))
    case Resized(width, height, base64, halfWidth, halfHeight) =>
      var full := JpegSrcSet(url, width.GetOr(0), height.GetOr(0));
      var half := JpegSrcSet(DataUrlPrefix + base64, halfWidth, halfHeight);
      assert (DataUrlPrefix + base64)[..|DataUrlPrefix|] == DataUrlPrefix;
      JpegMeta(Some(request.path), url, Some(full.width), Some(full.height), Some([full, half]))
  }

  // ----- cache, queue and their transitions -----

  /** A cache entry: the extracted metadata and the request that produced it. */
  datatype CacheEntry = CacheEntry(meta: JpegMeta, request: JpegMetaRequest)

  type Cache = map<string, CacheEntry>

  /** A queued request: keep only the listed keys, or make sure one request's metadata is cached. */
  datatype CacheRequest = RetainOnly(keys: seq<string>) | Prefetch(request: JpegMetaRequest)

  /** The whole mutable state: the cache, the queue and how many extractions have been started. */
  datatype ServerState = ServerState(cache: Cache, queue: seq<CacheRequest>, extractions: nat)

  /** Every entry sits under its request's key and holds that request's extraction. */
  ghost predicate Coherent(cache: Cache, imaging: Imaging) {
    forall k :: k in cache ==> EntryFor(imaging, k, cache[k])
  }

  ghost predicate EntryFor(imaging: Imaging, key: string, entry: CacheEntry) {
    entry.request.path == key && entry.meta == Extract(imaging, entry.request)
  }

  function Keys(requests: seq<JpegMetaRequest>): (r: seq<string>)
    ensures |r| == |requests| && forall i :: 0 <= i < |requests| ==> r[i] == CacheKey(requests[i])
  {
    seq(|requests|, i requires 0 <= i < |requests| => CacheKey(requests[i]))
  }

  function Paths(requests: seq<JpegMetaRequest>): set<string> {
    set r | r in requests :: r.path
  }

  function Prefetches(requests: seq<JpegMetaRequest>): (r: seq<CacheRequest>)
    ensures |r| == |requests| && forall i :: 0 <= i < |requests| ==> r[i] == Prefetch(requests[i])
  {
    seq(|requests|, i requires 0 <= i < |requests| => Prefetch(requests[i]))
  }

  /** The queue `precacheJpegMeta` leaves behind: a retain of the requests' keys, then one prefetch per request. */
  function PrecacheQueue(requests: seq<JpegMetaRequest>): (r: seq<CacheRequest>)
    ensures |r| == |requests| + 1
    ensures r[0] == RetainOnly(Keys(requests))
    ensures r[1..] == Prefetches(requests)
  {
    [RetainOnly(Keys(requests))] + Prefetches(requests)
  }

  /** The cache after deleting every key not listed. */
  function Retain(cache: Cache, keys: seq<string>): (r: Cache)
    ensures forall k :: k in r <==> k in cache && k in keys
    ensures forall k :: k in r ==> r[k] == cache[k]
  {
    map k | k in cache && k in keys :: cache[k]
  }

  /** A prefetch extracts when there is no entry for the key or the entry was made for another height. */
  predicate PrefetchExtracts(cache: Cache, request: JpegMetaRequest) {
    CacheKey(request) !in cache || cache[CacheKey(request)].request.windowHeight != request.windowHeight
  }

  function PrefetchInto(cache: Cache, imaging: Imaging, request: JpegMetaRequest): (r: Cache)
    ensures r.Keys == cache.Keys + {request.path}
  {
    if PrefetchExtracts(cache, request) then cache[CacheKey(request) := CacheEntry(Extract(imaging, request), request)]
    else cache
  }

  /** One turn of the worker loop: take the front request, if any, and carry it out. */
  function Step(s: ServerState, imaging: Imaging): ServerState {
    if s.queue == [] then s
    else
      match s.queue[0]
      case RetainOnly(keys) => ServerState(Retain(s.cache, keys), s.queue[1..], s.extractions)
      case Prefetch(request) =>
        ServerState(PrefetchInto(s.cache, imaging, request), s.queue[1..],
                    s.extractions + if PrefetchExtracts(s.cache, request) then 1 else 0)
  }

  /** `getJpegMeta`: the cached metadata under the request's key, or a fresh extraction stored under it. */
  function Lookup(s: ServerState, imaging: Imaging, request: JpegMetaRequest): (ServerState, JpegMeta) {
    var key := CacheKey(request);
    if key in s.cache then (s, s.cache[key].meta)
    else
      var meta := Extract(imaging, request);
      (ServerState(s.cache[key := CacheEntry(meta, request)], s.queue, s.extractions + 1), meta)
  }

  /** A worker step removes exactly the front request, and changes nothing when the queue is empty. */
  lemma StepConsumesFront(s: ServerState, imaging: Imaging)
    ensures s.queue == [] ==> Step(s, imaging) == s
    ensures s.queue != [] ==> Step(s, imaging).queue == s.queue[1..]
    ensures Coherent(s.cache, imaging) ==> Coherent(Step(s, imaging).cache, imaging)
  {
  }

  /** After a retain, only listed keys remain, and every listed key that was cached keeps its entry. */
  lemma RetainEvicts(s: ServerState, imaging: Imaging, keys: seq<string>)
    requires s.queue != [] && s.queue[0] == RetainOnly(keys)
    ensures var t := Step(s, imaging);
            && t.cache.Keys <= set k | k in keys
            && (forall k :: k in keys && k in s.cache ==> k in t.cache && t.cache[k] == s.cache[k])
            && t.extractions == s.extractions
  {
  }

  /** A prefetch replaces the entry, with one extraction, exactly when the key is absent or its entry was
      made for another height; otherwise the cache is unchanged. */
  lemma PrefetchStep(s: ServerState, imaging: Imaging, request: JpegMetaRequest)
    requires s.queue != [] && s.queue[0] == Prefetch(request)
    ensures var t := Step(s, imaging);
            var extracts := CacheKey(request) !in s.cache || s.cache[CacheKey(request)].request.windowHeight != request.windowHeight;
            && (extracts ==> t.cache == s.cache[request.path := CacheEntry(Extract(imaging, request), request)]
                             && t.extractions == s.extractions + 1)
            && (!extracts ==> t.cache == s.cache && t.extractions == s.extractions)
  {
  }

  /** `getJpegMeta` on a cached key extracts nothing and changes nothing, even for another height;
      on an absent key it adds exactly one entry, tagged with the request. */
  lemma LookupCachesByPath(s: ServerState, imaging: Imaging, request: JpegMetaRequest)
    ensures var (t, meta) := Lookup(s, imaging, request);
            && (request.path in s.cache ==> t == s && meta == s.cache[request.path].meta)
            && (request.path !in s.cache ==>
                  && t.cache == s.cache[request.path := CacheEntry(Extract(imaging, request), request)]
                  && t.cache.Keys == s.cache.Keys + {request.path}
                  && t.extractions == s.extractions + 1 && t.queue == s.queue
                  && meta == Extract(imaging, request))
    ensures Coherent(s.cache, imaging) ==> Coherent(Lookup(s, imaging, request).0.cache, imaging)
  {
  }

  /** Asking twice for the same request extracts once and answers the same both times. */
  lemma LookupIsIdempotent(s: ServerState, imaging: Imaging, request: JpegMetaRequest)
    ensures var (t, first) := Lookup(s, imaging, request);
            var (u, second) := Lookup(t, imaging, request);
            u == t && second == first && t.extractions <= s.extractions + 1
  {
  }

  /** A lookup for another height answers from the entry made for the first one: the height never
      invalidates a lookup. */
  lemma LookupIgnoresWindowHeight(s: ServerState, imaging: Imaging, path: string, first: int, second: int)
    ensures var (t, meta) := Lookup(s, imaging, JpegMetaRequest(path, first));
            Lookup(t, imaging, JpegMetaRequest(path, second)) == (t, meta)
  {
  }

  /** A prefetch for another height than the one a lookup cached does extract again. */
  lemma PrefetchInvalidatesOnHeightChange(s: ServerState, imaging: Imaging, path: string, first: int, second: int, rest: seq<CacheRequest>)
    requires path !in s.cache && first != second
    ensures var (t, _) := Lookup(s, imaging, JpegMetaRequest(path, first));
            var u := Step(ServerState(t.cache, [Prefetch(JpegMetaRequest(path, second))] + rest, t.extractions), imaging);
            && u.extractions == t.extractions + 1
            && u.cache[path] == CacheEntry(Extract(imaging, JpegMetaRequest(path, second)), JpegMetaRequest(path, second))
  {
  }

  /** After retaining `kept`, a lookup of a key outside it extracts again, and a lookup of a cached key
      inside it does not. */
  lemma EvictionThenLookup(s: ServerState, imaging: Imaging, kept: seq<string>, rest: seq<CacheRequest>, evicted: JpegMetaRequest, retained: JpegMetaRequest)
    requires evicted.path !in kept && retained.path in kept && retained.path in s.cache
    ensures var t := Step(ServerState(s.cache, [RetainOnly(kept)] + rest, s.extractions), imaging);
            && Lookup(t, imaging, evicted).0.extractions == t.extractions + 1
            && Lookup(t, imaging, retained).0.extractions == t.extractions
            && Lookup(t, imaging, retained).1 == s.cache[retained.path].meta
  {
  }

  // ----- draining a precache plan -----

  /** `n` turns of the worker loop. */
  function Run(s: ServerState, imaging: Imaging, n: nat): ServerState
    decreases n
  {
    if n == 0 then s else Run(Step(s, imaging), imaging, n - 1)
  }

  /** The cache after carrying out a series of prefetches, in order. */
  function ApplyPrefetches(cache: Cache, imaging: Imaging, requests: seq<JpegMetaRequest>): (r: Cache)
    ensures r.Keys == cache.Keys + Paths(requests)
    decreases |requests|
  {
    if requests == [] then cache
    else
      PathsOfCons(requests);
      ApplyPrefetches(PrefetchInto(cache, imaging, requests[0]), imaging, requests[1..])
  }

  /** The last request in the list for a path. */
  function LastFor(requests: seq<JpegMetaRequest>, path: string): (r: JpegMetaRequest)
    requires path in Paths(requests)
    ensures r in requests && r.path == path
    decreases |requests|
  {
    if path in Paths(requests[1..]) then LastFor(requests[1..], path)
    else
      assert requests[0].path == path by {
        var r :| r in requests && r.path == path;
        if r != requests[0] {
          assert r in requests[1..];
        }
      }
      requests[0]
  }

  /** `LastFor` is the request at the last position naming that path. */
  lemma {:induction false} LastForIsLast(requests: seq<JpegMetaRequest>, path: string)
    requires path in Paths(requests)
    ensures exists i :: 0 <= i < |requests| && requests[i] == LastFor(requests, path)
                        && forall j :: i < j < |requests| ==> requests[j].path != path
    decreases |requests|
  {
    var tail := requests[1..];
    if path in Paths(tail) {
      LastForIsLast(tail, path);
      var i :| 0 <= i < |tail| && tail[i] == LastFor(tail, path)
                && forall j :: i < j < |tail| ==> tail[j].path != path;
      assert requests[i + 1] == tail[i];
      forall j | i + 1 < j < |requests| ensures requests[j].path != path {
        assert requests[j] == tail[j - 1];
      }
    } else {
      forall j | 0 < j < |requests| ensures requests[j].path != path {
        assert requests[j] in tail;
      }
    }
  }

  lemma PrefetchIntoKeepsCoherent(cache: Cache, imaging: Imaging, request: JpegMetaRequest)
    requires Coherent(cache, imaging)
    ensures var c := PrefetchInto(cache, imaging, request);
            && Coherent(c, imaging)
            && c.Keys == cache.Keys + {request.path}
            && c[request.path].request == request
            && forall k :: k in cache && k != request.path ==> c[k] == cache[k]
  {
  }

  lemma PathsOfCons(requests: seq<JpegMetaRequest>)
    requires requests != []
    ensures Paths(requests) == {requests[0].path} + Paths(requests[1..])
  {
    assert requests == [requests[0]] + requests[1..];
  }

  /** Carrying out prefetches keeps the cache coherent. */
  lemma {:induction false} ApplyPrefetchesKeys(cache: Cache, imaging: Imaging, requests: seq<JpegMetaRequest>)
    requires Coherent(cache, imaging)
    ensures Coherent(ApplyPrefetches(cache, imaging, requests), imaging)
    decreases |requests|
  {
    if requests != [] {
      PrefetchIntoKeepsCoherent(cache, imaging, requests[0]);
      ApplyPrefetchesKeys(PrefetchInto(cache, imaging, requests[0]), imaging, requests[1..]);
    }
  }

  /** Carrying out prefetches leaves under each of their paths the entry of the last request for it. */
  lemma {:induction false} ApplyPrefetchesLast(cache: Cache, imaging: Imaging, requests: seq<JpegMetaRequest>)
    requires Coherent(cache, imaging)
    ensures forall p :: p in Paths(requests) ==> ApplyPrefetches(cache, imaging, requests)[p].request == LastFor(requests, p)
    decreases |requests|
  {
    if requests != [] {
      var head := requests[0];
      var tail := requests[1..];
      var next := PrefetchInto(cache, imaging, head);
      PrefetchIntoKeepsCoherent(cache, imaging, head);
      ApplyPrefetchesLast(next, imaging, tail);
      ApplyPrefetchesKeys(next, imaging, tail);
      ApplyPrefetchesKept(next, imaging, tail);
      PathsOfCons(requests);
    }
  }

  /** Entries for paths the prefetches do not name are left alone. */
  lemma {:induction false} ApplyPrefetchesKept(cache: Cache, imaging: Imaging, requests: seq<JpegMetaRequest>)
    requires Coherent(cache, imaging)
    ensures forall k :: k in cache && k !in Paths(requests) ==> ApplyPrefetches(cache, imaging, requests)[k] == cache[k]
    decreases |requests|
  {
    if requests != [] {
      PrefetchIntoKeepsCoherent(cache, imaging, requests[0]);
      ApplyPrefetchesKept(PrefetchInto(cache, imaging, requests[0]), imaging, requests[1..]);
      PathsOfCons(requests);
    }
  }

  /** The worker carries out queued prefetches one per turn. */
  lemma {:induction false} RunPrefetches(s: ServerState, imaging: Imaging, requests: seq<JpegMetaRequest>)
    requires s.queue == Prefetches(requests)
    ensures var t := Run(s, imaging, |requests|);
            t.queue == [] && t.cache == ApplyPrefetches(s.cache, imaging, requests)
    decreases |requests|
  {
    if requests != [] {
      var next := Step(s, imaging);
      assert next.queue == Prefetches(requests[1..]);
      assert next.cache == PrefetchInto(s.cache, imaging, requests[0]);
      RunPrefetches(next, imaging, requests[1..]);
    }
  }

  /** The first turn after a precache carries out its retain: the cache keeps only the plan's paths. */
  lemma RetainOfPlan(s: ServerState, imaging: Imaging, requests: seq<JpegMetaRequest>)
    requires Coherent(s.cache, imaging)
    ensures var t := Step(ServerState(s.cache, PrecacheQueue(requests), s.extractions), imaging);
            && t == ServerState(Retain(s.cache, Keys(requests)), Prefetches(requests), s.extractions)
            && t.cache.Keys <= Paths(requests)
            && Coherent(t.cache, imaging)
  {
    var start := ServerState(s.cache, PrecacheQueue(requests), s.extractions);
    assert start.queue[0] == RetainOnly(Keys(requests));
    var retained := Retain(s.cache, Keys(requests));
    forall k | k in retained ensures k in Paths(requests) {
      var i :| 0 <= i < |requests| && Keys(requests)[i] == k;
      assert requests[i] in requests;
    }
  }

  /** Once the worker has drained a precache plan, the cache holds exactly the plan's paths, each with
      the extraction of the last request for it; the entries made before are gone or replaced. */
  lemma PrecacheThenDrain(s: ServerState, imaging: Imaging, requests: seq<JpegMetaRequest>)
    requires Coherent(s.cache, imaging)
    ensures var t := Run(ServerState(s.cache, PrecacheQueue(requests), s.extractions), imaging, |requests| + 1);
            && t.queue == []
            && t.cache.Keys == Paths(requests)
            && forall p :: p in Paths(requests) ==>
                 t.cache[p] == CacheEntry(Extract(imaging, LastFor(requests, p)), LastFor(requests, p))
  {
    var start := ServerState(s.cache, PrecacheQueue(requests), s.extractions);
    RetainOfPlan(s, imaging, requests);
    var retained := Step(start, imaging);
    assert Run(start, imaging, |requests| + 1) == Run(retained, imaging, |requests|);
    RunPrefetches(retained, imaging, requests);
    ApplyPrefetchesKeys(retained.cache, imaging, requests);
    ApplyPrefetchesLast(retained.cache, imaging, requests);
    var t := Run(start, imaging, |requests| + 1);
    forall p | p in Paths(requests)
      ensures t.cache[p] == CacheEntry(Extract(imaging, LastFor(requests, p)), LastFor(requests, p))
    {
      assert EntryFor(imaging, p, t.cache[p]);
    }
  }

  // ----- the server object -----

  /** The module-level cache and queue of the main process, with the extraction counter. */
  class Server {
    var cache: Cache
    var queue: seq<CacheRequest>
    var extractions: nat
    const imaging: Imaging

    constructor (imaging: Imaging)
      ensures State() == ServerState(map[], [], 0) && this.imaging == imaging
      ensures Valid()
    {
      cache := map[];
      queue := [];
      extractions := 0;
      this.imaging := imaging;
    }

    function State(): ServerState
      reads this
    {
      ServerState(cache, queue, extractions)
    }

    /** Every cached entry sits under its request's path and holds that request's extraction. */
    ghost predicate Valid()
      reads this
    {
      Coherent(cache, imaging)
    }

    /** `precacheJpegMeta`: empties the queue, then queues a retain of the requests' keys and one prefetch per request. */
    method Precache(requests: seq<JpegMetaRequest>)
      requires Valid()
      modifies this`queue
      ensures queue == PrecacheQueue(requests)
      ensures Valid()
    {
      var keys := Keys(requests);
      queue := [];
      queue := queue + [RetainOnly(keys)];
      for i := 0 to |requests|
        invariant queue == [RetainOnly(keys)] + Prefetches(requests[..i])
      {
        queue := queue + [Prefetch(requests[i])];
        assert Prefetches(requests[..i + 1]) == Prefetches(requests[..i]) + [Prefetch(requests[i])];
      }
      assert requests[..|requests|] == requests;
    }

    /** Deletes every cached key not in `keys`, one at a time. */
    method RetainOnlyKeys(keys: seq<string>)
      requires Valid()
      modifies this`cache
      ensures cache == Retain(old(cache), keys)
      ensures Valid()
    {
      ghost var start := cache;
      var keep := set k | k in keys;
      var doomed := cache.Keys - keep;
      while doomed != {}
        invariant doomed <= cache.Keys && cache.Keys <= start.Keys
        invariant cache.Keys - doomed == start.Keys * keep
        invariant forall k :: k in cache ==> cache[k] == start[k]
        decreases doomed
      {
        var key :| key in doomed;
        cache := cache - {key};
        doomed := doomed - {key};
      }
      assert cache.Keys == start.Keys * keep;
      forall k ensures k in cache <==> k in Retain(start, keys) {
        assert k in keep <==> k in keys;
      }
      assert cache.Keys == Retain(start, keys).Keys;
    }

    /** One turn of the worker loop. */
    method WorkerStep()
      requires Valid()
      modifies this`cache, this`queue, this`extractions
      ensures State() == Step(old(State()), imaging)
      ensures Valid()
    {
      StepConsumesFront(State(), imaging);
      if queue != [] {
        var request := queue[0];
        queue := queue[1..];
        match request
        case RetainOnly(keys) =>
          RetainOnlyKeys(keys);
        case Prefetch(r) =>
          var key := CacheKey(r);
          if key !in cache || cache[key].request.windowHeight != r.windowHeight {
            var meta := Extract(imaging, r);
            extractions := extractions + 1;
            cache := cache[key := CacheEntry(meta, r)];
          }
      }
    }

    /** `getJpegMeta`. */
    method GetJpegMeta(request: JpegMetaRequest) returns (meta: JpegMeta)
      requires Valid()
      modifies this`cache, this`extractions
      ensures (State(), meta) == Lookup(old(State()), imaging, request)
      ensures Valid()
    {
      LookupCachesByPath(State(), imaging, request);
      var key := CacheKey(request);
      if key in cache {
        meta := cache[key].meta;
      } else {
        meta := Extract(imaging, request);
        extractions := extractions + 1;
        cache := cache[key := CacheEntry(meta, request)];
      }
    }
  }

  // ----- deleteFromDirectory -----

  /** The test of `deleteFromDirectory`, as written: the lower-cased name starts with the lower-cased prefix and a dot. */
  predicate NameStartsWithPrefix(name: string, filePrefix: string) {
    StartsWith(Lower(name), Lower(filePrefix) + ".")
  }

  /** The files `deleteFromDirectory` removes, in listing order. */
  function FilesToDelete(allFiles: seq<FileDetail>, filePrefix: string): (r: seq<FileDetail>)
    ensures forall f :: f in r <==> f in allFiles && NameStartsWithPrefix(f.name, filePrefix)
    ensures |r| <= |allFiles|
  {
    if allFiles == [] then []
    else
      var last := allFiles[|allFiles| - 1];
      var r := FilesToDelete(allFiles[..|allFiles| - 1], filePrefix)
               + (if NameStartsWithPrefix(last.name, filePrefix) then [last] else []);
      assert allFiles == allFiles[..|allFiles| - 1] + [last];
      r
  }

  /** The name belongs to the item `filePrefix`: it splits at its last dot into that stem, ignoring case. */
  predicate NameHasStem(name: string, filePrefix: string) {
    SplitName(name).Some? && SplitName(name).value.0 == Lower(filePrefix)
  }

  /** The files of one item, in listing order. */
  function FilesOfStem(allFiles: seq<FileDetail>, filePrefix: string): (r: seq<FileDetail>)
    ensures forall f :: f in r <==> f in allFiles && NameHasStem(f.name, filePrefix)
    ensures |r| <= |allFiles|
  {
    if allFiles == [] then []
    else
      var last := allFiles[|allFiles| - 1];
      var r := FilesOfStem(allFiles[..|allFiles| - 1], filePrefix)
               + (if NameHasStem(last.name, filePrefix) then [last] else []);
      assert allFiles == allFiles[..|allFiles| - 1] + [last];
      r
  }

  /** The filter as written reaches past the item: a file named `p.x.y`, with a dot after the prefix and
      its dot, belongs to the item `p.x`, yet it is deleted with the item `p`; the corrected filter spares it. */
  lemma DeleteReachesLongerStem(allFiles: seq<FileDetail>, f: FileDetail, filePrefix: string, rest: string)
    requires f in allFiles && f.name == filePrefix + "." + rest && '.' in rest
    ensures f in FilesToDelete(allFiles, filePrefix)
    ensures !NameHasStem(f.name, filePrefix)
    ensures f !in FilesOfStem(allFiles, filePrefix)
  {
    LowerAppend(filePrefix, "." + rest);
    LowerAppend(".", rest);
    assert Lower(".") == ".";
    assert Lower(f.name)[..|filePrefix| + 1] == Lower(filePrefix) + ".";
    var k := LastIndexOf(f.name, '.').value;
    assert k > |filePrefix| by {
      var j :| 0 <= j < |rest| && rest[j] == '.';
      assert f.name[|filePrefix| + 1 + j] == '.';
    }
  }

  /** Every file of the item is also caught by the filter as written, so the correction only spares files
      of other items. */
  lemma FilesOfStemWithinFilter(allFiles: seq<FileDetail>, filePrefix: string)
    ensures forall f :: f in FilesOfStem(allFiles, filePrefix) ==> f in FilesToDelete(allFiles, filePrefix)
  {
    forall f | f in FilesOfStem(allFiles, filePrefix) ensures NameStartsWithPrefix(f.name, filePrefix) {
      StemThenDot(f.name, filePrefix);
    }
  }

  lemma StemThenDot(name: string, filePrefix: string)
    requires NameHasStem(name, filePrefix)
    ensures NameStartsWithPrefix(name, filePrefix)
  {
    var k := LastIndexOf(name, '.').value;
    assert Lower(name[..k]) == Lower(filePrefix);
    DotAfterStem(name, k, Lower(filePrefix));
  }
}
