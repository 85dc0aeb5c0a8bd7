/** What the renderer derives from the two collections for display and for the sync button:
    the titles and images of `_fullWindowedImagesAsync` and the `photoSync` computation
    of src/renderer/src/store.ts. */
module View {
  import opened Api
  import opened Strings
  import opened Pairing
  import opened Scheduler

  /** `Object.fromEntries(photos.map(e => [e.prefix, e]))`: a record by prefix, later entries winning. */
  function ByPrefix(photos: seq<JpegRawPhoto>): (r: map<string, JpegRawPhoto>)
    ensures forall k :: k in r <==> k in Prefixes(photos)
    ensures forall k :: k in r ==> r[k] in photos && r[k].prefix == k
  {
    if photos == [] then map[]
    else
      var last := photos[|photos| - 1];
      var r := ByPrefix(photos[..|photos| - 1])[last.prefix := last];
      assert Prefixes(photos) == Prefixes(photos[..|photos| - 1]) + [last.prefix];
      r
  }

  /** Dropping the last item keeps the prefixes distinct, and none of them is the last item's. */
  lemma DistinctPrefixesOfInit(photos: seq<JpegRawPhoto>)
    requires photos != [] && Distinct(Prefixes(photos))
    ensures Distinct(Prefixes(photos[..|photos| - 1]))
    ensures forall i :: 0 <= i < |photos| - 1 ==> photos[i].prefix != photos[|photos| - 1].prefix
  {
    var init := photos[..|photos| - 1];
    forall i, j | 0 <= i < j < |init| ensures Prefixes(init)[i] != Prefixes(init)[j] {
      assert Prefixes(photos)[i] != Prefixes(photos)[j];
    }
    forall i | 0 <= i < |photos| - 1 ensures photos[i].prefix != photos[|photos| - 1].prefix {
      assert Prefixes(photos)[i] != Prefixes(photos)[|photos| - 1];
    }
  }

  /** With distinct prefixes, as every pairing has, the record returns each item under its own prefix. */
  lemma {:induction false} ByPrefixOfDistinct(photos: seq<JpegRawPhoto>)
    requires Distinct(Prefixes(photos))
    ensures forall i :: 0 <= i < |photos| ==> ByPrefix(photos)[photos[i].prefix] == photos[i]
  {
    if photos != [] {
      var init := photos[..|photos| - 1];
      var last := photos[|photos| - 1];
      DistinctPrefixesOfInit(photos);
      ByPrefixOfDistinct(init);
      var before := ByPrefix(init);
      assert ByPrefix(photos) == before[last.prefix := last];
      forall i | 0 <= i < |photos| ensures ByPrefix(photos)[photos[i].prefix] == photos[i] {
        if i < |photos| - 1 {
          assert photos[i] == init[i];
        }
      }
    }
  }

  /** The marker that opens the label of an item already copied to the sorted side. */
  const Heart: string := "\U{2764}\U{FE0F}"

  /** The label of the unsorted item: its jpeg name, followed by `+` and the raw extension when both exist. */
  function SourceLabel(photo: JpegRawPhoto): string {
    if photo.jpeg.Some? && photo.raw.Some? then photo.jpeg.value.name + "+" + LastSegment(photo.raw.value.name)
    else if photo.jpeg.Some? then photo.jpeg.value.name
    else if photo.raw.Some? then photo.raw.value.name
    else photo.prefix
  }

  /** The label of the sorted counterpart, if any: the heart, then which files it already has. */
  function DestinationLabel(sorted: Option<JpegRawPhoto>): string {
    match sorted
    case None => ""
    case Some(s) =>
      if s.jpeg.Some? && s.raw.Some? then Heart + " JPG+" + Upper(LastSegment(s.raw.value.name))
      else if s.jpeg.Some? then Heart + " JPG"
      else if s.raw.Some? then Heart + " " + Upper(LastSegment(s.raw.value.name))
      else s.prefix
  }

  function Counterpart(photo: JpegRawPhoto, sortedPhotos: map<string, JpegRawPhoto>): Option<JpegRawPhoto> {
    if photo.prefix in sortedPhotos then Some(sortedPhotos[photo.prefix]) else None
  }

  /** The title: the source label and the destination label, separated by a space. */
  function Title(photo: JpegRawPhoto, sortedPhotos: map<string, JpegRawPhoto>): string {
    SourceLabel(photo) + " " + DestinationLabel(Counterpart(photo, sortedPhotos))
  }

  /** The source label names the jpeg file and, when a raw file was paired with it, that file's extension. */
  lemma SourceLabelOfPair(photo: JpegRawPhoto, stem: string, extension: string)
    requires photo.jpeg.Some? && photo.raw.Some?
    requires photo.raw.value.name == stem + "." + extension && '.' !in extension
    ensures SourceLabel(photo) == photo.jpeg.value.name + "+" + extension
  {
    LastSegmentOfJoined(stem, extension);
  }

  /** For items that carry a file, as every item of a pairing does, the destination label is empty
      exactly when there is no counterpart, and opens with the heart exactly when there is one;
      it names the jpeg side when the counterpart has a jpeg. */
  lemma DestinationLabelMarksCounterpart(sorted: Option<JpegRawPhoto>)
    requires sorted.Some? ==> sorted.value.jpeg.Some? || sorted.value.raw.Some?
    ensures DestinationLabel(sorted) == "" <==> sorted.None?
    ensures StartsWith(DestinationLabel(sorted), Heart) <==> sorted.Some?
    ensures sorted.Some? && sorted.value.jpeg.Some? ==> StartsWith(DestinationLabel(sorted), Heart + " JPG")
  {
    if sorted.Some? {
      var s := sorted.value;
      var shown := DestinationLabel(sorted);
      assert shown[..|Heart|] == Heart;
      if s.jpeg.Some? {
        assert shown[..|Heart| + 4] == Heart + " JPG";
      }
    }
  }

  /** Every item of a sorted collection obtained by pairing gets a label that tells its presence. */
  lemma PairedCounterpartsAreMarked(photo: JpegRawPhoto, sortedList: seq<JpegRawPhoto>, jpegFiles: seq<FileDetail>, rawFiles: seq<FileDetail>)
    requires PairingOf(sortedList, jpegFiles, rawFiles)
    ensures DestinationLabel(Counterpart(photo, ByPrefix(sortedList))) == "" <==> photo.prefix !in Prefixes(sortedList)
    ensures StartsWith(DestinationLabel(Counterpart(photo, ByPrefix(sortedList))), Heart) <==> photo.prefix in Prefixes(sortedList)
  {
    PairedItemsHaveAFile(sortedList, jpegFiles, rawFiles);
    DestinationLabelMarksCounterpart(Counterpart(photo, ByPrefix(sortedList)));
  }

  /** Three unsorted items with both files, of which only the middle one was copied, and only as a jpeg:
      the middle one is labelled as having a jpeg on the sorted side, the other two as having nothing. */
  lemma ThreeItemScenario(p0: JpegRawPhoto, p1: JpegRawPhoto, p2: JpegRawPhoto, s1: JpegRawPhoto)
    requires p0.prefix != p1.prefix && p2.prefix != p1.prefix
    requires s1 == JpegRawPhoto(p1.prefix, p1.jpeg, None) && p1.jpeg.Some?
    ensures DestinationLabel(Counterpart(p0, ByPrefix([s1]))) == ""
    ensures DestinationLabel(Counterpart(p1, ByPrefix([s1]))) == Heart + " JPG"
    ensures DestinationLabel(Counterpart(p2, ByPrefix([s1]))) == ""
  {
    assert ByPrefix([s1]) == map[s1.prefix := s1] by {
      assert [s1][..0] == [];
    }
  }

  /** One display record: the metadata shown and its title. */
  datatype LightboxPhoto = LightboxPhoto(meta: JpegMeta, title: string)

  /** The metadata displayed for the item at `idx`: the published entry if there is one, else a direct
      fetch when it is the selected item and has a jpeg, else the empty placeholder. */
  function DisplayedMeta(available: Option<Fragment>, selected: int, idx: int, photo: JpegRawPhoto,
                         fetch: JpegMetaRequest -> JpegMeta, windowHeight: int): JpegMeta
  {
    if available.Some? && photo.prefix in available.value then available.value[photo.prefix]
    else if selected == idx && photo.jpeg.Some? then fetch(JpegMetaRequest(photo.jpeg.value.path, windowHeight))
    else Placeholder
  }

  /** `windowedImages`: one record per unsorted item, in order. */
  function WindowedImages(unsorted: seq<JpegRawPhoto>, selected: int, sortedPhotos: map<string, JpegRawPhoto>,
                          available: Option<Fragment>, fetch: JpegMetaRequest -> JpegMeta, windowHeight: int): (r: seq<LightboxPhoto>)
    ensures |r| == |unsorted|
  {
    seq(|unsorted|, i requires 0 <= i < |unsorted| =>
      LightboxPhoto(DisplayedMeta(available, selected, i, unsorted[i], fetch, windowHeight), Title(unsorted[i], sortedPhotos)))
  }

  /** Published entries win; otherwise the selected item, when it has a preview, shows `getJpegMeta`'s answer
      for it; everything else is a placeholder. */
  lemma WindowedImagesPreferPublished(unsorted: seq<JpegRawPhoto>, selected: int, sortedPhotos: map<string, JpegRawPhoto>,
                                      available: Option<Fragment>, fetch: JpegMetaRequest -> JpegMeta, windowHeight: int)
    ensures var r := WindowedImages(unsorted, selected, sortedPhotos, available, fetch, windowHeight);
            forall i :: 0 <= i < |unsorted| ==>
              && r[i].title == Title(unsorted[i], sortedPhotos)
              && (available.Some? && unsorted[i].prefix in available.value ==> r[i].meta == available.value[unsorted[i].prefix])
              && (!(available.Some? && unsorted[i].prefix in available.value) ==>
                    r[i].meta == (if i == selected && unsorted[i].jpeg.Some?
                                  then fetch(JpegMetaRequest(unsorted[i].jpeg.value.path, windowHeight))
                                  else Placeholder))
  {
  }

  /** The state of the sync button. */
  datatype SyncState = Unavailable | Synced | Pending

  /** A sorted item and its unsorted counterpart. */
  datatype SyncPair = SyncPair(unsorted: JpegRawPhoto, sorted: JpegRawPhoto)

  /** The unsorted item has a file the sorted item lacks. */
  predicate Behind(unsorted: JpegRawPhoto, sorted: JpegRawPhoto) {
    (unsorted.jpeg.Some? && sorted.jpeg.None?) || (unsorted.raw.Some? && sorted.raw.None?)
  }

  /** The pairs `photoSync` collects, in the order of the sorted items. */
  function PendingPairs(unsortedPhotos: map<string, JpegRawPhoto>, sorted: seq<JpegRawPhoto>): seq<SyncPair> {
    if sorted == [] then []
    else
      var s := sorted[|sorted| - 1];
      PendingPairs(unsortedPhotos, sorted[..|sorted| - 1])
      + (if s.prefix in unsortedPhotos && Behind(unsortedPhotos[s.prefix], s) then [SyncPair(unsortedPhotos[s.prefix], s)] else [])
  }

  /** A pair is pending exactly when its sorted item is listed and its unsorted counterpart is ahead of it. */
  lemma {:induction false} PendingPairsExactly(unsortedPhotos: map<string, JpegRawPhoto>, sorted: seq<JpegRawPhoto>, pair: SyncPair)
    ensures pair in PendingPairs(unsortedPhotos, sorted) <==>
              && pair.sorted in sorted
              && pair.sorted.prefix in unsortedPhotos
              && pair.unsorted == unsortedPhotos[pair.sorted.prefix]
              && Behind(pair.unsorted, pair.sorted)
  {
    if sorted != [] {
      PendingPairsExactly(unsortedPhotos, sorted[..|sorted| - 1], pair);
      assert sorted == sorted[..|sorted| - 1] + [sorted[|sorted| - 1]];
    }
  }

  /** `photoSync`: unavailable until all four directories are set; otherwise the pairs to copy, pushed one by
      one while walking the sorted items, and synced exactly when there are none. */
  method PhotoSync(unsortedJpegDirectory: Option<string>, unsortedRawDirectory: Option<string>,
                   sortedJpegDirectory: Option<string>, sortedRawDirectory: Option<string>,
                   unsortedPhotos: seq<JpegRawPhoto>, sortedPhotos: seq<JpegRawPhoto>)
    returns (state: SyncState, pending: seq<SyncPair>)
    ensures var ready := IsSet(unsortedJpegDirectory) && IsSet(unsortedRawDirectory) && IsSet(sortedJpegDirectory) && IsSet(sortedRawDirectory);
            && (state == Unavailable <==> !ready)
            && (state == Synced <==> ready && pending == [])
            && (state == Pending <==> ready && pending != [])
            && pending == (if ready then PendingPairs(ByPrefix(unsortedPhotos), sortedPhotos) else [])
  {
    pending := [];
    state := Unavailable;
    if IsSet(unsortedJpegDirectory) && IsSet(unsortedRawDirectory) && IsSet(sortedJpegDirectory) && IsSet(sortedRawDirectory) {
      var unsortedMap := ByPrefix(unsortedPhotos);
      for i := 0 to |sortedPhotos|
        invariant pending == PendingPairs(unsortedMap, sortedPhotos[..i])
      {
        var sorted := sortedPhotos[i];
        assert sortedPhotos[..i + 1][..i] == sortedPhotos[..i];
        if sorted.prefix in unsortedMap {
          var unsorted := unsortedMap[sorted.prefix];
          if Behind(unsorted, sorted) {
            pending := pending + [SyncPair(unsorted, sorted)];
          }
        }
      }
      assert sortedPhotos[..|sortedPhotos|] == sortedPhotos;
      state := if |pending| == 0 then Synced else Pending;
    }
  }
}
