/** The renderer's store, the `Store` class of src/renderer/src/store.ts: the four directory settings,
    the two paired collections, the selected position and the published metadata fragment, with the
    setters that update them and the computations that read them. */
module RendererStore {
  import opened Api
  import opened Pairing
  import opened Scheduler
  import opened View
  import opened Strings

  class Store {
    var unsortedJpegDirectory: Option<string>
    var unsortedRawDirectory: Option<string>
    var sortedJpegDirectory: Option<string>
    var sortedRawDirectory: Option<string>
    /** The last values of the asynchronously computed collections. */
    var unsortedPhotos: seq<JpegRawPhoto>
    var sortedPhotoList: seq<JpegRawPhoto>
    /** `_selectedPhotoIndex`: null until a position is set. */
    var selectedPhotoField: Option<int>
    var availableLightboxPhotosFragment: Option<Fragment>

    /** Both collections are pairings, so their prefixes strictly increase. */
    ghost predicate Valid()
      reads this`unsortedPhotos, this`sortedPhotoList
    {
      StrictlySorted(Prefixes(unsortedPhotos)) && StrictlySorted(Prefixes(sortedPhotoList))
    }

    constructor ()
      ensures Valid()
      ensures unsortedJpegDirectory == None && unsortedRawDirectory == None
      ensures sortedJpegDirectory == None && sortedRawDirectory == None
      ensures unsortedPhotos == [] && sortedPhotoList == []
      ensures selectedPhotoField == None && availableLightboxPhotosFragment == None
      ensures SelectedPhotoIndex() == 0
    {
      unsortedJpegDirectory := None;
      unsortedRawDirectory := None;
      sortedJpegDirectory := None;
      sortedRawDirectory := None;
      unsortedPhotos := [];
      sortedPhotoList := [];
      selectedPhotoField := None;
      availableLightboxPhotosFragment := None;
    }

    /** `selectedPhotoIndex`: the field, or 0 while it is null. */
    function SelectedPhotoIndex(): (r: int)
      reads this
      ensures selectedPhotoField.None? ==> r == 0
      ensures selectedPhotoField.Some? ==> r == selectedPhotoField.value
    {
      selectedPhotoField.GetOr(0)
    }

    method SetSelectedPhotoIndex(newValue: int)
      modifies this`selectedPhotoField
      ensures selectedPhotoField == Some(newValue)
      ensures SelectedPhotoIndex() == newValue
    {
      selectedPhotoField := Some(newValue);
    }

    /** Choosing an unsorted directory also returns the position to the first item. */
    method SetUnsortedJpegDirectory(newValue: Option<string>)
      modifies this`unsortedJpegDirectory, this`selectedPhotoField
      ensures unsortedJpegDirectory == newValue && selectedPhotoField == Some(0)
    {
      unsortedJpegDirectory := newValue;
      SetSelectedPhotoIndex(0);
    }

    method SetUnsortedRawDirectory(newValue: Option<string>)
      modifies this`unsortedRawDirectory, this`selectedPhotoField
      ensures unsortedRawDirectory == newValue && selectedPhotoField == Some(0)
    {
      unsortedRawDirectory := newValue;
      SetSelectedPhotoIndex(0);
    }

    /** Choosing a sorted directory leaves the position alone. */
    method SetSortedJpegDirectory(newValue: Option<string>)
      modifies this`sortedJpegDirectory
      ensures sortedJpegDirectory == newValue
    {
      sortedJpegDirectory := newValue;
    }

    method SetSortedRawDirectory(newValue: Option<string>)
      modifies this`sortedRawDirectory
      ensures sortedRawDirectory == newValue
    {
      sortedRawDirectory := newValue;
    }

    method SetAvailableLightboxPhotosFragment(newValue: Fragment)
      modifies this`availableLightboxPhotosFragment
      ensures availableLightboxPhotosFragment == Some(newValue)
    {
      availableLightboxPhotosFragment := Some(newValue);
    }

    /** Re-lists the unsorted directories, pairs them and returns the position to the first item. */
    method RefreshUnsortedPhotos(list: string -> seq<FileDetail>)
      requires Valid()
      modifies this`unsortedPhotos, this`selectedPhotoField
      ensures Valid()
      ensures PairingOf(unsortedPhotos, Listing(unsortedJpegDirectory, list), Listing(unsortedRawDirectory, list))
      ensures selectedPhotoField == Some(0)
    {
      unsortedPhotos := MakeJpegRawPhotosFrom(unsortedJpegDirectory, unsortedRawDirectory, list);
      SetSelectedPhotoIndex(0);
    }

    /** Re-lists the sorted directories and pairs them. */
    method RefreshSortedPhotos(list: string -> seq<FileDetail>)
      requires Valid()
      modifies this`sortedPhotoList
      ensures Valid()
      ensures PairingOf(sortedPhotoList, Listing(sortedJpegDirectory, list), Listing(sortedRawDirectory, list))
    {
      sortedPhotoList := MakeJpegRawPhotosFrom(sortedJpegDirectory, sortedRawDirectory, list);
    }

    /** `sortedPhotos`: the sorted collection as a record by prefix. */
    function SortedPhotos(): (r: map<string, JpegRawPhoto>)
      reads this
      ensures forall k :: k in r <==> k in Prefixes(sortedPhotoList)
    {
      ByPrefix(sortedPhotoList)
    }

    /** In a valid store the record by prefix holds every sorted item under its own prefix, and nothing
        else; walking `sortedPhotoList` therefore visits exactly the values of `sortedPhotos`, once each. */
    lemma SortedPhotosHoldsList()
      requires Valid()
      ensures Distinct(Prefixes(sortedPhotoList))
      ensures forall i :: 0 <= i < |sortedPhotoList| ==> SortedPhotos()[sortedPhotoList[i].prefix] == sortedPhotoList[i]
      ensures forall k :: k in SortedPhotos() ==> exists i :: 0 <= i < |sortedPhotoList| && sortedPhotoList[i].prefix == k
    {
      StrictlySortedDistinct(Prefixes(sortedPhotoList));
      ByPrefixOfDistinct(sortedPhotoList);
      forall k | k in SortedPhotos()
        ensures exists i :: 0 <= i < |sortedPhotoList| && sortedPhotoList[i].prefix == k
      {
        assert k in Prefixes(sortedPhotoList);
        var i :| 0 <= i < |sortedPhotoList| && Prefixes(sortedPhotoList)[i] == k;
      }
    }

    /** `windowedImages`, for the current state; `fetch` answers the direct request for the selected item. */
    function CurrentWindowedImages(fetch: JpegMetaRequest -> JpegMeta, windowHeight: int): (r: seq<LightboxPhoto>)
      reads this
      ensures |r| == |unsortedPhotos|
    {
      WindowedImages(unsortedPhotos, SelectedPhotoIndex(), SortedPhotos(), availableLightboxPhotosFragment, fetch, windowHeight)
    }

    /** `photoSync`, for the current state. */
    method CurrentPhotoSync() returns (state: SyncState, pending: seq<SyncPair>)
      ensures var ready := IsSet(unsortedJpegDirectory) && IsSet(unsortedRawDirectory) && IsSet(sortedJpegDirectory) && IsSet(sortedRawDirectory);
              && (state == Unavailable <==> !ready)
              && (state == Synced <==> ready && pending == [])
              && pending == (if ready then PendingPairs(ByPrefix(unsortedPhotos), sortedPhotoList) else [])
    {
      state, pending := PhotoSync(unsortedJpegDirectory, unsortedRawDirectory, sortedJpegDirectory, sortedRawDirectory,
                                  unsortedPhotos, sortedPhotoList);
    }

    /** One run of the reaction on the current position and collection: every publication goes through
        `setAvailableLightboxPhotosFragment`, so the field ends on the last one, if any; the returned plan,
        if any, is what is handed to `precacheJpegMeta`. */
    method React(live: nat -> Option<int>, elapsed: nat -> int, fetch: JpegMetaRequest -> JpegMeta,
                 nearHeight: int, farHeight: int)
      returns (precache: Option<seq<JpegMetaRequest>>)
      modifies this`availableLightboxPhotosFragment
      ensures var outcome := ReactionOutcome(old(unsortedPhotos), old(availableLightboxPhotosFragment),
                                             Invocation(old(SelectedPhotoIndex()), live, elapsed, fetch), nearHeight, farHeight);
              && precache == outcome.precache
              && availableLightboxPhotosFragment ==
                   (if outcome.published == [] then old(availableLightboxPhotosFragment)
                    else Some(outcome.published[|outcome.published| - 1]))
    {
      var published;
      published, precache := RunReaction(unsortedPhotos, selectedPhotoField, availableLightboxPhotosFragment,
                                         live, elapsed, fetch, nearHeight, farHeight);
      if published != [] {
        SetAvailableLightboxPhotosFragment(published[|published| - 1]);
      }
    }
  }
}
