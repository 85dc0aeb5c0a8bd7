/** The store of the browser prototype, src/store.ts: directory handles, the paired unsorted collection
    and the selected position. */
module PrototypeStore {
  import opened Api
  import opened Pairing

  /** A directory chosen in the browser; the handle is an object, so any chosen handle is set. */
  datatype DirectoryHandle = DirectoryHandle(name: string)

  /** The files read from a directory handle, or nothing when no handle was chosen. */
  function HandleListing(directory: Option<DirectoryHandle>, read: DirectoryHandle -> seq<FileDetail>): (r: seq<FileDetail>)
    ensures directory.None? ==> r == []
    ensures directory.Some? ==> r == read(directory.value)
  {
    if directory.Some? then read(directory.value) else []
  }

  /** The prototype's copy of `makeJpegRawPhotos`: the same pairing, over directory handles. */
  method MakeJpegRawPhotosFromHandles(jpegDirectory: Option<DirectoryHandle>, rawDirectory: Option<DirectoryHandle>,
                                      read: DirectoryHandle -> seq<FileDetail>)
    returns (photos: seq<JpegRawPhoto>)
    ensures PairingOf(photos, HandleListing(jpegDirectory, read), HandleListing(rawDirectory, read))
    ensures jpegDirectory.None? ==> forall p :: p in photos ==> p.jpeg == None
    ensures rawDirectory.None? ==> forall p :: p in photos ==> p.raw == None
  {
    photos := MakeJpegRawPhotos(HandleListing(jpegDirectory, read), HandleListing(rawDirectory, read));
  }

  /** `unsortedPhotos[index]?.prefix ?? ""`: the prefix at a position, or empty outside the collection. */
  function PrefixAt(photos: seq<JpegRawPhoto>, index: int): string {
    if 0 <= index < |photos| then photos[index].prefix else ""
  }

  /** The prefix at a position names an item of the collection, or is empty; inside a pairing it is
      the stem of the item's jpeg, or else of its raw file. */
  lemma PrefixAtNamesItem(photos: seq<JpegRawPhoto>, index: int, jpegFiles: seq<FileDetail>, rawFiles: seq<FileDetail>)
    requires PairingOf(photos, jpegFiles, rawFiles)
    ensures PrefixAt(photos, index) in Prefixes(photos) || (PrefixAt(photos, index) == "" && !(0 <= index < |photos|))
    ensures 0 <= index < |photos| ==> Kept(jpegFiles, rawFiles, PrefixAt(photos, index))
  {
    if 0 <= index < |photos| {
      assert Prefixes(photos)[index] == photos[index].prefix;
    }
  }

  class Store {
    var unsortedJpegDirectory: Option<DirectoryHandle>
    var unsortedRawDirectory: Option<DirectoryHandle>
    var sortedJpegDirectory: Option<DirectoryHandle>
    var sortedRawDirectory: Option<DirectoryHandle>
    /** The last value of the asynchronously computed unsorted collection. */
    var unsortedPhotos: seq<JpegRawPhoto>
    /** `_selectedPhotoIndex`: null until a position is set. */
    var selectedPhotoField: Option<int>

    constructor ()
      ensures unsortedJpegDirectory == None && unsortedRawDirectory == None
      ensures sortedJpegDirectory == None && sortedRawDirectory == None
      ensures unsortedPhotos == [] && selectedPhotoField == None
      ensures SelectedPhotoIndex() == 0
    {
      unsortedJpegDirectory := None;
      unsortedRawDirectory := None;
      sortedJpegDirectory := None;
      sortedRawDirectory := None;
      unsortedPhotos := [];
      selectedPhotoField := None;
    }

    method SetUnsortedJpegDirectory(newValue: Option<DirectoryHandle>)
      modifies this`unsortedJpegDirectory
      ensures unsortedJpegDirectory == newValue
    {
      unsortedJpegDirectory := newValue;
    }

    method SetUnsortedRawDirectory(newValue: Option<DirectoryHandle>)
      modifies this`unsortedRawDirectory
      ensures unsortedRawDirectory == newValue
    {
      unsortedRawDirectory := newValue;
    }

    method SetSortedJpegDirectory(newValue: Option<DirectoryHandle>)
      modifies this`sortedJpegDirectory
      ensures sortedJpegDirectory == newValue
    {
      sortedJpegDirectory := newValue;
    }

    method SetSortedRawDirectory(newValue: Option<DirectoryHandle>)
      modifies this`sortedRawDirectory
      ensures sortedRawDirectory == newValue
    {
      sortedRawDirectory := newValue;
    }

    /** Recomputes the unsorted collection from the current handles. */
    method LoadUnsortedPhotos(read: DirectoryHandle -> seq<FileDetail>)
      modifies this`unsortedPhotos
      ensures PairingOf(unsortedPhotos, HandleListing(unsortedJpegDirectory, read), HandleListing(unsortedRawDirectory, read))
    {
      unsortedPhotos := MakeJpegRawPhotosFromHandles(unsortedJpegDirectory, unsortedRawDirectory, read);
    }

    /** `selectedPhotoIndex`: the field, or 0 while it is null. */
    function SelectedPhotoIndex(): (r: int)
      reads this
      ensures selectedPhotoField.None? ==> r == 0
      ensures selectedPhotoField.Some? ==> r == selectedPhotoField.value
    {
      selectedPhotoField.GetOr(0)
    }

    method SetSelectedPhotoIndex(newValue: int)
      modifies this`selectedPhotoField
      ensures selectedPhotoField == Some(newValue)
      ensures SelectedPhotoIndex() == newValue
    {
      selectedPhotoField := Some(newValue);
    }

    /** `selectedPhotoPrefix`: the prefix of the selected item, or empty when the position is outside the collection. */
    function SelectedPhotoPrefix(): (r: string)
      reads this
      ensures 0 <= SelectedPhotoIndex() < |unsortedPhotos| ==> r == unsortedPhotos[SelectedPhotoIndex()].prefix
      ensures !(0 <= SelectedPhotoIndex() < |unsortedPhotos|) ==> r == ""
    {
      PrefixAt(unsortedPhotos, SelectedPhotoIndex())
    }
  }
}
