/** The keyboard rules of the two applications: the paging, jumping, copy and delete decisions of
    src/renderer/src/App.tsx, the sync button's copies, and the left/right moves of src/App.tsx. */
module Navigation {
  import opened Api
  import opened Strings
  import opened Pairing
  import opened View

  // ----- moving the position -----

  /** pageup: a hundred items back, but not before the first. */
  function PageUp(index: int): (r: int)
    ensures r >= 0
    ensures index >= 0 ==> r <= index
    ensures index >= 100 ==> r == index - 100
    ensures index < 100 ==> r == 0
  {
    if index - 100 > 0 then index - 100 else 0
  }

  /** pagedown: a hundred items on, but not past the last; 0 for an empty collection. */
  function PageDown(index: int, length: nat): (r: int)
    ensures 0 <= r && (length > 0 ==> r <= length - 1)
    ensures length == 0 ==> r == 0
    ensures 0 <= index && index + 100 <= length - 1 ==> r == index + 100
    ensures index + 100 >= length - 1 && length > 0 ==> r == length - 1
  {
    var ahead := if index + 100 < length - 1 then index + 100 else length - 1;
    if ahead > 0 then ahead else 0
  }

  /** The item at `index` has a counterpart in the sorted collection. */
  predicate Marked(photos: seq<JpegRawPhoto>, sortedPhotos: map<string, JpegRawPhoto>, index: int) {
    0 <= index < |photos| && photos[index].prefix in sortedPhotos
  }

  /** The greatest marked index below `bound`, if any. */
  function LastMarkedBelow(photos: seq<JpegRawPhoto>, sortedPhotos: map<string, JpegRawPhoto>, bound: int): (r: Option<int>)
    ensures r.Some? ==> r.value < bound && Marked(photos, sortedPhotos, r.value)
                        && forall j :: r.value < j < bound ==> !Marked(photos, sortedPhotos, j)
    ensures r.None? ==> forall j :: j < bound ==> !Marked(photos, sortedPhotos, j)
    decreases if bound > |photos| then |photos| + 1 else if bound < 0 then 0 else bound
  {
    if bound <= 0 then None
    else if bound > |photos| then LastMarkedBelow(photos, sortedPhotos, |photos|)
    else if Marked(photos, sortedPhotos, bound - 1) then Some(bound - 1)
    else LastMarkedBelow(photos, sortedPhotos, bound - 1)
  }

  /** The smallest marked index above `bound`, if any. */
  function FirstMarkedAbove(photos: seq<JpegRawPhoto>, sortedPhotos: map<string, JpegRawPhoto>, bound: int): (r: Option<int>)
    ensures r.Some? ==> r.value > bound && Marked(photos, sortedPhotos, r.value)
                        && forall j :: bound < j < r.value ==> !Marked(photos, sortedPhotos, j)
    ensures r.None? ==> forall j :: j > bound ==> !Marked(photos, sortedPhotos, j)
    decreases if bound < -1 then |photos| + 2 else if bound >= |photos| then 0 else |photos| - bound
  {
    if bound >= |photos| - 1 then None
    else if bound < -1 then FirstMarkedAbove(photos, sortedPhotos, -1)
    else if Marked(photos, sortedPhotos, bound + 1) then Some(bound + 1)
    else FirstMarkedAbove(photos, sortedPhotos, bound + 1)
  }

  /** up: to the nearest item before the current one that already has a counterpart; else stay. */
  function Up(photos: seq<JpegRawPhoto>, sortedPhotos: map<string, JpegRawPhoto>, index: int): int {
    match LastMarkedBelow(photos, sortedPhotos, index)
    case Some(target) => target
    case None => index
  }

  /** down: to the nearest item after the current one that already has a counterpart; else stay. */
  function Down(photos: seq<JpegRawPhoto>, sortedPhotos: map<string, JpegRawPhoto>, index: int): int {
    match FirstMarkedAbove(photos, sortedPhotos, index)
    case Some(target) => target
    case None => index
  }

  /** up lands on a marked item before the current one with nothing marked in between, or stays put
      exactly when nothing before is marked; down is the mirror image. */
  lemma UpDownJumpToNearestMarked(photos: seq<JpegRawPhoto>, sortedPhotos: map<string, JpegRawPhoto>, index: int)
    ensures var r := Up(photos, sortedPhotos, index);
            && (r == index <==> forall j :: j < index ==> !Marked(photos, sortedPhotos, j))
            && (r != index ==> r < index && Marked(photos, sortedPhotos, r)
                               && forall j :: r < j < index ==> !Marked(photos, sortedPhotos, j))
    ensures var r := Down(photos, sortedPhotos, index);
            && (r == index <==> forall j :: j > index ==> !Marked(photos, sortedPhotos, j))
            && (r != index ==> r > index && Marked(photos, sortedPhotos, r)
                               && forall j :: index < j < r ==> !Marked(photos, sortedPhotos, j))
  {
  }

  /** left: one item back, but not before the first (src/App.tsx). */
  function Left(index: int): (r: int)
    ensures r >= 0
    ensures index >= 1 ==> r == index - 1
    ensures index < 1 ==> r == 0
  {
    if index - 1 > 0 then index - 1 else 0
  }

  /** right: one item on, but not past the last; 0 for an empty collection (src/App.tsx). */
  function Right(index: int, length: nat): (r: int)
    ensures r <= (if length > 0 then length - 1 else 0)
    ensures index + 1 <= (if length > 0 then length - 1 else 0) ==> r == index + 1
    ensures index + 1 >= (if length > 0 then length - 1 else 0) ==> r == (if length > 0 then length - 1 else 0)
  {
    var last := if length - 1 > 0 then length - 1 else 0;
    if index + 1 < last then index + 1 else last
  }

  /** From a position inside the collection, left and right stay inside it. */
  lemma LeftRightStayInside(index: int, length: nat)
    requires 0 <= index <= (if length > 0 then length - 1 else 0)
    ensures 0 <= Left(index) <= (if length > 0 then length - 1 else 0)
    ensures 0 <= Right(index, length) <= (if length > 0 then length - 1 else 0)
  {
  }

  // ----- copying and deleting the current item -----

  /** `unsortedPhotos[selectedPhotoIndex]`, absent outside the collection. */
  function CurrentUnsorted(photos: seq<JpegRawPhoto>, index: int): Option<JpegRawPhoto> {
    if 0 <= index < |photos| then Some(photos[index]) else None
  }

  /** The counterpart of the current item: looked up only for a non-empty prefix. */
  function CurrentSorted(current: Option<JpegRawPhoto>, sortedPhotos: map<string, JpegRawPhoto>): Option<JpegRawPhoto> {
    if current.Some? && current.value.prefix != "" && current.value.prefix in sortedPhotos then Some(sortedPhotos[current.value.prefix])
    else None
  }

  /** Which sides an action applies to. */
  datatype Sides = Sides(jpeg: bool, raw: bool)

  predicate HasJpeg(photo: Option<JpegRawPhoto>) { photo.Some? && photo.value.jpeg.Some? }
  predicate HasRaw(photo: Option<JpegRawPhoto>) { photo.Some? && photo.value.raw.Some? }

  /** space: copy each file of the current item whose sorted directory is set and whose counterpart lacks it. */
  function SpaceCopies(current: Option<JpegRawPhoto>, sorted: Option<JpegRawPhoto>,
                       sortedJpegDirectory: Option<string>, sortedRawDirectory: Option<string>): Sides
  {
    Sides(HasJpeg(current) && IsSet(sortedJpegDirectory) && !HasJpeg(sorted),
          HasRaw(current) && IsSet(sortedRawDirectory) && !HasRaw(sorted))
  }

  /** delete: remove the counterpart's jpeg when the current prefix is non-empty, and its raw files when
      the current item has a raw file too. */
  function DeleteRemovals(current: Option<JpegRawPhoto>, sorted: Option<JpegRawPhoto>,
                          sortedJpegDirectory: Option<string>, sortedRawDirectory: Option<string>): Sides
  {
    Sides(current.Some? && current.value.prefix != "" && IsSet(sortedJpegDirectory) && HasJpeg(sorted),
          HasRaw(current) && IsSet(sortedRawDirectory) && HasRaw(sorted))
  }

  /** On each side, space and delete never both act: one needs the counterpart to lack the file, the
      other to have it. Together they toggle: space acts where the file is missing and the current item
      has one, delete where the counterpart already has it. */
  lemma SpaceAndDeleteExclusive(photos: seq<JpegRawPhoto>, sortedPhotos: map<string, JpegRawPhoto>, index: int,
                                sortedJpegDirectory: Option<string>, sortedRawDirectory: Option<string>)
    ensures var current := CurrentUnsorted(photos, index);
            var sorted := CurrentSorted(current, sortedPhotos);
            var copies := SpaceCopies(current, sorted, sortedJpegDirectory, sortedRawDirectory);
            var removals := DeleteRemovals(current, sorted, sortedJpegDirectory, sortedRawDirectory);
            && !(copies.jpeg && removals.jpeg) && !(copies.raw && removals.raw)
            && (copies.jpeg <==> 0 <= index < |photos| && photos[index].jpeg.Some? && IsSet(sortedJpegDirectory)
                                 && !(photos[index].prefix != "" && photos[index].prefix in sortedPhotos
                                      && sortedPhotos[photos[index].prefix].jpeg.Some?))
            && (copies.raw <==> 0 <= index < |photos| && photos[index].raw.Some? && IsSet(sortedRawDirectory)
                                && !(photos[index].prefix != "" && photos[index].prefix in sortedPhotos
                                     && sortedPhotos[photos[index].prefix].raw.Some?))
            && (removals.jpeg <==> 0 <= index < |photos| && photos[index].prefix != "" && IsSet(sortedJpegDirectory)
                                   && photos[index].prefix in sortedPhotos && sortedPhotos[photos[index].prefix].jpeg.Some?)
            && (removals.raw <==> 0 <= index < |photos| && photos[index].raw.Some? && photos[index].prefix != ""
                                  && IsSet(sortedRawDirectory)
                                  && photos[index].prefix in sortedPhotos && sortedPhotos[photos[index].prefix].raw.Some?)
  {
  }

  // ----- the sync button -----

  /** A file to copy into a directory. */
  datatype Copy = Copy(path: string, directory: string)

  /** The copies for one pending pair: each side present in the unsorted item and missing in the sorted one. */
  function PairCopies(pair: SyncPair, sortedJpegDirectory: Option<string>, sortedRawDirectory: Option<string>): seq<Copy> {
    (if pair.unsorted.jpeg.Some? && IsSet(sortedJpegDirectory) && pair.sorted.jpeg.None?
     then [Copy(pair.unsorted.jpeg.value.path, sortedJpegDirectory.value)] else [])
    + (if pair.unsorted.raw.Some? && IsSet(sortedRawDirectory) && pair.sorted.raw.None?
       then [Copy(pair.unsorted.raw.value.path, sortedRawDirectory.value)] else [])
  }

  /** All the copies of the sync button, pair after pair. */
  function SyncCopies(pending: seq<SyncPair>, sortedJpegDirectory: Option<string>, sortedRawDirectory: Option<string>): seq<Copy> {
    if pending == [] then []
    else SyncCopies(pending[..|pending| - 1], sortedJpegDirectory, sortedRawDirectory)
         + PairCopies(pending[|pending| - 1], sortedJpegDirectory, sortedRawDirectory)
  }

  /** `c` copies a file the pair's unsorted item has and its sorted item lacks, into that side's directory. */
  predicate CopiesMissingSide(pair: SyncPair, c: Copy, sortedJpegDirectory: Option<string>, sortedRawDirectory: Option<string>) {
    || (pair.unsorted.jpeg.Some? && pair.sorted.jpeg.None? && IsSet(sortedJpegDirectory)
        && c == Copy(pair.unsorted.jpeg.value.path, sortedJpegDirectory.value))
    || (pair.unsorted.raw.Some? && pair.sorted.raw.None? && IsSet(sortedRawDirectory)
        && c == Copy(pair.unsorted.raw.value.path, sortedRawDirectory.value))
  }

  /** The file a copy takes comes from a pending pair, on a side its unsorted item has and its sorted
      item lacks, into that side's directory. */
  lemma {:induction false} SyncCopiesOnlyMissingSides(pending: seq<SyncPair>, sortedJpegDirectory: Option<string>, sortedRawDirectory: Option<string>)
    ensures forall c :: c in SyncCopies(pending, sortedJpegDirectory, sortedRawDirectory) ==>
              exists pair :: pair in pending && CopiesMissingSide(pair, c, sortedJpegDirectory, sortedRawDirectory)
  {
    if pending != [] {
      var init := pending[..|pending| - 1];
      var last := pending[|pending| - 1];
      SyncCopiesOnlyMissingSides(init, sortedJpegDirectory, sortedRawDirectory);
      forall c | c in SyncCopies(pending, sortedJpegDirectory, sortedRawDirectory)
        ensures exists pair :: pair in pending && CopiesMissingSide(pair, c, sortedJpegDirectory, sortedRawDirectory)
      {
        if c in SyncCopies(init, sortedJpegDirectory, sortedRawDirectory) {
          var pair :| pair in init && CopiesMissingSide(pair, c, sortedJpegDirectory, sortedRawDirectory);
          assert pair in pending;
        } else {
          assert last in pending;
        }
      }
    }
  }

  /** With both sorted directories set, every pair `photoSync` reports as pending gets at least one copy. */
  lemma PendingPairsGetCopied(unsortedPhotos: map<string, JpegRawPhoto>, sorted: seq<JpegRawPhoto>, pair: SyncPair,
                              sortedJpegDirectory: Option<string>, sortedRawDirectory: Option<string>)
    requires IsSet(sortedJpegDirectory) && IsSet(sortedRawDirectory)
    requires pair in PendingPairs(unsortedPhotos, sorted)
    ensures PairCopies(pair, sortedJpegDirectory, sortedRawDirectory) != []
  {
    PendingPairsExactly(unsortedPhotos, sorted, pair);
  }
}
