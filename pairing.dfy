/** Pairing of preview (JPEG) files with raw files by shared, case-insensitive file stem:
    `makeJpegRawPhotos` of src/renderer/src/store.ts, of which src/store.ts holds an identical copy. */
module Pairing {
  import opened Api
  import opened Strings

  /** An item of a collection: a stem with at most one file per side. */
  datatype JpegRawPhoto = JpegRawPhoto(prefix: string, jpeg: Option<FileDetail>, raw: Option<FileDetail>)

  const JpegExtensions: seq<string> := ["jpg", "jpeg"]

  const RawExtensions: seq<string> := [
    "arw", "srf", "sr2", "crw", "cr2", "cr3", "dng", "nef", "nrw",
    "orf", "pef", "ptx", "raf", "raw", "rw2", "rwl", "srw", "x3f"]

  /** The name split at its last dot, both halves lower-cased; None for a name without a dot. */
  function SplitName(name: string): (r: Option<(string, string)>)
    ensures r.None? <==> '.' !in name
    ensures r.Some? ==> exists k :: 0 <= k < |name| && name[k] == '.' && '.' !in name[k + 1..]
                                    && r.value == (Lower(name[..k]), Lower(name[k + 1..]))
  {
    match LastIndexOf(name, '.')
    case None => None
    case Some(k) => Some((Lower(name[..k]), Lower(name[k + 1..])))
  }

  /** The stem under which a file is collected on a side, if its extension belongs to that side. */
  function StemOf(f: FileDetail, extensions: seq<string>): Option<string> {
    match SplitName(f.name)
    case None => None
    case Some((stem, extension)) => if extension in extensions then Some(stem) else None
  }

  /** The files collected for `stem`, in listing order. */
  function Candidates(files: seq<FileDetail>, extensions: seq<string>, stem: string): seq<FileDetail> {
    if files == [] then []
    else
      var last := files[|files| - 1];
      Candidates(files[..|files| - 1], extensions, stem) + (if StemOf(last, extensions) == Some(stem) then [last] else [])
  }

  function First(files: seq<FileDetail>): Option<FileDetail> {
    if files == [] then None else Some(files[0])
  }

  /** A stem survives when exactly one file was collected for it on at least one side. */
  predicate Kept(jpegFiles: seq<FileDetail>, rawFiles: seq<FileDetail>, stem: string) {
    |Candidates(jpegFiles, JpegExtensions, stem)| == 1 || |Candidates(rawFiles, RawExtensions, stem)| == 1
  }

  function Prefixes(photos: seq<JpegRawPhoto>): (r: seq<string>)
    ensures |r| == |photos| && forall i :: 0 <= i < |photos| ==> r[i] == photos[i].prefix
  {
    seq(|photos|, i requires 0 <= i < |photos| => photos[i].prefix)
  }

  /** What the pairing promises of its result, for the two listings it was given. */
  ghost predicate PairingOf(photos: seq<JpegRawPhoto>, jpegFiles: seq<FileDetail>, rawFiles: seq<FileDetail>) {
    && StrictlySorted(Prefixes(photos))
    && (forall stem :: stem in Prefixes(photos) <==> Kept(jpegFiles, rawFiles, stem))
    && (forall p :: p in photos ==>
          && p.jpeg == First(Candidates(jpegFiles, JpegExtensions, p.prefix))
          && p.raw == First(Candidates(rawFiles, RawExtensions, p.prefix)))
  }

  /** Taking one more file of the listing adds it to its own stem's candidates and to no other. */
  lemma CandidatesGrow(files: seq<FileDetail>, i: nat, extensions: seq<string>)
    requires i < |files|
    ensures forall s :: Candidates(files[..i + 1], extensions, s)
                        == Candidates(files[..i], extensions, s) + (if StemOf(files[i], extensions) == Some(s) then [files[i]] else [])
  {
    assert files[..i + 1][..i] == files[..i];
  }

  /** Collects the files of one side by stem, as the `forEach`/`push` over the listing does:
      `stems` are the record's keys in insertion order, `groups` its values. */
  method GroupByStem(files: seq<FileDetail>, extensions: seq<string>)
    returns (stems: seq<string>, groups: map<string, seq<FileDetail>>)
    ensures Distinct(stems) && forall s :: s in groups <==> s in stems
    ensures forall s :: s in groups <==> Candidates(files, extensions, s) != []
    ensures forall s :: s in groups ==> groups[s] == Candidates(files, extensions, s)
  {
    stems, groups := [], map[];
    for i := 0 to |files|
      invariant Distinct(stems) && forall s :: s in groups <==> s in stems
      invariant forall s :: s in groups <==> Candidates(files[..i], extensions, s) != []
      invariant forall s :: s in groups ==> groups[s] == Candidates(files[..i], extensions, s)
    {
      CandidatesGrow(files, i, extensions);
      match StemOf(files[i], extensions) {
        case None =>
        case Some(stem) =>
          if stem !in groups {
            groups := groups[stem := []];
            stems := stems + [stem];
          }
          groups := groups[stem := groups[stem] + [files[i]]];
      }
    }
    assert files[..|files|] == files;
  }

  /** `Object.keys(map).filter(k => map[k].length === 1)`. */
  function SingleStems(stems: seq<string>, groups: map<string, seq<FileDetail>>): (r: seq<string>)
    ensures forall s :: s in r <==> s in stems && s in groups && |groups[s]| == 1
  {
    if stems == [] then []
    else
      var rest := SingleStems(stems[1..], groups);
      assert stems == [stems[0]] + stems[1..];
      if stems[0] in groups && |groups[stems[0]]| == 1 then [stems[0]] + rest else rest
  }

  /** `groups` holds, for every stem with candidates, exactly its candidates. */
  ghost predicate GroupsOf(groups: map<string, seq<FileDetail>>, files: seq<FileDetail>, extensions: seq<string>) {
    && (forall s :: s in groups <==> Candidates(files, extensions, s) != [])
    && (forall s :: s in groups ==> groups[s] == Candidates(files, extensions, s))
  }

  /** `(map[prefix] ?? [])[0]`. */
  function FirstIn(groups: map<string, seq<FileDetail>>, stem: string): Option<FileDetail> {
    if stem in groups then First(groups[stem]) else None
  }

  lemma FirstInIsFirstCandidate(groups: map<string, seq<FileDetail>>, files: seq<FileDetail>, extensions: seq<string>, stem: string)
    requires GroupsOf(groups, files, extensions)
    ensures FirstIn(groups, stem) == First(Candidates(files, extensions, stem))
  {
  }

  lemma SurvivorsAreKept(
    jpegFiles: seq<FileDetail>, rawFiles: seq<FileDetail>,
    jpegStems: seq<string>, jpegGroups: map<string, seq<FileDetail>>,
    rawStems: seq<string>, rawGroups: map<string, seq<FileDetail>>)
    requires GroupsOf(jpegGroups, jpegFiles, JpegExtensions) && forall s :: s in jpegGroups <==> s in jpegStems
    requires GroupsOf(rawGroups, rawFiles, RawExtensions) && forall s :: s in rawGroups <==> s in rawStems
    ensures forall stem :: stem in Uniq(SingleStems(jpegStems, jpegGroups) + SingleStems(rawStems, rawGroups))
                           <==> Kept(jpegFiles, rawFiles, stem)
  {
    var union := SingleStems(jpegStems, jpegGroups) + SingleStems(rawStems, rawGroups);
    forall stem ensures stem in Uniq(union) <==> Kept(jpegFiles, rawFiles, stem) {
      assert stem in union <==> stem in SingleStems(jpegStems, jpegGroups) || stem in SingleStems(rawStems, rawGroups);
    }
  }

  /** Pairs a listing of the preview directory with a listing of the raw directory. */
  method MakeJpegRawPhotos(jpegFiles: seq<FileDetail>, rawFiles: seq<FileDetail>)
    returns (photos: seq<JpegRawPhoto>)
    ensures PairingOf(photos, jpegFiles, rawFiles)
  {
    var jpegStems, jpegGroups := GroupByStem(jpegFiles, JpegExtensions);
    var rawStems, rawGroups := GroupByStem(rawFiles, RawExtensions);
    var jpegPrefixes := SingleStems(jpegStems, jpegGroups);
    var rawPrefixes := SingleStems(rawStems, rawGroups);
    var union := Uniq(jpegPrefixes + rawPrefixes);
    var prefixes := Sort(union);
    SortSorted(union);
    SortDistinct(union);
    SortedDistinctIsStrict(prefixes);
    SurvivorsAreKept(jpegFiles, rawFiles, jpegStems, jpegGroups, rawStems, rawGroups);
    photos := seq(|prefixes|, i requires 0 <= i < |prefixes| =>
      JpegRawPhoto(prefixes[i], FirstIn(jpegGroups, prefixes[i]), FirstIn(rawGroups, prefixes[i])));
    assert Prefixes(photos) == prefixes;
    SortMembers(union);
    forall p | p in photos
      ensures p.jpeg == First(Candidates(jpegFiles, JpegExtensions, p.prefix))
      ensures p.raw == First(Candidates(rawFiles, RawExtensions, p.prefix))
    {
      FirstInIsFirstCandidate(jpegGroups, jpegFiles, JpegExtensions, p.prefix);
      FirstInIsFirstCandidate(rawGroups, rawFiles, RawExtensions, p.prefix);
    }
  }

  /** The listing of a directory setting: an unset directory lists nothing. */
  function Listing(directory: Option<string>, list: string -> seq<FileDetail>): (r: seq<FileDetail>)
    ensures !IsSet(directory) ==> r == []
    ensures IsSet(directory) ==> r == list(directory.value)
  {
    if IsSet(directory) then list(directory.value) else []
  }

  lemma {:induction false} NoFilesNoCandidates(extensions: seq<string>, stem: string)
    ensures Candidates([], extensions, stem) == []
  {
  }

  /** Pairs the listings of two directory settings; an unset directory contributes no candidates. */
  method MakeJpegRawPhotosFrom(jpegDirectory: Option<string>, rawDirectory: Option<string>, list: string -> seq<FileDetail>)
    returns (photos: seq<JpegRawPhoto>)
    ensures PairingOf(photos, Listing(jpegDirectory, list), Listing(rawDirectory, list))
    ensures !IsSet(jpegDirectory) ==> forall p :: p in photos ==> p.jpeg == None
    ensures !IsSet(rawDirectory) ==> forall p :: p in photos ==> p.raw == None
  {
    photos := MakeJpegRawPhotos(Listing(jpegDirectory, list), Listing(rawDirectory, list));
  }

  /** Every item of a pairing carries at least one file. */
  lemma PairedItemsHaveAFile(photos: seq<JpegRawPhoto>, jpegFiles: seq<FileDetail>, rawFiles: seq<FileDetail>)
    requires PairingOf(photos, jpegFiles, rawFiles)
    ensures forall p :: p in photos ==> p.jpeg.Some? || p.raw.Some?
  {
    forall p | p in photos ensures p.jpeg.Some? || p.raw.Some? {
      var i :| 0 <= i < |photos| && photos[i] == p;
      assert Prefixes(photos)[i] == p.prefix;
      assert Kept(jpegFiles, rawFiles, p.prefix);
    }
  }

  /** The promised properties determine the collection: there is exactly one pairing of two listings. */
  lemma PairingIsUnique(a: seq<JpegRawPhoto>, b: seq<JpegRawPhoto>, jpegFiles: seq<FileDetail>, rawFiles: seq<FileDetail>)
    requires PairingOf(a, jpegFiles, rawFiles) && PairingOf(b, jpegFiles, rawFiles)
    ensures a == b
  {
    StrictlySortedUnique(Prefixes(a), Prefixes(b));
    forall i | 0 <= i < |a| ensures a[i] == b[i] {
      assert Prefixes(a)[i] == Prefixes(b)[i];
      assert a[i] in a && b[i] in b;
    }
  }

  /** A name built as stem, dot, dot-free extension splits back into that stem and extension. */
  lemma SplitNameOfJoined(stem: string, extension: string)
    requires '.' !in extension
    ensures SplitName(stem + "." + extension) == Some((Lower(stem), Lower(extension)))
  {
    var name := stem + "." + extension;
    assert name[|stem|] == '.';
    var k := LastIndexOf(name, '.').value;
    assert name[..k] == stem && name[k + 1..] == extension;
  }

  /** A file named stem, dot, and a dot-free extension of the side is collected under the lower-cased stem. */
  lemma StemOfJoined(stem: string, extension: string, path: string, extensions: seq<string>)
    requires '.' !in extension && Lower(extension) in extensions
    ensures StemOf(FileDetail(stem + "." + extension, path, ""), extensions) == Some(Lower(stem))
  {
    SplitNameOfJoined(stem, extension);
  }

  lemma LowerOfA()
    ensures Lower("a") == "a" && Lower("A") == "a"
  {
    assert Lower("a")[0] == 'a';
    assert Lower("A")[0] == 'a';
  }

  lemma LowerOfJpg()
    ensures Lower("jpg") == "jpg" && Lower("JPG") == "jpg"
  {
    assert Lower("jpg")[0] == 'j' && Lower("jpg")[1] == 'p' && Lower("jpg")[2] == 'g';
    assert Lower("JPG")[0] == 'j' && Lower("JPG")[1] == 'p' && Lower("JPG")[2] == 'g';
  }

  lemma LowerOfArw()
    ensures Lower("ARW") == "arw"
  {
    assert Lower("ARW")[0] == 'a' && Lower("ARW")[1] == 'r' && Lower("ARW")[2] == 'w';
  }

  lemma JpegStemExample(name: string, path: string)
    requires name == "a.jpg" || name == "a.JPG"
    ensures StemOf(FileDetail(name, path, ""), JpegExtensions) == Some("a")
  {
    LowerOfA();
    LowerOfJpg();
    assert JpegExtensions[0] == "jpg";
    var extension := if name == "a.jpg" then "jpg" else "JPG";
    assert name == "a" + "." + extension;
    StemOfJoined("a", extension, path, JpegExtensions);
  }

  lemma RawStemExample()
    ensures StemOf(FileDetail("A.ARW", "/r/A.ARW", ""), RawExtensions) == Some("a")
  {
    LowerOfA();
    LowerOfArw();
    assert RawExtensions[0] == "arw";
    assert "A.ARW" == "A" + "." + "ARW";
    StemOfJoined("A", "ARW", "/r/A.ARW", RawExtensions);
  }

  lemma CandidatesOfOne(f: FileDetail, extensions: seq<string>, stem: string)
    requires StemOf(f, extensions) == Some(stem)
    ensures Candidates([f], extensions, stem) == [f]
  {
    assert [f][..0] == [];
  }

  lemma CandidatesOfTwo(f: FileDetail, g: FileDetail, extensions: seq<string>, stem: string)
    requires StemOf(f, extensions) == Some(stem) && StemOf(g, extensions) == Some(stem)
    ensures Candidates([f, g], extensions, stem) == [f, g]
  {
    CandidatesOfOne(f, extensions, stem);
    assert [f, g][..1] == [f];
  }

  /** Collecting two previews of stem "a", in listing order. */
  lemma ExamplePreviewCandidates(files: seq<FileDetail>)
    requires files == [FileDetail("a.jpg", "/u/a.jpg", ""), FileDetail("a.JPG", "/u/x/a.JPG", "")]
    ensures Candidates(files, JpegExtensions, "a") == files
  {
    JpegStemExample("a.jpg", "/u/a.jpg");
    JpegStemExample("a.JPG", "/u/x/a.JPG");
    CandidatesOfTwo(files[0], files[1], JpegExtensions, "a");
  }

  /** Two previews of the same stem and no raw file: the stem is dropped. */
  lemma AmbiguousPreviewsAreDropped()
    ensures !Kept([FileDetail("a.jpg", "/u/a.jpg", ""), FileDetail("a.JPG", "/u/x/a.JPG", "")], [], "a")
  {
    ExamplePreviewCandidates([FileDetail("a.jpg", "/u/a.jpg", ""), FileDetail("a.JPG", "/u/x/a.JPG", "")]);
  }

  /** Two previews of the same stem but a single raw file: the stem stays, carrying the first preview. */
  lemma DuplicatePreviewsKeptBesideSingleRaw()
    ensures var jpegFiles := [FileDetail("a.jpg", "/u/a.jpg", ""), FileDetail("a.JPG", "/u/x/a.JPG", "")];
            var rawFiles := [FileDetail("A.ARW", "/r/A.ARW", "")];
            && Kept(jpegFiles, rawFiles, "a")
            && First(Candidates(jpegFiles, JpegExtensions, "a")) == Some(jpegFiles[0])
  {
    var jpegFiles := [FileDetail("a.jpg", "/u/a.jpg", ""), FileDetail("a.JPG", "/u/x/a.JPG", "")];
    var rawFiles := [FileDetail("A.ARW", "/r/A.ARW", "")];
    ExamplePreviewCandidates(jpegFiles);
    RawStemExample();
    CandidatesOfOne(rawFiles[0], RawExtensions, "a");
  }
}
