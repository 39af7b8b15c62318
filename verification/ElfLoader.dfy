/**
 Loading an executable with everything it needs. The files form a graph, in which an
 image needs others and may, by way of them, need itself; see "Shared Object
 Dependencies" in chapter 5 of the System V ABI.
 */
module ElfLoader {
  import opened ImageList

  // ---------------------------------------------------------------------------
  // Names
  // ---------------------------------------------------------------------------

  function Take(s: string, n: nat): string {
    if |s| <= n then s else s[..n]
  }

  /** fs_getFilename: what follows the last slash. */
  function FileName(path: string): string {
    if '/' in path then FileName(path[1..]) else path
  }

  /** The name an image is given: it has room for 31 characters. */
  function StoredName(path: string): string { Take(FileName(path), 31) }

  /** Where a library is looked for; the buffer for the path has room for 255 characters. */
  function FullPath(search: string, lib: string): string {
    var start := Take(search, 255);
    var directory := if start != "" && start[|start| - 1] == '/' then start else Take(start + "/", 255);
    Take(directory + lib, 255)
  }

  /** The path of the library fits the buffer. */
  predicate Fits(search: string, lib: string) {
    search != "" && |search| + 1 + |lib| <= 255
  }

  /** A path that fits is the directory searched, a slash unless it ends with one, and the name. */
  lemma PathOfLibrary(search: string, lib: string)
    requires Fits(search, lib)
    ensures FullPath(search, lib) == if search[|search| - 1] == '/' then search + lib else search + "/" + lib
  {
  }

  lemma {:induction false} AfterLastSlash(directory: string, lib: string)
    ensures FileName(directory + "/" + lib) == FileName(lib)
    decreases |directory|
  {
    var path := directory + "/" + lib;
    assert path[|directory|] == '/';
    if directory == "" {
      assert path[1..] == lib;
      if '/' !in lib { assert FileName(lib) == lib; }
    } else {
      assert path[1..] == directory[1..] + "/" + lib;
      AfterLastSlash(directory[1..], lib);
    }
  }

  lemma {:induction false} FileNameIsPart(path: string)
    ensures |FileName(path)| <= |path| && ('/' in path ==> |FileName(path)| < |path|)
    ensures IsCString(path) ==> IsCString(FileName(path))
  {
    if '/' in path { FileNameIsPart(path[1..]); }
  }

  lemma LibraryName(search: string, lib: string)
    requires Fits(search, lib)
    ensures StoredName(FullPath(search, lib)) == Take(FileName(lib), 31)
  {
    if search[|search| - 1] == '/' {
      var directory := search[..|search| - 1];
      assert search == directory + "/";
      AfterLastSlash(directory, lib);
    } else {
      AfterLastSlash(search, lib);
    }
  }

  /**
     A library that has just been loaded is found by the name it is needed by just when
     that name has no slash and fits the image. Any other library is loaded again each
     time it is needed.
   */
  lemma FoundAfterLoading(search: string, lib: string)
    requires Fits(search, lib)
    ensures SameName(lib, StoredName(FullPath(search, lib))) <==> '/' !in lib && |lib| <= 31
  {
    LibraryName(search, lib);
    FileNameIsPart(lib);
  }

  /**
     However many copies of such a library have been loaded, none of them is found: one
     that needs itself is loaded once more at every depth of the recursion.
   */
  lemma NotFoundAmongCopies(search: string, lib: string, copies: seq<Image>)
    requires Fits(search, lib) && ('/' in lib || |lib| > 31)
    requires forall i :: 0 <= i < |copies| ==> copies[i].name == StoredName(FullPath(search, lib))
    ensures forall i :: 0 <= i < |copies| ==> !SameName(lib, copies[i].name)
  {
    FoundAfterLoading(search, lib);
  }

  // ---------------------------------------------------------------------------
  // The graph
  // ---------------------------------------------------------------------------

  /** What comes of opening and reading a file. */
  datatype File =
    | Missing
    | NotElf
    | Elf64
    | Elf32(segmentsLoad: bool, dynamicUsable: bool, needed: seq<string>, relocates: bool)
  {
    /** Nothing about the file itself keeps it from being loaded. */
    predicate Good() { Elf32? && segmentsLoad && dynamicUsable && relocates }
  }

  type Files = string -> File

  /** The file at `p` needs the one at `q`. */
  ghost predicate Needs(files: Files, search: string, p: string, q: string) {
    files(p).Elf32? && exists i :: 0 <= i < |files(p).needed| && FullPath(search, files(p).needed[i]) == q
  }

  ghost predicate Walk(files: Files, search: string, w: seq<string>) {
    w != [] && forall i, j :: 0 <= i && j == i + 1 < |w| ==> Needs(files, search, w[i], w[j])
  }

  ghost predicate Reaches(files: Files, search: string, p: string, q: string) {
    exists w :: Walk(files, search, w) && w[0] == p && w[|w| - 1] == q
  }

  lemma ReachesItself(files: Files, search: string, p: string)
    ensures Reaches(files, search, p, p)
  {
    assert Walk(files, search, [p]);
  }

  lemma NeedsThenReaches(files: Files, search: string, p: string, q: string, r: string)
    requires Needs(files, search, p, q) && Reaches(files, search, q, r)
    ensures Reaches(files, search, p, r)
  {
    hide Needs;
    var w :| Walk(files, search, w) && w[0] == q && w[|w| - 1] == r;
    assert Walk(files, search, [p] + w);
  }

  /** From inside a set that has all that its members need nothing outside is reached. */
  lemma {:induction false} WalkStaysInside(files: Files, search: string, s: set<string>, w: seq<string>)
    requires Walk(files, search, w) && w[0] in s
    requires forall p, q :: p in s && Needs(files, search, p, q) ==> q in s
    ensures w[|w| - 1] in s
    decreases |w|
  {
    if |w| > 1 {
      assert Needs(files, search, w[0], w[1]);
      WalkStaysInside(files, search, s, w[1..]);
    }
  }

  /** The libraries' names have no slash, fit an image and differ ignoring case, and the files are those of `u`. */
  ghost predicate WellNamed(files: Files, search: string, u: set<string>) {
    && (forall p :: p in u ==> IsCString(p))
    && (forall p, q :: p in u && q in u && SameName(StoredName(p), StoredName(q)) ==> p == q)
    && (forall p, i :: p in u && files(p).Elf32? && 0 <= i < |files(p).needed| ==>
          WellNamedLibrary(search, u, files(p).needed[i]))
  }

  ghost predicate WellNamedLibrary(search: string, u: set<string>, lib: string) {
    IsCString(lib) && '/' !in lib && |lib| <= 31 && Fits(search, lib) && FullPath(search, lib) in u
  }

  // ---------------------------------------------------------------------------
  // What is loaded
  // ---------------------------------------------------------------------------

  ghost function Paths(images: seq<Image>): set<string> {
    set image | image in images :: image.path
  }

  /** Every image was loaded from a file of its own, and carries its name. */
  ghost predicate EachOnce(u: set<string>, images: seq<Image>) {
    && (forall i :: 0 <= i < |images| ==> images[i].path in u && images[i].name == StoredName(images[i].path))
    && (forall i, j :: 0 <= i < j < |images| ==> images[i].path != images[j].path)
  }

  lemma LibraryOf(files: Files, search: string, u: set<string>, path: string, j: nat)
    requires WellNamed(files, search, u) && path in u && files(path).Elf32? && j < |files(path).needed|
    ensures WellNamedLibrary(search, u, files(path).needed[j])
    ensures Needs(files, search, path, FullPath(search, files(path).needed[j]))
  {
  }

  lemma PathsInUse(files: Files, search: string, u: set<string>, path: string, images: seq<Image>)
    requires WellNamed(files, search, u) && path in u && files(path).Elf32? && |images| == |files(path).needed|
    requires forall j :: 0 <= j < |images| ==> images[j].path == FullPath(search, files(path).needed[j])
    ensures images != [] ==> search != ""
    ensures images != [] && search[|search| - 1] == '/' ==>
              forall j :: 0 <= j < |images| ==> images[j].path == search + files(path).needed[j]
    ensures images != [] && search[|search| - 1] != '/' ==>
              forall j :: 0 <= j < |images| ==> images[j].path == search + "/" + files(path).needed[j]
  {
    hide FullPath, WellNamed;
    forall j | 0 <= j < |images|
      ensures search != ""
      ensures search[|search| - 1] == '/' ==> images[j].path == search + files(path).needed[j]
      ensures search[|search| - 1] != '/' ==> images[j].path == search + "/" + files(path).needed[j]
    {
      LibraryOf(files, search, u, path, j);
      PathOfLibrary(search, files(path).needed[j]);
    }
    assert images != [] ==> images[0].path == images[0].path;
  }

  lemma StoredNameIsCString(path: string)
    requires IsCString(path)
    ensures IsCString(StoredName(path))
  {
    FileNameIsPart(path);
  }

  /** What a loaded image needs has been loaded, from the directory searched. */
  lemma AllThere(files: Files, search: string, u: set<string>, images: seq<Image>)
    requires WellNamed(files, search, u) && EachOnce(u, images) && Closed(files, search, Paths(images))
    requires forall q :: q in Paths(images) ==> files(q).Elf32?
    ensures search != "" && search[|search| - 1] == '/' ==>
              forall p, j :: p in Paths(images) && 0 <= j < |files(p).needed| ==>
                search + files(p).needed[j] in Paths(images)
    ensures search != "" && search[|search| - 1] != '/' ==>
              forall p, j :: p in Paths(images) && 0 <= j < |files(p).needed| ==>
                search + "/" + files(p).needed[j] in Paths(images)
  {
    hide FullPath, WellNamed;
    forall p, j | p in Paths(images) && 0 <= j < |files(p).needed|
      ensures search != ""
      ensures search[|search| - 1] == '/' ==> search + files(p).needed[j] in Paths(images)
      ensures search[|search| - 1] != '/' ==> search + "/" + files(p).needed[j] in Paths(images)
    {
      var i :| 0 <= i < |images| && images[i].path == p;
      LibraryOf(files, search, u, p, j);
      PathOfLibrary(search, files(p).needed[j]);
      assert FullPath(search, files(p).needed[j]) in Paths(images);
    }
  }

  lemma NamesAreCStrings(files: Files, search: string, u: set<string>, images: seq<Image>)
    requires WellNamed(files, search, u) && EachOnce(u, images)
    ensures forall i :: 0 <= i < |images| ==> IsCString(images[i].name)
  {
    forall i | 0 <= i < |images| ensures IsCString(images[i].name) {
      StoredNameIsCString(images[i].path);
    }
  }

  lemma PathsConcat(a: seq<Image>, b: seq<Image>)
    ensures Paths(a + b) == Paths(a) + Paths(b)
  {
  }

  /** The image found by a library's name is the one loaded from its path, and none is when that was not loaded. */
  lemma FoundByName(files: Files, search: string, u: set<string>, images: seq<Image>, lib: string)
    requires WellNamed(files, search, u) && EachOnce(u, images) && WellNamedLibrary(search, u, lib)
    ensures forall i :: 0 <= i < |images| ==>
              (SameName(lib, images[i].name) <==> images[i].path == FullPath(search, lib))
  {
    FoundAfterLoading(search, lib);
    LibraryName(search, lib);
    FileNameIsPart(lib);
    assert FileName(lib) == lib;
  }

  lemma OneFewerLeft(u: set<string>, loaded: set<string>, path: string)
    requires path in u && path !in loaded
    ensures |u - (loaded + {path})| < |u - loaded|
  {
    assert u - loaded == (u - (loaded + {path})) + {path};
  }

  lemma FewerLeft(u: set<string>, a: set<string>, b: set<string>)
    requires a <= b
    ensures |u - b| <= |u - a|
  {
    assert u - a == (u - b) + (u - a) * b;
  }

  /** The images `added` were reached from `from`, and what they need is among `loaded`. */
  ghost predicate Complete(files: Files, search: string, from: string, added: seq<Image>, loaded: set<string>) {
    forall i :: 0 <= i < |added| ==>
      && files(added[i].path).Good() && Reaches(files, search, from, added[i].path)
      && forall q :: Needs(files, search, added[i].path, q) ==> q in loaded
  }

  lemma NothingMissing(files: Files, search: string, from: string, loaded: set<string>)
    ensures Complete(files, search, from, [], loaded)
  {
  }

  /** A file that keeps `from` from being loaded. */
  ghost predicate Blocks(files: Files, search: string, from: string, loaded: set<string>, q: string) {
    Reaches(files, search, from, q) && q !in loaded && !files(q).Good()
  }

  lemma InPaths(images: seq<Image>, i: nat)
    requires i < |images|
    ensures images[i].path in Paths(images)
  {
  }

  lemma NowLoaded(u: set<string>, before: seq<Image>, image: Image)
    requires EachOnce(u, before) && image.path in u && image.path !in Paths(before)
    requires image.name == StoredName(image.path)
    ensures EachOnce(u, [image] + before) && Paths([image] + before) == Paths(before) + {image.path}
    ensures |u - Paths([image] + before)| < |u - Paths(before)|
  {
    hide StoredName, Paths;
    forall i | 0 <= i < |before| ensures before[i].path != image.path {
      InPaths(before, i);
    }
    PathsOfOneMore(image, before);
    OneFewerLeft(u, Paths(before), image.path);
  }

  lemma PathsOfOneMore(image: Image, before: seq<Image>)
    ensures Paths([image] + before) == Paths(before) + {image.path}
  {
    PathsConcat([image], before);
    assert Paths([image]) == {image.path};
  }

  lemma NotInPaths(images: seq<Image>, path: string)
    requires forall i :: 0 <= i < |images| ==> images[i].path != path
    ensures path !in Paths(images)
  {
  }

  lemma Regroup(a: seq<Image>, b: seq<Image>, c: seq<Image>)
    ensures a + (b + c) == (a + b) + c
  {
  }

  lemma NothingBefore(images: seq<Image>)
    ensures [] + images == images
  {
  }

  lemma Between(deeper: seq<Image>, image: Image, before: seq<Image>)
    ensures var all := deeper + ([image] + before); var k := |deeper|;
            && all == (deeper + [image]) + before
            && k < |all| && all[k] == image && all[..k] + all[k + 1..] == deeper + before
    ensures deeper + [image] != [] && (deeper + [image])[|deeper + [image]| - 1] == image
  {
  }

  lemma NoLongerLoaded(u: set<string>, deeper: seq<Image>, image: Image, before: seq<Image>)
    requires EachOnce(u, deeper + ([image] + before))
    ensures EachOnce(u, deeper + before) && image.path !in Paths(deeper + before)
  {
    hide StoredName;
    var all, rest, k := deeper + ([image] + before), deeper + before, |deeper|;
    assert all[k] == image;
    assert forall i :: 0 <= i < |rest| ==> rest[i] == if i < k then all[i] else all[i + 1];
    forall i | 0 <= i < |rest|
      ensures rest[i].path in u && rest[i].name == StoredName(rest[i].path) && rest[i].path != image.path
    {
      var i' := if i < k then i else i + 1;
      assert all[i'].path in u;
      assert i < k ==> all[i].path != all[k].path;
      assert i >= k ==> all[k].path != all[i + 1].path;
    }
    forall i, j | 0 <= i < j < |rest| ensures rest[i].path != rest[j].path {
      var i', j' := if i < k then i else i + 1, if j < k then j else j + 1;
      assert all[i'].path != all[j'].path;
    }
  }

  /** What has been loaded for a needed library is loaded for the image that needs it. */
  lemma CompleteFromFurther(files: Files, search: string, from: string, next: string,
                            deeper: seq<Image>, sofar: seq<Image>, between: set<string>, loaded: set<string>)
    requires Needs(files, search, from, next) && between <= loaded
    requires Complete(files, search, next, deeper, loaded) && Complete(files, search, from, sofar, between)
    ensures Complete(files, search, from, deeper + sofar, loaded)
  {
    hide Needs, Reaches, File.Good;
    forall i | 0 <= i < |deeper| ensures Reaches(files, search, from, deeper[i].path) {
      NeedsThenReaches(files, search, from, next, deeper[i].path);
    }
  }

  /** With all its libraries an image is complete. */
  lemma CompleteWithOwn(files: Files, search: string, path: string, deeper: seq<Image>, image: Image,
                        neededImages: seq<Image>, images: seq<Image>)
    requires image.path == path && files(path).Good() && Complete(files, search, path, deeper, Paths(images))
    requires |neededImages| == |files(path).needed|
    requires forall j :: 0 <= j < |neededImages| ==>
               neededImages[j] in images && neededImages[j].path == FullPath(search, files(path).needed[j])
    ensures Complete(files, search, path, deeper + [image], Paths(images))
  {
    hide FullPath, Reaches;
    ReachesItself(files, search, path);
  }

  lemma BlocksFromFurther(files: Files, search: string, from: string, next: string, before: set<string>,
          between: set<string>)
    requires Needs(files, search, from, next) && before <= between
    requires exists q :: Blocks(files, search, next, between, q)
    ensures exists q :: Blocks(files, search, from, before, q)
  {
    hide Needs, Reaches, File.Good;
    var q :| Blocks(files, search, next, between, q);
    NeedsThenReaches(files, search, from, next, q);
    assert Blocks(files, search, from, before, q);
  }

  lemma BlocksEarlier(files: Files, search: string, from: string, before: set<string>, between: set<string>)
    requires before <= between && exists q :: Blocks(files, search, from, between, q)
    ensures exists q :: Blocks(files, search, from, before, q)
  {
    hide Reaches, File.Good;
    var q :| Blocks(files, search, from, between, q);
    assert Blocks(files, search, from, before, q);
  }

  lemma BlocksItself(files: Files, search: string, path: string, before: set<string>)
    requires path !in before && !files(path).Good()
    ensures exists q :: Blocks(files, search, path, before, q)
  {
    hide Reaches, File.Good;
    ReachesItself(files, search, path);
    assert Blocks(files, search, path, before, path);
  }

  // ---------------------------------------------------------------------------
  // Loading
  // ---------------------------------------------------------------------------

  class Loader {
    const files: Files
    const librarySearchPath: string
    const loaded: LoadedImages

    constructor (files: Files, librarySearchPath: string, loaded: LoadedImages)
      ensures this.files == files && this.librarySearchPath == librarySearchPath && this.loaded == loaded
    {
      this.files, this.librarySearchPath, this.loaded := files, librarySearchPath, loaded;
    }

    /** elf_loadFile. The image is the one returned for the file, or null on failure. */
    method LoadFile(path: string, ghost u: set<string>) returns (image: Image?, ghost added: seq<Image>)
      requires loaded.Valid() && WellNamed(files, librarySearchPath, u) && EachOnce(u, loaded.images)
      requires path in u && path !in Paths(loaded.images)
      modifies loaded`images, loaded.head, loaded.images
      ensures loaded.Valid() && loaded.images == added + old(loaded.images) && fresh(added)
      ensures EachOnce(u, loaded.images)
      ensures image != null ==> added != [] && image == added[|added| - 1] && image.path == path
      ensures image != null ==> Complete(files, librarySearchPath, path, added, Paths(loaded.images))
      ensures image == null ==> path !in Paths(loaded.images)
      ensures image == null ==> exists q :: Blocks(files, librarySearchPath, path, Paths(old(loaded.images)), q)
      decreases |u - Paths(loaded.images)|, 1
    {
      hide LoadedImages.Valid, SameName, StoredName, FullPath, FileName;
      hide Reaches, Complete, Blocks, EachOnce, WellNamed, Needs;
      hide Paths, Take, Walk, Fits, IsCString;
      ghost var before := loaded.images;
      added := [];
      NothingBefore(before);
      var file := files(path);
      if file.Missing? || file.NotElf? {
        BlocksItself(files, librarySearchPath, path, Paths(before));
        return null, added;
      }
      var own := new Image(StoredName(path), path);
      loaded.Add(own);
      NowLoaded(u, before, own);

      ghost var deeper;
      var ok;
      ok, deeper := LoadEntered(own, file, u, before);
      Between(deeper, own, before);
      if ok {
        image, added := own, deeper + [own];
      } else {
        loaded.Remove(own, |deeper|);
        NoLongerLoaded(u, deeper, own, before);
        image, added := null, deeper;
      }
    }

    /** The image is on the list; its segments, its libraries and its relocations follow. */
    method LoadEntered(own: Image, file: File, ghost u: set<string>, ghost before: seq<Image>)
      returns (ok: bool, ghost deeper: seq<Image>)
      requires loaded.Valid() && WellNamed(files, librarySearchPath, u) && EachOnce(u, loaded.images)
      requires loaded.images == [own] + before && Paths(loaded.images) == Paths(before) + {own.path}
      requires own.path in u && own.path !in Paths(before) && file == files(own.path)
      modifies loaded`images, loaded.head, loaded.images
      ensures loaded.Valid() && loaded.images == deeper + ([own] + before) && fresh(deeper)
      ensures EachOnce(u, loaded.images)
      ensures ok ==> Complete(files, librarySearchPath, own.path, deeper + [own], Paths(loaded.images))
      ensures !ok ==> exists q :: Blocks(files, librarySearchPath, own.path, Paths(before), q)
      decreases |u - Paths(loaded.images)|, 4
    {
      hide LoadedImages.Valid, SameName, StoredName, FullPath, FileName;
      hide Reaches, Complete, Blocks, EachOnce, WellNamed, Needs;
      hide Paths, Take, Walk, Fits, IsCString;
      ok := file.Elf32? && file.segmentsLoad && file.dynamicUsable;
      deeper := [];
      NothingBefore([own] + before);
      if ok {
        var neededImages;
        ok, neededImages, deeper := LoadNeeded(own.path, file.needed, u);
        if ok {
          ok := file.relocates;
          if ok {
            CompleteWithOwn(files, librarySearchPath, own.path, deeper, own, neededImages, loaded.images);
          }
        } else {
          BlocksEarlier(files, librarySearchPath, own.path, Paths(before), Paths([own] + before));
        }
      }
      if !file.Good() {
        BlocksItself(files, librarySearchPath, own.path, Paths(before));
      }
    }

    /** A library is looked for by its name among the loaded images, and loaded if it is not one of them. */
    method FindOrLoad(lib: string, ghost u: set<string>) returns (importedImage: Image?, ghost deeper: seq<Image>)
      requires loaded.Valid() && WellNamed(files, librarySearchPath, u) && EachOnce(u, loaded.images)
      requires WellNamedLibrary(librarySearchPath, u, lib)
      modifies loaded`images, loaded.head, loaded.images
      ensures loaded.Valid() && loaded.images == deeper + old(loaded.images) && fresh(deeper)
      ensures EachOnce(u, loaded.images)
      ensures importedImage != null ==>
                importedImage in loaded.images && importedImage.path == FullPath(librarySearchPath, lib)
      ensures importedImage != null ==>
                Complete(files, librarySearchPath, FullPath(librarySearchPath, lib), deeper, Paths(loaded.images))
      ensures importedImage == null ==>
                exists q :: Blocks(files, librarySearchPath, FullPath(librarySearchPath, lib),
                    Paths(old(loaded.images)), q)
      decreases |u - Paths(loaded.images)|, 2
    {
      hide LoadedImages.Valid, SameName, StoredName, FullPath, FileName;
      hide Reaches, Complete, Blocks, EachOnce, WellNamed, Needs;
      hide Paths, Take, Walk, Fits;
      NamesAreCStrings(files, librarySearchPath, u, loaded.images);
      FoundByName(files, librarySearchPath, u, loaded.images, lib);
      deeper := [];
      importedImage := loaded.IsImageLoaded(lib);
      NothingBefore(loaded.images);
      var fullPath := FullPath(librarySearchPath, lib);
      NothingMissing(files, librarySearchPath, fullPath, Paths(loaded.images));
      if importedImage == null {
        NotInPaths(loaded.images, fullPath);
        importedImage, deeper := LoadFile(fullPath, u);
      }
    }

    /** The loop over the libraries an image needs: each is found, or loaded. */
    method LoadNeeded(ghost path: string, needed: seq<string>, ghost u: set<string>)
      returns (ok: bool, neededImages: seq<Image>, ghost added: seq<Image>)
      requires loaded.Valid() && WellNamed(files, librarySearchPath, u) && EachOnce(u, loaded.images)
      requires path in u && files(path).Elf32? && files(path).needed == needed
      modifies loaded`images, loaded.head, loaded.images
      ensures loaded.Valid() && loaded.images == added + old(loaded.images) && fresh(added)
      ensures EachOnce(u, loaded.images)
      ensures ok ==> Complete(files, librarySearchPath, path, added, Paths(loaded.images))
      ensures ok ==> |neededImages| == |needed| && forall j :: 0 <= j < |needed| ==>
                       neededImages[j] in loaded.images &&
                           neededImages[j].path == FullPath(librarySearchPath, needed[j])
      ensures ok && needed != [] ==> librarySearchPath != ""
      ensures ok && needed != [] && librarySearchPath[|librarySearchPath| - 1] == '/' ==>
                forall j :: 0 <= j < |needed| ==> neededImages[j].path == librarySearchPath + needed[j]
      ensures ok && needed != [] && librarySearchPath[|librarySearchPath| - 1] != '/' ==>
                forall j :: 0 <= j < |needed| ==> neededImages[j].path == librarySearchPath + "/" + needed[j]
      ensures !ok ==> exists q :: Blocks(files, librarySearchPath, path, Paths(old(loaded.images)), q)
      decreases |u - Paths(loaded.images)|, 3
    {
      hide LoadedImages.Valid, SameName, StoredName, FullPath, FileName, Reaches;
      hide Fits, Complete, Blocks, EachOnce, Paths, WellNamed, WellNamedLibrary;
      hide Needs, Take, Walk, File.Good;
      ghost var before := loaded.images;
      neededImages, added, ok := [], [], true;
      NothingBefore(before);
      NothingMissing(files, librarySearchPath, path, Paths(before));
      var j := 0;
      while j < |needed|
        invariant loaded.Valid() && loaded.images == added + before && fresh(added)
        invariant EachOnce(u, loaded.images)
        invariant 0 <= j <= |needed| && |neededImages| == j
        invariant Complete(files, librarySearchPath, path, added, Paths(loaded.images))
        invariant forall i :: 0 <= i < j ==>
                    neededImages[i] in loaded.images && neededImages[i].path == FullPath(librarySearchPath, needed[i])
      {
        var lib := needed[j];
        LibraryOf(files, librarySearchPath, u, path, j);
        PathsConcat(added, before);
        FewerLeft(u, Paths(before), Paths(loaded.images));
        ghost var fullPath := FullPath(librarySearchPath, lib);
        ghost var between, sofar, deeper := loaded.images, added, [];
        var importedImage;
        importedImage, deeper := FindOrLoad(lib, u);
        Regroup(deeper, sofar, before);
        added := deeper + sofar;
        if importedImage == null {
          BlocksFromFurther(files, librarySearchPath, path, fullPath, Paths(before), Paths(between));
          return false, neededImages, added;
        }
        PathsConcat(deeper, between);
        CompleteFromFurther(files, librarySearchPath, path, fullPath, deeper, sofar, Paths(between),
            Paths(loaded.images));
        neededImages := neededImages + [importedImage];
        j := j + 1;
      }
      PathsInUse(files, librarySearchPath, u, path, neededImages);
    }

    /**
       What the loader does for the kernel: its file is the first to be loaded. It succeeds
       just when nothing is wrong with any file the kernel reaches; then each of them is
       loaded, once, and nothing else, and the kernel is the image found as the executable.
     */
    method LoadKernel(path: string, ghost u: set<string>) returns (image: Image?, executable: Image?)
      requires loaded.Valid() && loaded.images == [] && WellNamed(files, librarySearchPath, u) && path in u
      modifies loaded`images, loaded.head, loaded.images
      ensures loaded.Valid() && EachOnce(u, loaded.images)
      ensures image != null <==>
                forall q :: Reaches(files, librarySearchPath, path, q) ==>
                  files(q).Elf32? && files(q).segmentsLoad && files(q).dynamicUsable && files(q).relocates
      ensures image != null ==> forall q :: q in Paths(loaded.images) <==> Reaches(files, librarySearchPath, path, q)
      ensures image != null && librarySearchPath != "" && librarySearchPath[|librarySearchPath| - 1] == '/' ==>
                forall p, j :: p in Paths(loaded.images) && 0 <= j < |files(p).needed| ==>
                  librarySearchPath + files(p).needed[j] in Paths(loaded.images)
      ensures image != null && librarySearchPath != "" && librarySearchPath[|librarySearchPath| - 1] != '/' ==>
                forall p, j :: p in Paths(loaded.images) && 0 <= j < |files(p).needed| ==>
                  librarySearchPath + "/" + files(p).needed[j] in Paths(loaded.images)
      ensures image != null ==> executable == image && image.path == path
    {
      hide LoadedImages.Valid, WellNamed, Reaches;
      ghost var added;
      image, added := LoadFile(path, u);
      assert loaded.images == added;
      if image != null {
        InPaths(added, |added| - 1);
        ReachableExactly(files, librarySearchPath, path, added, {});
        assert Paths(added) + {} == Paths(added);
        AllThere(files, librarySearchPath, u, added);
      }
      executable := loaded.GetExecutable();
    }
  }

  /** Everything loaded needs only what is loaded. */
  ghost predicate Closed(files: Files, search: string, s: set<string>) {
    forall p, q :: p in s && Needs(files, search, p, q) ==> q in s
  }

  /**
     Onto a closed list exactly those files are added that are reached and were not
     loaded; the list is closed again.
   */
  lemma ReachableExactly(files: Files, search: string, from: string, added: seq<Image>, before: set<string>)
    requires Complete(files, search, from, added, Paths(added) + before) && Closed(files, search, before)
    requires from in Paths(added) && Paths(added) !! before
    ensures Closed(files, search, Paths(added) + before)
    ensures forall q :: q in Paths(added) <==> Reaches(files, search, from, q) && q !in before
    ensures forall q :: Reaches(files, search, from, q) && q !in before ==> files(q).Good()
  {
    hide Needs, File.Good;
    var s := Paths(added) + before;
    forall q | Reaches(files, search, from, q) ensures q in s {
      var w :| Walk(files, search, w) && w[0] == from && w[|w| - 1] == q;
      WalkStaysInside(files, search, s, w);
    }
  }
}
