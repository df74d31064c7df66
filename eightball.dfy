/** The Magic 8-Ball project's two pieces of logic: listing the answer
    images, and choosing which one to show. Paths on the board are plain
    strings; the board's directories are a map from a directory path, as
    passed to `os.listdir`, to its entries in enumeration order. */
module Eightball {
  import opened Wrappers
  import opened Text
  import opened Sequences
  import opened Arith

  const ImagesDir: string := "/answers"
  /** The suffix the main block filters on: no dot in front of it. */
  const ImageExtension: string := "bmp"

  type Listings = map<string, seq<string>>

  datatype Failure =
    | NoSuchDirectory(path: string)   // OSError from os.listdir
    | ZeroDivision                    // i % len(images) on an empty list
    | EmptyRange                      // random.randint(0, -1)

  /** The directory with exactly one trailing `/`, added only when missing. */
  function DirPrefix(directory: string): (d: string)
    ensures EndsWith(d, "/")
    ensures EndsWith(directory, "/") <==> d == directory
    ensures !EndsWith(directory, "/") ==> d == directory + "/"
  {
    if EndsWith(directory, "/") then directory else directory + "/"
  }

  /** Python's truth value of the `file_extension` argument. */
  predicate Truthy(ext: Option<string>) {
    ext.Some? && ext.value != ""
  }

  /** Whether `list_directory` keeps the path `filepath`. */
  predicate Keeps(ext: Option<string>, filepath: string) {
    !Truthy(ext) || EndsWith(filepath, ext.value)
  }

  /** The paths `list_directory` returns for the entries `names` of `d`. */
  function Listed(d: string, ext: Option<string>, names: seq<string>): seq<string> {
    if names == [] then []
    else
      var filepath := d + names[|names| - 1];
      Listed(d, ext, names[..|names| - 1]) + (if Keeps(ext, filepath) then [filepath] else [])
  }

  /** `list_directory(directory, file_extension)` */
  method ListDirectory(listings: Listings, directory: string, fileExtension: Option<string>)
    returns (r: Result<seq<string>, Failure>)
    ensures var d := DirPrefix(directory);
            (r.Ok? <==> d in listings)
            && (r.Ok? ==> r.value == Listed(d, fileExtension, listings[d]))
            && (r.Err? ==> r.error == NoSuchDirectory(d))
  {
    var d := if EndsWith(directory, "/") then directory else directory + "/";
    if d !in listings {
      return Err(NoSuchDirectory(d));
    }
    var filelist := CollectPaths(d, fileExtension, listings[d]);
    return Ok(filelist);
  }

  /** The loop of `list_directory` over the entries of `d`. */
  method CollectPaths(d: string, fileExtension: Option<string>, names: seq<string>) returns (filelist: seq<string>)
    ensures filelist == Listed(d, fileExtension, names)
  {
    filelist := [];
    for k := 0 to |names|
      invariant filelist == Listed(d, fileExtension, names[..k])
    {
      var filepath := d + names[k];
      TakeOneMore(names, k);
      if Truthy(fileExtension) {
        if EndsWith(filepath, fileExtension.value) {
          filelist := filelist + [filepath];
        }
      } else {
        filelist := filelist + [filepath];
      }
    }
    TakeAll(names);
  }

  /** Listing order is kept: the listing of two runs of entries is the
      listing of the first followed by that of the second. */
  lemma {:induction false} ListedAppend(d: string, ext: Option<string>, a: seq<string>, b: seq<string>)
    ensures Listed(d, ext, a + b) == Listed(d, ext, a) + Listed(d, ext, b)
    decreases |b|
  {
    if b == [] {
      AppendEmpty(a);
      AppendEmpty(Listed(d, ext, a));
    } else {
      var init := b[..|b| - 1];
      InitOfAppend(a, b);
      ListedAppend(d, ext, a, init);
      var filepath := d + b[|b| - 1];
      AppendAssoc(Listed(d, ext, a), Listed(d, ext, init), if Keeps(ext, filepath) then [filepath] else []);
    }
  }

  /** A path is listed exactly when it is the prefix followed by some entry
      and, with a truthy extension, the whole path ends with it. */
  lemma {:induction false} ListedMembers(d: string, ext: Option<string>, names: seq<string>, p: string)
    ensures p in Listed(d, ext, names) <==>
            exists k :: 0 <= k < |names| && p == d + names[k] && Keeps(ext, p)
  {
    if names != [] {
      var init := names[..|names| - 1];
      ListedMembers(d, ext, init, p);
      if exists k :: 0 <= k < |init| && p == d + init[k] && Keeps(ext, p) {
        var k :| 0 <= k < |init| && p == d + init[k] && Keeps(ext, p);
        assert names[k] == init[k];
      }
      if exists k :: 0 <= k < |names| && p == d + names[k] && Keeps(ext, p) {
        var k :| 0 <= k < |names| && p == d + names[k] && Keeps(ext, p);
        if k < |init| {
          assert init[k] == names[k];
        }
      }
    }
  }

  /** Without an extension every entry is listed, in order, so the result
      is as long as the listing. */
  lemma {:induction false} ListedWithoutExtension(d: string, ext: Option<string>, names: seq<string>)
    requires !Truthy(ext)
    ensures var r := Listed(d, ext, names);
            |r| == |names| && forall k :: 0 <= k < |names| ==> r[k] == d + names[k]
  {
    if names != [] {
      ListedWithoutExtension(d, ext, names[..|names| - 1]);
    }
  }

  /** The suffix test is on the whole path and `'bmp'` has no dot: an
      entry called `notbmp` is listed as an image. */
  lemma BmpWithoutDot()
    ensures Listed(DirPrefix(ImagesDir), Some(ImageExtension), ["notbmp", "a.txt"]) == ["/answers/notbmp"]
  {
    var d := DirPrefix(ImagesDir);
    assert d == "/answers/";
    var names := ["notbmp", "a.txt"];
    assert names[..1] == ["notbmp"];
    assert names[..1][..0] == [];
    var p := d + "a.txt";
    assert p[|p| - 3..] == "txt";
    assert !EndsWith(p, ImageExtension);
    var q := d + "notbmp";
    assert q[|q| - 3..] == "bmp";
    assert Keeps(Some(ImageExtension), q);
    assert Listed(d, Some(ImageExtension), names[..1]) == [q];
    assert !Keeps(Some(ImageExtension), p);
    assert names[|names| - 1] == "a.txt" && names[..|names| - 1] == names[..1];
    assert Listed(d, Some(ImageExtension), names) == [q];
    assert q == "/answers/notbmp";
  }

  /** The index `change_image(splash, images, i)` shows, out of `count`
      images; `draw` is what `random.randint(0, count - 1)` returns. */
  function ChooseImage(count: nat, i: Option<int>, draw: int): (r: Result<nat, Failure>)
    requires i.None? && count > 0 ==> 0 <= draw < count
    ensures count == 0 ==> r == Err(if i.Some? then ZeroDivision else EmptyRange)
    ensures count > 0 ==> r.Ok? && r.value < count
    ensures r.Ok? && i.Some? ==> (i.value - r.value) % count == 0
    ensures r.Ok? && i.None? ==> r.value == draw
  {
    if i.None? then
      if count == 0 then Err(EmptyRange) else Ok(draw)
    else if count == 0 then Err(ZeroDivision)
    else
      var k := i.value % count;
      ModDifference(i.value, count);
      Ok(k)
  }

  /** An explicit index is taken modulo the count, so a negative one
      counts from the end, and one already in range is kept. */
  lemma ExplicitIndexWraps(count: nat, i: int)
    requires count > 0
    ensures 0 <= i < count ==> ChooseImage(count, Some(i), 0) == Ok(i)
    ensures i < 0 <= i + count ==> ChooseImage(count, Some(i), 0) == Ok(i + count)
  {
    if 0 <= i < count {
      ModUnique(i, count, 0, i);
    } else if i < 0 <= i + count {
      ModUnique(i, count, -1, i + count);
    }
  }
}
