/** The zip side of riddle.py: `filter_zip_files` drops candidates already stored in the
    archive, `compress_folder` appends a folder's files to it. An archive is the sequence of
    its member names, and a missing archive file is `None`. */
module Archive {
  import opened Wrappers
  import opened Seqs
  import opened Segments

  /** The test of the comprehension in `filter_zip_files`. */
  function NotArchived(members: seq<string>): (test: string -> bool)
    ensures forall img :: test(img) <==> Basename(img) !in members
    ensures forall img :: test(img) <==> forall m :: m in members ==> !IsLastSegment(m, img, '/')
  {
    img => (LastSegmentUnique(img, '/'); Basename(img) !in members)
  }

  /** `filter_zip_files(images, zip_fname)`. */
  function FilterZipFiles(images: seq<string>, archive: Option<seq<string>>): (r: seq<string>)
    ensures archive.None? ==> r == images
    ensures archive.Some? ==> forall img :: img in r <==> img in images && Basename(img) !in archive.value
    ensures |r| <= |images|
  {
    match archive
    case None => images
    case Some(members) => Filter(images, NotArchived(members))
  }

  /** The surviving candidates keep their order: filtering a concatenation is concatenating
      the filtered parts. */
  lemma FilterZipFilesAppend(a: seq<string>, b: seq<string>, archive: Option<seq<string>>)
    ensures FilterZipFiles(a + b, archive) == FilterZipFiles(a, archive) + FilterZipFiles(b, archive)
  {
    if archive.Some? {
      FilterAppend(a, b, NotArchived(archive.value));
    }
  }

  /** Filtering against the same archive twice removes nothing more. */
  lemma FilterZipFilesIdempotent(images: seq<string>, archive: Option<seq<string>>)
    ensures FilterZipFiles(FilterZipFiles(images, archive), archive) == FilterZipFiles(images, archive)
  {
    if archive.Some? {
      FilterIdempotent(images, NotArchived(archive.value));
    }
  }

  /** An archive holding `a.png` removes the candidate stored under that name only. */
  lemma FilterZipFilesExample()
    ensures FilterZipFiles(["http://x/a.png", "http://x/b.png"], Some(["a.png"])) == ["http://x/b.png"]
  {
    var test := NotArchived(["a.png"]);
    assert Basename("http://x/a.png") == "a.png";
    assert Basename("http://x/b.png") == "b.png";
    assert !test("http://x/a.png") && test("http://x/b.png");
    assert ["http://x/a.png", "http://x/b.png"][..1] == ["http://x/a.png"];
    assert Filter(["http://x/a.png"], test) == [];
  }

  datatype Mode = Write | Append

  /** `compress_folder(folder, zip_fname, compression)`: the archive is opened in mode `'a'`
      when it exists and `'w'` otherwise, and every file of the folder, in listing order, is
      added as a member named by its file name. */
  method CompressFolder(folderFiles: seq<string>, archive: Option<seq<string>>)
    returns (mode: Mode, members: seq<string>)
    ensures mode == Append <==> archive.Some?
    ensures members == (if archive.Some? then archive.value else []) + folderFiles
  {
    mode := Write;
    if archive.Some? {
      mode := Append;
    }
    members := if mode == Append then archive.value else [];
    var i := 0;
    while i < |folderFiles|
      invariant 0 <= i <= |folderFiles|
      invariant members == (if archive.Some? then archive.value else []) + folderFiles[..i]
    {
      members := members + [folderFiles[i]];
      i := i + 1;
    }
    assert folderFiles[..i] == folderFiles;
  }

  /** Archiving files named after candidates that survived `filter_zip_files` adds no member
      name twice, provided the archive had no duplicates before. */
  lemma NoDuplicateMembers(images: seq<string>, members: seq<string>, cacheFiles: seq<string>)
    requires NoDuplicates(members) && NoDuplicates(cacheFiles)
    requires forall f :: f in cacheFiles ==>
      exists img :: img in FilterZipFiles(images, Some(members)) && f == Basename(img)
    ensures NoDuplicates(members + cacheFiles)
  {
    NoDuplicatesAppend(members, cacheFiles);
  }
}
