/** `download_images` of riddle.py: every candidate is either found already on disk or
    downloaded, one progress tick per candidate. The file system is the set of paths of
    existing files, and `fetchOf` says what the network and the image decoder answer for
    each URL. */
module Batch {
  import opened Segments
  import opened Download
  import opened Progress

  /** `os.path.join(dl_dir, url.split('/')[-1])`. */
  function Destination(dir: string, url: string): string
  {
    JoinPath(dir, Basename(url))
  }

  /** The destination starts with the folder and ends with the URL's file name. Stated as a
      lemma rather than on `Destination` itself, so that the batch proofs, which mention many
      destinations, do not carry these sequence facts for each of them. */
  lemma DestinationShape(dir: string, url: string)
    ensures var path := Destination(dir, url);
      |path| >= |dir| && path[..|dir|] == dir &&
      |path| >= |Basename(url)| && path[|path| - |Basename(url)|..] == Basename(url)
  {
  }

  /** Every URL's destination in the folder `dir`. */
  function Destinations(dir: string): string -> string
  {
    url => Destination(dir, url)
  }

  /** What `download_file` gives for every URL, given the network and decoder answers. */
  function Outcomes(fetchOf: string -> Fetch, s: Settings): string -> Outcome
  {
    url => DownloadOutcome(fetchOf(url), s)
  }

  /** The counters `realcount` and `preexist`, and the files existing so far. */
  datatype Counters = Counters(realcount: nat, preexist: nat, files: set<string>)

  /** One iteration of the loop for a URL whose destination is `dest` and for which
      `download_file` would give `o`: skip an existing destination, otherwise download. */
  function Step(c: Counters, dest: string, o: Outcome): (c': Counters)
    ensures c.files <= c'.files
    ensures c'.realcount + c'.preexist == c.realcount + c.preexist + (if dest !in c.files && !o.success then 0 else 1)
    ensures dest !in c'.files <==> dest !in c.files && !o.kept
  {
    if dest in c.files then c.(preexist := c.preexist + 1)
    else
      Counters(c.realcount + (if o.success then 1 else 0), c.preexist,
               if o.kept then c.files + {dest} else c.files - {dest})
  }

  /** The state after processing `images` in order, starting from the files `files`. The
      destinations and the download outcomes are given per URL. */
  function BatchRun(images: seq<string>, files: set<string>, destOf: string -> string, outcomeOf: string -> Outcome): (c: Counters)
    ensures c.realcount + c.preexist <= |images|
    ensures files <= c.files
  {
    if images == [] then Counters(0, 0, files)
    else
      var last := images[|images| - 1];
      Step(BatchRun(images[..|images| - 1], files, destOf, outcomeOf), destOf(last), outcomeOf(last))
  }

  /** One more candidate is one more `Step`. */
  lemma BatchRunNext(images: seq<string>, i: nat, files: set<string>, destOf: string -> string, outcomeOf: string -> Outcome)
    requires i < |images|
    ensures BatchRun(images[..i + 1], files, destOf, outcomeOf) ==
      Step(BatchRun(images[..i], files, destOf, outcomeOf), destOf(images[i]), outcomeOf(images[i]))
  {
    assert images[..i + 1][..i] == images[..i];
  }

  /** A run creates files only at the destinations of its candidates. */
  lemma {:induction false} NewFilesAreDestinations(images: seq<string>, files: set<string>, destOf: string -> string, outcomeOf: string -> Outcome)
    ensures forall f :: f in BatchRun(images, files, destOf, outcomeOf).files && f !in files ==>
      exists img :: img in images && f == destOf(img)
  {
    if images != [] {
      var init, last := images[..|images| - 1], images[|images| - 1];
      NewFilesAreDestinations(init, files, destOf, outcomeOf);
      assert BatchRun(images, files, destOf, outcomeOf).files <= BatchRun(init, files, destOf, outcomeOf).files + {destOf(last)};
      assert forall img :: img in init ==> img in images;
      assert last in images;
    }
  }

  /** The body of the loop of `download_images` for one URL, before the progress tick. */
  method VisitImage(img: string, dir: string, fetchOf: string -> Fetch, s: Settings,
                    realcount: nat, preexist: nat, files: set<string>)
    returns (realcount': nat, preexist': nat, files': set<string>)
    ensures Counters(realcount', preexist', files') ==
      Step(Counters(realcount, preexist, files), Destination(dir, img), DownloadOutcome(fetchOf(img), s))
  {
    realcount', preexist', files' := realcount, preexist, files;
    var success := false;
    var name := Destination(dir, img);
    ghost var o := DownloadOutcome(fetchOf(img), s);
    if name !in files {
      success, files' := DownloadFile(name, fetchOf(img), s, files);
      DownloadStep(Counters(realcount, preexist, files), name, o, success, files');
    } else {
      preexist' := preexist + 1;
    }
    if success {
      realcount' := realcount + 1;
    }
  }

  /** A download whose result and remaining file are those of `o` is the `Step` for `o`. */
  lemma DownloadStep(c: Counters, dest: string, o: Outcome, success: bool, files': set<string>)
    requires dest !in c.files
    requires success == o.success && files' == if o.kept then c.files + {dest} else c.files - {dest}
    ensures Step(c, dest, o) == Counters(c.realcount + (if success then 1 else 0), c.preexist, files')
  {
  }

  /** `download_images(images, dl_dir)`: returns the final counters, the files existing
      afterwards and the progress bar it drove. */
  method DownloadImages(images: seq<string>, dir: string, files: set<string>, fetchOf: string -> Fetch, s: Settings)
    returns (realcount: nat, preexist: nat, filesAfter: set<string>, pb: ProgressBar)
    ensures Counters(realcount, preexist, filesAfter) == BatchRun(images, files, Destinations(dir), Outcomes(fetchOf, s))
    ensures fresh(pb) && pb.total == |images| && pb.progress == |images|
  {
    realcount, preexist := 0, 0;
    pb := new ProgressBar(total := |images|, prefix := "[~] Downloading", suffix := "Complete");
    filesAfter := files;
    var i := 0;
    while i < |images|
      invariant 0 <= i <= |images|
      invariant Counters(realcount, preexist, filesAfter) == BatchRun(images[..i], files, Destinations(dir), Outcomes(fetchOf, s))
      invariant fresh(pb) && pb.total == |images| && pb.progress == i
    {
      BatchRunNext(images, i, files, Destinations(dir), Outcomes(fetchOf, s));
      realcount, preexist, filesAfter := VisitImage(images[i], dir, fetchOf, s, realcount, preexist, filesAfter);
      var _ := pb.Tick();
      i := i + 1;
    }
    assert images[..i] == images;
  }

  /** Two candidates share a destination exactly when their URLs end in the same file name. */
  lemma DestinationCollision(dir: string, a: string, b: string)
    ensures Destination(dir, a) == Destination(dir, b) <==> Basename(a) == Basename(b)
  {
    JoinPathInjective(dir, Basename(a), Basename(b));
  }

  /** When every destination already exists nothing is downloaded: all candidates are
      counted as pre-existing and the files are unchanged. */
  lemma {:induction false} AllPresent(images: seq<string>, files: set<string>, destOf: string -> string, outcomeOf: string -> Outcome)
    requires forall img :: img in images ==> destOf(img) in files
    ensures BatchRun(images, files, destOf, outcomeOf) == Counters(0, |images|, files)
  {
    if images != [] {
      var init := images[..|images| - 1];
      assert forall img :: img in init ==> img in images;
      AllPresent(init, files, destOf, outcomeOf);
    }
  }

  /** A candidate whose destination is missing after a run was attempted, and the download
      left no file for it. */
  lemma {:induction false} MissingMeansFailed(images: seq<string>, files: set<string>, destOf: string -> string, outcomeOf: string -> Outcome)
    ensures forall img :: img in images && destOf(img) !in BatchRun(images, files, destOf, outcomeOf).files ==>
      destOf(img) !in files && !outcomeOf(img).kept
  {
    if images != [] {
      var init, last := images[..|images| - 1], images[|images| - 1];
      var prev := BatchRun(init, files, destOf, outcomeOf);
      assert BatchRun(images, files, destOf, outcomeOf) == Step(prev, destOf(last), outcomeOf(last));
      MissingMeansFailed(init, files, destOf, outcomeOf);
      assert images == init + [last];
      forall img | img in images && destOf(img) !in BatchRun(images, files, destOf, outcomeOf).files
        ensures destOf(img) !in files && !outcomeOf(img).kept
      {
        if img != last {
          assert img in init;
        }
      }
    }
  }

  /** Starting from at least the files `known`, a run downloads nothing new when every
      candidate missing from `known` fails. */
  lemma {:induction false} NothingNewSucceeds(images: seq<string>, known: set<string>, files: set<string>, destOf: string -> string, outcomeOf: string -> Outcome)
    requires known <= files
    requires forall img :: img in images && destOf(img) !in known ==> !outcomeOf(img).success
    ensures BatchRun(images, files, destOf, outcomeOf).realcount == 0
  {
    if images != [] {
      var init := images[..|images| - 1];
      assert forall img :: img in init ==> img in images;
      NothingNewSucceeds(init, known, files, destOf, outcomeOf);
    }
  }

  /** Re-running a batch on the files the first run left behind, with the network and the
      decoder answering the same, downloads nothing more. */
  lemma Rerun(images: seq<string>, dir: string, files: set<string>, fetchOf: string -> Fetch, s: Settings)
    ensures var first := BatchRun(images, files, Destinations(dir), Outcomes(fetchOf, s));
      BatchRun(images, first.files, Destinations(dir), Outcomes(fetchOf, s)).realcount == 0
  {
    var destOf, outcomeOf := Destinations(dir), Outcomes(fetchOf, s);
    var first := BatchRun(images, files, destOf, outcomeOf);
    MissingMeansFailed(images, files, destOf, outcomeOf);
    forall img | img in images && destOf(img) !in first.files
      ensures !outcomeOf(img).success
    {
      assert !DownloadOutcome(fetchOf(img), s).kept;
    }
    NothingNewSucceeds(images, first.files, first.files, destOf, outcomeOf);
  }
}
