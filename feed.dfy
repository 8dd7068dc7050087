/** `get_images` of riddle.py: which submissions of a feed become image candidates. The
    feed itself is an input: the submissions it yielded, in feed order. */
module Feed {
  import opened Seqs
  import opened Segments

  datatype Submission = Submission(url: string, over18: bool)

  const DefaultImgExt: seq<string> := ["jpg", "jpeg", "png"]

  /** A submission is collected unless it is marked over-18 and nsfw content is not wanted. */
  predicate Admissible(sub: Submission, nsfw: bool)
    ensures nsfw ==> Admissible(sub, nsfw)
    ensures !nsfw ==> (Admissible(sub, nsfw) <==> !sub.over18)
  {
    !sub.over18 || nsfw
  }

  /** The text after the last `.` of the whole URL is one of the allowed extensions,
      compared case-sensitively. */
  predicate IsImageUrl(url: string, imgExt: seq<string>)
    ensures IsImageUrl(url, imgExt) <==> exists ext :: ext in imgExt && IsLastSegment(ext, url, '.')
  {
    LastSegmentUnique(url, '.');
    Extension(url) in imgExt
  }

  /** The test of the comprehension in `get_images`. */
  function ImageTest(imgExt: seq<string>): (test: string -> bool)
    ensures forall url :: test(url) == IsImageUrl(url, imgExt)
    ensures forall url :: test(url) <==> exists ext :: ext in imgExt && IsLastSegment(ext, url, '.')
  {
    url => IsImageUrl(url, imgExt)
  }

  /** The URLs the collecting loop appends: those of admissible submissions, in feed order. */
  function AdmittedUrls(subs: seq<Submission>, nsfw: bool): (urls: seq<string>)
    ensures |urls| <= |subs|
  {
    if subs == [] then []
    else
      var last := subs[|subs| - 1];
      AdmittedUrls(subs[..|subs| - 1], nsfw) + (if Admissible(last, nsfw) then [last.url] else [])
  }

  /** The candidates in one pass: the URLs of admissible submissions whose extension is
      allowed, in feed order. */
  function Wanted(subs: seq<Submission>, nsfw: bool, imgExt: seq<string>): (r: seq<string>)
    ensures |r| <= |subs|
  {
    if subs == [] then []
    else
      var last := subs[|subs| - 1];
      Wanted(subs[..|subs| - 1], nsfw, imgExt) + (if Admissible(last, nsfw) && IsImageUrl(last.url, imgExt) then [last.url] else [])
  }

  /** Submission `sub` is admissible and carries the image URL `u`. */
  predicate Carries(sub: Submission, u: string, nsfw: bool, imgExt: seq<string>)
  {
    sub.url == u && Admissible(sub, nsfw) && IsImageUrl(u, imgExt)
  }

  /** A URL is a candidate exactly when some admissible submission carries it and its
      extension is allowed. */
  lemma {:induction false} WantedMembers(subs: seq<Submission>, nsfw: bool, imgExt: seq<string>, u: string)
    ensures u in Wanted(subs, nsfw, imgExt) <==> exists sub :: sub in subs && Carries(sub, u, nsfw, imgExt)
  {
    FilterAdmitted(subs, nsfw, imgExt);
    AdmittedMembers(subs, nsfw, u);
    assert u in Wanted(subs, nsfw, imgExt) <==> u in AdmittedUrls(subs, nsfw) && IsImageUrl(u, imgExt);
  }

  /** The collecting loop keeps exactly the URLs of admissible submissions. */
  lemma {:induction false} AdmittedMembers(subs: seq<Submission>, nsfw: bool, u: string)
    ensures u in AdmittedUrls(subs, nsfw) <==> exists sub :: sub in subs && Admissible(sub, nsfw) && sub.url == u
  {
    if subs != [] {
      var init, last := subs[..|subs| - 1], subs[|subs| - 1];
      assert subs == init + [last];
      AdmittedMembers(init, nsfw, u);
    }
  }

  /** Candidates keep feed order: those of a longer feed are those of its first part followed
      by those of the rest. */
  lemma {:induction false} WantedAppend(a: seq<Submission>, b: seq<Submission>, nsfw: bool, imgExt: seq<string>)
    ensures Wanted(a + b, nsfw, imgExt) == Wanted(a, nsfw, imgExt) + Wanted(b, nsfw, imgExt)
  {
    if b == [] {
      assert a + b == a;
    } else {
      var b' := b[..|b| - 1];
      assert (a + b)[..|a + b| - 1] == a + b';
      WantedAppend(a, b', nsfw, imgExt);
    }
  }

  /** Collecting first and filtering by extension afterwards, as `get_images` does, gives the
      one-pass candidates. */
  lemma {:induction false} FilterAdmitted(subs: seq<Submission>, nsfw: bool, imgExt: seq<string>)
    ensures Filter(AdmittedUrls(subs, nsfw), ImageTest(imgExt)) == Wanted(subs, nsfw, imgExt)
  {
    if subs != [] {
      var init, last := subs[..|subs| - 1], subs[|subs| - 1];
      FilterAdmitted(init, nsfw, imgExt);
      var tail := if Admissible(last, nsfw) then [last.url] else [];
      FilterAppend(AdmittedUrls(init, nsfw), tail, ImageTest(imgExt));
      if Admissible(last, nsfw) {
        assert tail[..0] == [];
      }
    }
  }

  /** `get_images(client, subreddit, limit, nsfw)` over the submissions the feed yielded. */
  method GetImages(subs: seq<Submission>, nsfw: bool, imgExt: seq<string>) returns (images: seq<string>)
    ensures images == Wanted(subs, nsfw, imgExt)
  {
    var urls: seq<string> := [];
    var i := 0;
    while i < |subs|
      invariant 0 <= i <= |subs|
      invariant urls == AdmittedUrls(subs[..i], nsfw)
    {
      assert subs[..i + 1][..i] == subs[..i];
      if !subs[i].over18 || nsfw {
        urls := urls + [subs[i].url];
      }
      i := i + 1;
    }
    assert subs[..i] == subs;
    images := Filter(urls, ImageTest(imgExt));
    FilterAdmitted(subs, nsfw, imgExt);
  }

  /** Extensions are compared case-sensitively: `.jpg` is an image by default, `.JPG` is not,
      and a query string after the extension is part of it. */
  lemma ExtensionExamples()
    ensures IsImageUrl("http://x/pic.jpg", DefaultImgExt)
    ensures !IsImageUrl("http://x/pic.JPG", DefaultImgExt)
    ensures !IsImageUrl("http://x/pic.jpg?q", DefaultImgExt)
  {
    LastSegmentUnique("http://x/pic.jpg", '.');
    LastSegmentUnique("http://x/pic.JPG", '.');
    LastSegmentUnique("http://x/pic.jpg?q", '.');
    assert IsLastSegment("jpg", "http://x/pic.jpg", '.');
    assert IsLastSegment("JPG", "http://x/pic.JPG", '.');
    assert IsLastSegment("jpg?q", "http://x/pic.jpg?q", '.');
  }
}
