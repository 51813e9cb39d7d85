/**
 * The picture pass of `ZhihuQuestion.get_images` (main.py:187-231): the URLs
 * of the full-size pictures found in each answer's HTML, and, per answer that
 * has any, the downloads to make. Directory creation, the downloads
 * themselves (`get_data`, main.py:234-247) and the pause between answers are
 * I/O and are not modelled; a job below stands for one answer directory with
 * the files to fetch into it.
 */
module Images {
  import opened Common
  import opened Text
  import opened Dedup

  // ----- re.findall(r'<img src=.*?data-original="(.*?)"', content, re.S) (main.py:203) -----

  const ImgOpen: string := "<img src="
  const DataOriginal: string := "data-original=\""
  const Quote: string := "\""

  /** `pat` occurs in `s` at position `i`. */
  ghost predicate OccursAt(s: string, pat: string, i: int)
  {
    0 <= i <= |s| && pat <= s[i..]
  }

  /** `pat` occurs at no position from `from` up to, not including, `to`. */
  ghost predicate Absent(s: string, pat: string, from: int, to: int)
    decreases to - from
  {
    from >= to || (!OccursAt(s, pat, from) && Absent(s, pat, from + 1, to))
  }

  lemma {:induction false} AbsentMeans(s: string, pat: string, from: int, to: int)
    ensures Absent(s, pat, from, to) <==> (forall j :: from <= j < to ==> !OccursAt(s, pat, j))
    decreases if from < to then to - from else 0
  {
    if from < to {
      AbsentMeans(s, pat, from + 1, to);
    }
  }

  /** `s.find(pat, from)`: the first occurrence at or after `from`, or none. */
  function Find(s: string, pat: string, from: nat): (r: Option<nat>)
    requires from <= |s|
    ensures r.Some? ==> from <= r.value && OccursAt(s, pat, r.value) && Absent(s, pat, from, r.value)
    ensures r.None? ==> Absent(s, pat, from, |s| + 1)
    decreases |s| - from
  {
    if from + |pat| > |s| then
      assert Absent(s, pat, from, |s| + 1) by { NoRoom(s, pat, from, |s| + 1); }
      None
    else if pat <= s[from..] then Some(from)
    else Find(s, pat, from + 1)
  }

  /** A pattern does not fit anywhere it would run past the end. */
  lemma {:induction false} NoRoom(s: string, pat: string, from: int, to: int)
    requires from + |pat| > |s|
    ensures Absent(s, pat, from, to)
    decreases if from < to then to - from else 0
  {
    if from < to {
      NoRoom(s, pat, from + 1, to);
    }
  }

  /** Find's result, in words: the first occurrence at or after `from`, and
      none found exactly when there is no occurrence at or after `from`. */
  lemma FindSpec(s: string, pat: string, from: nat)
    requires from <= |s|
    ensures Find(s, pat, from).Some? ==>
              var i := Find(s, pat, from).value;
              from <= i && OccursAt(s, pat, i) && forall j :: from <= j < i ==> !OccursAt(s, pat, j)
    ensures Find(s, pat, from).None? <==> (forall j :: from <= j <= |s| ==> !OccursAt(s, pat, j))
  {
    var r := Find(s, pat, from);
    if r.Some? {
      AbsentMeans(s, pat, from, r.value);
    } else {
      AbsentMeans(s, pat, from, |s| + 1);
    }
  }

  /** An occurrence with none before it is what Find returns. */
  lemma {:induction false} FindFirst(s: string, pat: string, from: nat, i: int)
    requires FirstFrom(s, pat, from, i)
    ensures from <= |s| && Find(s, pat, from) == Some(i)
    decreases i - from
  {
    if from < i {
      FindFirst(s, pat, from + 1, i);
    }
  }

  /** `pat` occurs at `i`, at or after `from`, and nowhere between `from` and `i`. */
  ghost predicate FirstFrom(s: string, pat: string, from: int, i: int)
  {
    from <= i && OccursAt(s, pat, i) && Absent(s, pat, from, i)
  }

  /** The match findall makes when it searches `s` from its start: `<img src=`
      at `p`, its first occurrence; `data-original="` at `q`, the first one
      after it; the closing quote at `e`, the first one after that. */
  ghost predicate MatchAt(s: string, p: int, q: int, e: int)
  {
    FirstFrom(s, ImgOpen, 0, p) && FirstFrom(s, DataOriginal, p + |ImgOpen|, q) &&
    FirstFrom(s, Quote, q + |DataOriginal|, e)
  }

  /** One match of the findall pattern, searched from the start of `s`: the
      first `<img src=`, then the rest of the pattern after it. The result is
      the capture and the position right after the closing quote; when one of
      the three parts is missing there is no match. */
  function NextImage(s: string): (r: Option<(string, nat)>)
    ensures r.Some? ==> 0 < r.value.1 <= |s| && '"' !in r.value.0
  {
    match Find(s, ImgOpen, 0)
    case None => None
    case Some(p) => AfterOpen(s, p + |ImgOpen|)
  }

  /** `.*?data-original="` from `from`: with DOTALL the lazy `.*?` runs to the
      first `data-original="`, and the capture starts after it. */
  function AfterOpen(s: string, from: nat): (r: Option<(string, nat)>)
    requires from <= |s|
    ensures r.Some? ==> 0 < r.value.1 <= |s| && '"' !in r.value.0
  {
    match Find(s, DataOriginal, from)
    case None => None
    case Some(q) => Capture(s, q + |DataOriginal|)
  }

  /** `(.*?)"` from `start`: the lazy capture runs up to the next quote, and the
      scan resumes right after it. */
  function Capture(s: string, start: nat): (r: Option<(string, nat)>)
    requires start <= |s|
    ensures r.Some? ==> 0 < r.value.1 <= |s| && '"' !in r.value.0
  {
    match Find(s, Quote, start)
    case None => None
    case Some(e) =>
      assert '"' !in s[start..e] by {
        AbsentMeans(s, Quote, start, e);
        forall j | start <= j < e ensures s[j] != '"' {
          assert !OccursAt(s, Quote, j);
          assert s[j..][..1] == [s[j]];
        }
      }
      Some((s[start..e], e + 1))
  }

  /** NextImage finds exactly the match MatchAt describes: a match gives its
      capture, the text between `data-original="` and the closing quote, and
      the scan resumes right after that quote; and NextImage finds something
      only when there is such a match. */
  lemma NextImageSpec(s: string)
    ensures forall p, q, e :: MatchAt(s, p, q, e) ==>
              q + |DataOriginal| <= e < |s| && s[e] == '"' &&
              NextImage(s) == Some((s[q + |DataOriginal|..e], e + 1))
    ensures NextImage(s).Some? ==> exists p, q, e :: MatchAt(s, p, q, e)
  {
    forall p, q, e | MatchAt(s, p, q, e)
      ensures q + |DataOriginal| <= e < |s| && s[e] == '"' &&
              NextImage(s) == Some((s[q + |DataOriginal|..e], e + 1))
    {
      NextImageOfMatch(s, p, q, e);
    }
    if NextImage(s).Some? {
      var p := Find(s, ImgOpen, 0).value;
      var q := Find(s, DataOriginal, p + |ImgOpen|).value;
      var e := Find(s, Quote, q + |DataOriginal|).value;
      assert MatchAt(s, p, q, e);
    }
  }

  /** The match MatchAt describes is the one NextImage returns. */
  lemma NextImageOfMatch(s: string, p: int, q: int, e: int)
    requires MatchAt(s, p, q, e)
    ensures q + |DataOriginal| <= e < |s| && s[e] == '"' &&
            NextImage(s) == Some((s[q + |DataOriginal|..e], e + 1))
  {
    assert 0 <= p && q + |DataOriginal| <= e <= |s| by {
      assert FirstFrom(s, ImgOpen, 0, p) && FirstFrom(s, Quote, q + |DataOriginal|, e);
    }
    CaptureIs(s, q + |DataOriginal|, e);
    AfterOpenIs(s, p + |ImgOpen|, q);
    NextImageIs(s, p);
  }

  /** NextImage once the first `<img src=` is at `p`. */
  lemma NextImageIs(s: string, p: int)
    requires FirstFrom(s, ImgOpen, 0, p)
    ensures p + |ImgOpen| <= |s| && NextImage(s) == AfterOpen(s, p + |ImgOpen|)
  {
    FindFirst(s, ImgOpen, 0, p);
  }

  /** AfterOpen once the first `data-original="` from `from` is at `q`. */
  lemma AfterOpenIs(s: string, from: nat, q: int)
    requires from <= |s| && FirstFrom(s, DataOriginal, from, q)
    ensures q + |DataOriginal| <= |s| && AfterOpen(s, from) == Capture(s, q + |DataOriginal|)
  {
    FindFirst(s, DataOriginal, from, q);
  }

  /** Capture once the first quote from `start` is at `e`. */
  lemma CaptureIs(s: string, start: nat, e: int)
    requires start <= |s| && FirstFrom(s, Quote, start, e)
    ensures start <= e < |s| && s[e] == '"' && Capture(s, start) == Some((s[start..e], e + 1))
  {
    FindFirst(s, Quote, start, e);
    assert s[e] == '"' by { assert Quote <= s[e..]; }
  }

  /** When the search from the start finds no match, there is none anywhere:
      no `<img src=` is followed by a `data-original="` that is followed by a
      quote. So findall ends there. */
  lemma NextImageNone(s: string)
    requires NextImage(s).None?
    ensures forall i, j, k :: !(OccursAt(s, ImgOpen, i) && i + |ImgOpen| <= j && OccursAt(s, DataOriginal, j) &&
                                j + |DataOriginal| <= k && OccursAt(s, Quote, k))
  {
    forall i, j, k | OccursAt(s, ImgOpen, i) && i + |ImgOpen| <= j && OccursAt(s, DataOriginal, j)
      ensures !(j + |DataOriginal| <= k && OccursAt(s, Quote, k))
    {
      if j + |DataOriginal| <= k && OccursAt(s, Quote, k) {
        ChainFound(s, i, j, k);
      }
    }
  }

  /** Any `<img src=` followed by `data-original="` followed by a quote makes
      the search from the start succeed. */
  lemma ChainFound(s: string, i: int, j: int, k: int)
    requires OccursAt(s, ImgOpen, i) && i + |ImgOpen| <= j && OccursAt(s, DataOriginal, j)
    requires j + |DataOriginal| <= k && OccursAt(s, Quote, k)
    ensures NextImage(s).Some?
  {
    var p := FirstUpTo(s, ImgOpen, 0, i);
    var q := FirstUpTo(s, DataOriginal, p + |ImgOpen|, j);
    var e := FirstUpTo(s, Quote, q + |DataOriginal|, k);
    NextImageOfMatch(s, p, q, e);
  }

  /** An occurrence at `i` means a first occurrence at or after `from`, no later than `i`. */
  lemma {:induction false} FirstUpTo(s: string, pat: string, from: int, i: int) returns (f: int)
    requires from <= i && OccursAt(s, pat, i)
    ensures from <= f <= i && FirstFrom(s, pat, from, f)
    decreases i - from
  {
    if OccursAt(s, pat, from) {
      f := from;
    } else {
      f := FirstUpTo(s, pat, from + 1, i);
    }
  }

  /** The findall scan: match after match, each search resuming after the
      previous match. When a match cannot be completed no later start can
      complete one either, and the scan ends. */
  function ScanImages(s: string): (urls: seq<string>)
    ensures forall k :: 0 <= k < |urls| ==> '"' !in urls[k]
    decreases |s|
  {
    match NextImage(s)
    case None => []
    case Some((u, e)) => [u] + ScanImages(s[e..])
  }

  /** One picture's markup: `<img src=`, then the other attributes (the
      placeholder `src` value, sizes, classes), then `data-original="`, the
      URL and its closing quote. */
  datatype Img = Img(attrs: string, url: string)

  function ImageTag(img: Img): string
  {
    ImgOpen + img.attrs + DataOriginal + img.url + Quote
  }

  /** The tag reads as intended: the URL holds no quote, and no
      `data-original="` starts inside the other attributes. */
  ghost predicate Scannable(img: Img)
  {
    '"' !in img.url &&
    forall j :: 0 <= j < |img.attrs| ==> !OccursAt(img.attrs + DataOriginal, DataOriginal, j)
  }

  /** Answer HTML made of the tags of `imgs`, one after another. */
  function Render(imgs: seq<Img>): string
  {
    if imgs == [] then [] else ImageTag(imgs[0]) + Render(imgs[1..])
  }

  /** The URLs of `imgs`, in order. */
  function Urls(imgs: seq<Img>): seq<string>
  {
    if imgs == [] then [] else [imgs[0].url] + Urls(imgs[1..])
  }

  /** One tag in front of more text is scanned as its URL, then that text. */
  lemma ScanTag(img: Img, rest: string)
    requires Scannable(img)
    ensures ScanImages(ImageTag(img) + rest) == [img.url] + ScanImages(rest)
  {
    var s := ImageTag(img) + rest;
    var q := |ImgOpen| + |img.attrs|;
    var e := q + |DataOriginal| + |img.url|;
    TagParts(img, rest);
    MatchOfParts(s, img.attrs, img.url);
    NextImageOfMatch(s, 0, q, e);
  }

  /** Where the pieces of a tag sit in the text it starts. */
  lemma TagParts(img: Img, rest: string)
    ensures var s, q := ImageTag(img) + rest, |ImgOpen| + |img.attrs|;
            var start := q + |DataOriginal|;
            var e := start + |img.url|;
            e < |s| && s[..|ImgOpen|] == ImgOpen && s[|ImgOpen|..start] == img.attrs + DataOriginal &&
            s[start..e] == img.url && s[e] == '"' && s[e + 1..] == rest
  {
    var s := ImageTag(img) + rest;
    assert s == ImgOpen + (img.attrs + DataOriginal) + img.url + Quote + rest;
  }

  /** `<img src=`, attributes without `data-original="` in them,
      `data-original="`, a stretch without quotes and a quote: the match
      findall makes from the start of `s`. */
  lemma MatchOfParts(s: string, attrs: string, u: string)
    requires |ImgOpen| + |attrs| + |DataOriginal| + |u| < |s|
    requires s[..|ImgOpen|] == ImgOpen
    requires s[|ImgOpen|..|ImgOpen| + |attrs| + |DataOriginal|] == attrs + DataOriginal
    requires forall j :: 0 <= j < |attrs| ==> !OccursAt(attrs + DataOriginal, DataOriginal, j)
    requires var start := |ImgOpen| + |attrs| + |DataOriginal|;
             s[start..start + |u|] == u && '"' !in u && s[start + |u|] == '"'
    ensures MatchAt(s, 0, |ImgOpen| + |attrs|, |ImgOpen| + |attrs| + |DataOriginal| + |u|)
  {
    OpenAtStart(s);
    FirstDataOriginal(s, attrs);
    FirstQuote(s, |ImgOpen| + |attrs| + |DataOriginal|, u);
  }

  /** A text starting with `<img src=` has its first one at 0. */
  lemma OpenAtStart(s: string)
    requires |ImgOpen| <= |s| && s[..|ImgOpen|] == ImgOpen
    ensures FirstFrom(s, ImgOpen, 0, 0)
  {
    assert s[0..][..|ImgOpen|] == ImgOpen;
  }

  /** After `<img src=`, attributes without `data-original="` in them and then
      `data-original="`: the first one is right after the attributes. */
  lemma FirstDataOriginal(s: string, attrs: string)
    requires |ImgOpen| + |attrs| + |DataOriginal| <= |s|
    requires s[|ImgOpen|..|ImgOpen| + |attrs| + |DataOriginal|] == attrs + DataOriginal
    requires forall j :: 0 <= j < |attrs| ==> !OccursAt(attrs + DataOriginal, DataOriginal, j)
    ensures FirstFrom(s, DataOriginal, |ImgOpen|, |ImgOpen| + |attrs|)
  {
    var t, q := attrs + DataOriginal, |ImgOpen| + |attrs|;
    OccursShift(s, t, |ImgOpen|, DataOriginal, |attrs|);
    assert t[|attrs|..][..|DataOriginal|] == DataOriginal;
    forall j | |ImgOpen| <= j < q ensures !OccursAt(s, DataOriginal, j) {
      OccursShift(s, t, |ImgOpen|, DataOriginal, j - |ImgOpen|);
    }
    AbsentMeans(s, DataOriginal, |ImgOpen|, q);
  }

  /** A stretch without quotes followed by a quote: the first quote is right after it. */
  lemma FirstQuote(s: string, start: nat, u: string)
    requires start + |u| < |s| && s[start..start + |u|] == u && '"' !in u && s[start + |u|] == '"'
    ensures FirstFrom(s, Quote, start, start + |u|)
  {
    var e := start + |u|;
    assert s[e..][..1] == Quote;
    forall j | start <= j < e ensures !OccursAt(s, Quote, j) {
      assert s[j] == u[j - start];
      assert s[j..][..1] == [s[j]];
    }
    AbsentMeans(s, Quote, start, e);
  }

  /** An occurrence inside a piece of `s` is an occurrence in the piece. */
  lemma OccursShift(s: string, t: string, off: nat, pat: string, j: nat)
    requires off + |t| <= |s| && s[off..off + |t|] == t && j + |pat| <= |t|
    ensures OccursAt(s, pat, off + j) <==> OccursAt(t, pat, j)
  {
    assert s[off + j..][..|pat|] == t[j..][..|pat|];
  }

  /** The scanner reads back, in order and with repeats, the URLs written as
      tags, whatever other attributes come before `data-original="`. */
  lemma {:induction false} ScanRender(imgs: seq<Img>)
    requires forall k :: 0 <= k < |imgs| ==> Scannable(imgs[k])
    ensures ScanImages(Render(imgs)) == Urls(imgs)
  {
    if imgs == [] {
      assert NextImage([]) == None;
    } else {
      ScanTag(imgs[0], Render(imgs[1..]));
      ScanRender(imgs[1..]);
    }
  }

  // ----- The plan of get_images (main.py:202-220) -----

  /** One file to download: the picture's URL and the file name it is saved under. */
  datatype Download = Download(url: string, name: string)

  /** The pictures of one answer, saved under a directory named after the answer's id. */
  datatype ImageJob = ImageJob(answerId: nat, downloads: seq<Download>)

  /** The answer has at least one picture: otherwise it is skipped. */
  predicate HasPictures(a: Answer)
  {
    ScanImages(a.content) != []
  }

  /** The job of an answer with pictures (main.py:208-220): its distinct URLs,
      each with the file name taken from it. */
  function JobFor(a: Answer): (job: ImageJob)
    requires HasPictures(a)
    ensures job.answerId == a.id && |job.downloads| > 0
    ensures forall i, j :: 0 <= i < j < |job.downloads| ==> job.downloads[i].url != job.downloads[j].url
    ensures forall u :: u in ScanImages(a.content) <==> exists k :: 0 <= k < |job.downloads| && job.downloads[k].url == u
    ensures forall k :: 0 <= k < |job.downloads| ==>
              job.downloads[k].name == ImageName(job.downloads[k].url) &&
              '/' !in job.downloads[k].name && '?' !in job.downloads[k].name
  {
    var urls := ListDelOverlap(ScanImages(a.content));
    assert Elements(urls) == Elements(ScanImages(a.content));
    assert forall u :: u in ScanImages(a.content) <==> u in urls by {
      forall u ensures u in ScanImages(a.content) <==> u in urls {
        assert u in ScanImages(a.content) <==> u in Elements(ScanImages(a.content));
        assert u in urls <==> u in Elements(urls);
      }
    }
    assert |urls| > 0 by { assert ScanImages(a.content)[0] in Elements(urls); }
    var downloads := Downloads(urls);
    assert forall u :: u in urls <==> exists k :: 0 <= k < |downloads| && downloads[k].url == u by {
      forall u | u in urls ensures exists k :: 0 <= k < |downloads| && downloads[k].url == u {
        var k :| 0 <= k < |urls| && urls[k] == u;
        assert downloads[k].url == u;
      }
    }
    ImageJob(a.id, downloads)
  }

  /** Each URL with the file name it is saved under. */
  function Downloads(urls: seq<string>): (downloads: seq<Download>)
    ensures |downloads| == |urls|
    ensures forall k :: 0 <= k < |urls| ==> downloads[k] == Download(urls[k], ImageName(urls[k]))
  {
    seq(|urls|, k requires 0 <= k < |urls| => Download(urls[k], ImageName(urls[k])))
  }

  /** The job list grows by one answer at a time. */
  lemma ImageJobsStep(answers: seq<Answer>, i: nat)
    requires i < |answers|
    ensures var a := answers[i];
            ImageJobs(answers[..i + 1]) == ImageJobs(answers[..i]) +
              if HasPictures(a) then [ImageJob(a.id, Downloads(ListDelOverlap(ScanImages(a.content))))] else []
  {
    assert answers[..i + 1][..i] == answers[..i];
  }

  /** The jobs of the answers with pictures, in answer order. */
  function ImageJobs(answers: seq<Answer>): (jobs: seq<ImageJob>)
    ensures |jobs| <= |answers|
    ensures forall k :: 0 <= k < |jobs| ==> |jobs[k].downloads| > 0
  {
    if answers == [] then []
    else
      var last := answers[|answers| - 1];
      ImageJobs(answers[..|answers| - 1]) + if HasPictures(last) then [JobFor(last)] else []
  }

  /** A job is made for every answer with pictures, and only for those: an
      answer without a matched URL gets no directory and no download. */
  lemma {:induction false} ImageJobsCoverAnswers(answers: seq<Answer>)
    ensures forall a :: a in answers && HasPictures(a) ==> JobFor(a) in ImageJobs(answers)
    ensures forall job :: job in ImageJobs(answers) ==>
              exists a :: a in answers && HasPictures(a) && job == JobFor(a)
  {
    if answers != [] {
      var front := answers[..|answers| - 1];
      var last := answers[|answers| - 1];
      ImageJobsCoverAnswers(front);
      assert answers == front + [last];
      forall a | a in answers && HasPictures(a) ensures JobFor(a) in ImageJobs(answers) {
        if a != last {
          assert a in front;
        }
      }
      forall job | job in ImageJobs(answers)
        ensures exists a :: a in answers && HasPictures(a) && job == JobFor(a)
      {
        if job in ImageJobs(front) {
          var a :| a in front && HasPictures(a) && job == JobFor(a);
          assert a in answers;
        } else {
          assert job == JobFor(last);
        }
      }
    }
  }

  /** The loop of `get_images` (main.py:202-228): for each answer in turn, its
      URLs; an answer without any is skipped, the others are deduplicated,
      counted and named. Returns the jobs in answer order and the count of
      answers with pictures. */
  method GetImages(answers: seq<Answer>) returns (jobs: seq<ImageJob>, numWithPics: nat)
    ensures jobs == ImageJobs(answers)
    ensures numWithPics == |jobs|
  {
    jobs := [];
    numWithPics := 0;
    for i := 0 to |answers|
      invariant jobs == ImageJobs(answers[..i])
      invariant numWithPics == |jobs|
    {
      ImageJobsStep(answers, i);
      var imgUrls := ScanImages(answers[i].content);
      if |imgUrls| == 0 {
        continue;
      }
      var urls := ListDelOverlap(imgUrls);
      numWithPics := numWithPics + 1;
      var downloads: seq<Download> := [];
      for k := 0 to |urls|
        invariant |downloads| == k
        invariant forall j :: 0 <= j < k ==> downloads[j] == Download(urls[j], ImageName(urls[j]))
      {
        downloads := downloads + [Download(urls[k], ImageName(urls[k]))];
      }
      assert downloads == Downloads(urls);
      jobs := jobs + [ImageJob(answers[i].id, downloads)];
    }
    assert answers[..|answers|] == answers;
  }

  /** An answer whose HTML carries the same picture twice downloads it once. */
  lemma RepeatedPictureDownloadedOnce(id: nat, first: Img, second: Img)
    requires Scannable(first) && Scannable(second) && first.url == second.url
    ensures var a := Answer(id, Render([first, second]));
            HasPictures(a) && JobFor(a) == ImageJob(id, [Download(first.url, ImageName(first.url))])
  {
    var u := first.url;
    var a := Answer(id, Render([first, second]));
    ScanRender([first, second]);
    UrlsPair(first, second);
    ListDelOverlapRepeated(u);
    JobOfScan(a, [u, u]);
    assert Downloads([u]) == [Download(u, ImageName(u))];
  }

  /** The URLs of two pictures. */
  lemma UrlsPair(first: Img, second: Img)
    ensures Urls([first, second]) == [first.url, second.url]
  {
    assert [second][1..] == [];
    assert Urls([second]) == [second.url];
    assert [first, second][1..] == [second];
  }

  /** An answer's job is made from the URLs the scan finds in it. */
  lemma JobOfScan(a: Answer, urls: seq<string>)
    requires ScanImages(a.content) == urls && urls != []
    ensures HasPictures(a) && JobFor(a) == ImageJob(a.id, Downloads(ListDelOverlap(urls)))
  {
  }

  /** An answer without `<img src=` in its HTML gets no job. */
  lemma NoMarkupNoJob(a: Answer)
    requires forall j :: 0 <= j <= |a.content| ==> !OccursAt(a.content, ImgOpen, j)
    ensures !HasPictures(a)
  {
  }
}
