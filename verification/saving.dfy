/**
 * The saving pass of `main` in imagen3_server.py.
 *
 * Prompts are numbered from 1 in file order and one task is submitted per
 * prompt; the results are then visited in submission order, and every task
 * that returned an image gets two files in the output folder,
 * `{basename}_{index:05d}.png` (the image) and `{basename}_{index:05d}.txt`
 * (the prompt). A saved pair is recorded as a value instead of being written.
 */
module Saving {
  import opened Options
  import opened Text
  import Retry
  import RateLimiting

  /** The limiter `main` shares between its tasks: at most 20 service calls per 60 seconds. */
  const MaxCalls := 20
  const PeriodSeconds := 60

  /**
   * With `main`'s settings, on a clock that does not run backwards, no
   * 60-second window ever holds more than 20 admitted calls.
   */
  lemma MainLimiterQuota(nows: seq<int>, t: int)
    requires RateLimiting.NonDecreasing(nows)
    ensures RateLimiting.InWindow(RateLimiting.Replay([], MaxCalls, PeriodSeconds, nows).admitted, PeriodSeconds, t) <= MaxCalls
  {
    RateLimiting.QuotaHolds(MaxCalls, PeriodSeconds, nows, t);
  }

  /** What the pass writes for one task that returned an image. */
  datatype SavedPair = SavedPair(index: nat, imagePath: string, textPath: string, image: Retry.Bytes, prompt: string)

  /** POSIX `os.path.basename(p)`: what follows the last '/'. */
  function Basename(p: string): (r: string)
    ensures '/' !in r
  {
    if p == [] || p[|p| - 1] == '/' then []
    else Basename(p[..|p| - 1]) + [p[|p| - 1]]
  }

  /** The basename is the suffix of the path after its last '/', or the whole path when it has none. */
  lemma {:induction false} BasenameIsLastComponent(p: string)
    ensures |Basename(p)| <= |p| && Basename(p) == p[|p| - |Basename(p)|..]
    ensures |Basename(p)| < |p| ==> p[|p| - |Basename(p)| - 1] == '/'
  {
    if p != [] && p[|p| - 1] != '/' {
      var init := p[..|p| - 1];
      BasenameIsLastComponent(init);
      var r := Basename(init);
      assert init[|init| - |r|..] + [p[|p| - 1]] == p[|p| - |r| - 1..];
    }
  }

  /** POSIX `os.path.join(a, b)`: an absolute `b` replaces `a`; otherwise one '/' separates them. */
  function Join(a: string, b: string): string {
    if |b| > 0 && b[0] == '/' then b
    else if a == [] || a[|a| - 1] == '/' then a + b
    else a + "/" + b
  }

  /**
   * What a join keeps: it ends with `b`; an absolute `b` is the whole result;
   * otherwise `a` and `b` are concatenated, with a '/' between them exactly
   * when `a` is non-empty and does not already end in one.
   */
  lemma JoinParts(a: string, b: string)
    ensures var r := Join(a, b);
      && |b| <= |r| && r[|r| - |b|..] == b
      && (|b| > 0 && b[0] == '/' ==> r == b)
      && (!(|b| > 0 && b[0] == '/') ==> |a| <= |r| && r[..|a|] == a && |r| <= |a| + 1 + |b|)
    ensures !(|b| > 0 && b[0] == '/') ==>
      Join(a, b) == if a == [] || a[|a| - 1] == '/' then a + b else a + "/" + b
  {
  }

  /** `f"{basename}_{index:05d}{ext}"`. */
  function FileName(basename: string, index: nat, ext: string): string {
    basename + "_" + Pad5(index) + ext
  }

  /** A file name is the basename, '_', the padded index and the extension, in that order. */
  lemma FileNameParts(basename: string, index: nat, ext: string)
    ensures var r := FileName(basename, index, ext);
      && |r| == |basename| + 1 + |Pad5(index)| + |ext|
      && r[..|basename|] == basename && r[|basename|] == '_'
      && r[|basename| + 1..|r| - |ext|] == Pad5(index)
      && r[|r| - |ext|..] == ext
  {
  }

  /** `image_path`: `os.path.join(folder_path, f"{folder_basename}_{index:05d}.png")`. */
  function ImagePath(folder: string, basename: string, index: nat): string {
    Join(folder, FileName(basename, index, ".png"))
  }

  /** `text_path`: the same name with `.txt`. */
  function TextPath(folder: string, basename: string, index: nat): string {
    Join(folder, FileName(basename, index, ".txt"))
  }

  /** An image path ends in ".png" and a text path in ".txt", whatever the folder. */
  lemma PathExtensions(folder: string, basename: string, index: nat)
    ensures var p := ImagePath(folder, basename, index); |p| >= 4 && p[|p| - 4..] == ".png"
    ensures var p := TextPath(folder, basename, index); |p| >= 4 && p[|p| - 4..] == ".txt"
  {
    var png, txt := FileName(basename, index, ".png"), FileName(basename, index, ".txt");
    assert Join(folder, png)[|Join(folder, png)| - 4..] == png[|png| - 4..];
    assert Join(folder, txt)[|Join(folder, txt)| - 4..] == txt[|txt| - 4..];
  }

  /** The entries for the task at `index` with result `result`: a pair of files when it returned an image. */
  function Entry(folder: string, index: nat, prompt: string, result: Option<Retry.Bytes>): (e: seq<SavedPair>)
    ensures |e| == if result.Some? then 1 else 0
  {
    match result
    case None => []
    case Some(image) =>
      var base := Basename(folder);
      [SavedPair(index, ImagePath(folder, base, index), TextPath(folder, base, index), image, prompt)]
  }

  /** The pairs saved for the tasks of `prompts`, numbered from 1, in submission order. */
  function SavedFiles(folder: string, prompts: seq<string>, results: seq<Option<Retry.Bytes>>): (r: seq<SavedPair>)
    requires |results| == |prompts|
    ensures |r| <= |results|
  {
    if results == [] then []
    else
      var n := |results| - 1;
      SavedFiles(folder, prompts[..n], results[..n]) + Entry(folder, n + 1, prompts[n], results[n])
  }

  /**
   * The loop over `futures` in `main`: visit the results in submission order
   * and save the ones that hold an image.
   */
  method SaveResults(folder: string, prompts: seq<string>, results: seq<Option<Retry.Bytes>>) returns (saved: seq<SavedPair>)
    requires |results| == |prompts|
    ensures saved == SavedFiles(folder, prompts, results)
  {
    var basename := Basename(folder);
    saved := [];
    var k := 0;
    while k < |results|
      invariant 0 <= k <= |results|
      invariant saved == SavedFiles(folder, prompts[..k], results[..k])
    {
      assert prompts[..k + 1][..k] == prompts[..k];
      assert results[..k + 1][..k] == results[..k];
      var index := k + 1;
      match results[k] {
        case Some(image) =>
          var imagePath := ImagePath(folder, basename, index);
          var textPath := TextPath(folder, basename, index);
          saved := saved + [SavedPair(index, imagePath, textPath, image, prompts[k])];
        case None =>
      }
      k := k + 1;
    }
    assert prompts[..k] == prompts && results[..k] == results;
  }

  // ---------------------------------------------------------------------------
  // What the pass promises

  /** The pair saved for the task at `index`, as the pass names it. */
  predicate IsPairFor(p: SavedPair, folder: string, prompts: seq<string>, results: seq<Option<Retry.Bytes>>)
    requires |results| == |prompts|
  {
    && 1 <= p.index <= |results|
    && results[p.index - 1] == Some(p.image)
    && p.prompt == prompts[p.index - 1]
    && p.imagePath == ImagePath(folder, Basename(folder), p.index)
    && p.textPath == TextPath(folder, Basename(folder), p.index)
  }

  /** Every saved pair belongs to a task that returned an image, and holds that image and that task's prompt. */
  lemma {:induction false} SavedPairsBelong(folder: string, prompts: seq<string>, results: seq<Option<Retry.Bytes>>, m: nat)
    requires |results| == |prompts| && m < |SavedFiles(folder, prompts, results)|
    ensures IsPairFor(SavedFiles(folder, prompts, results)[m], folder, prompts, results)
  {
    var n := |results| - 1;
    var init := SavedFiles(folder, prompts[..n], results[..n]);
    var s := SavedFiles(folder, prompts, results);
    assert s == init + Entry(folder, n + 1, prompts[n], results[n]);
    if m < |init| {
      SavedPairsBelong(folder, prompts[..n], results[..n], m);
      assert s[m] == init[m];
    }
  }

  /** The pairs come in submission order: their indices strictly increase, and stay within the prefix saved so far. */
  lemma {:induction false} SavedPairsOrdered(folder: string, prompts: seq<string>, results: seq<Option<Retry.Bytes>>, m: nat, m': nat)
    requires |results| == |prompts| && m < m' < |SavedFiles(folder, prompts, results)|
    ensures SavedFiles(folder, prompts, results)[m].index < SavedFiles(folder, prompts, results)[m'].index
  {
    var n := |results| - 1;
    var init := SavedFiles(folder, prompts[..n], results[..n]);
    var s := SavedFiles(folder, prompts, results);
    assert s == init + Entry(folder, n + 1, prompts[n], results[n]);
    assert s[m] == init[m];
    if m' < |init| {
      SavedPairsOrdered(folder, prompts[..n], results[..n], m, m');
      assert s[m'] == init[m'];
    } else {
      SavedPairsBelong(folder, prompts[..n], results[..n], m);
    }
  }

  /** The number of tasks that returned an image. */
  function ImageCount(results: seq<Option<Retry.Bytes>>): nat {
    if results == [] then 0 else ImageCount(results[..|results| - 1]) + if results[|results| - 1].Some? then 1 else 0
  }

  /** One pair per returned image. */
  lemma {:induction false} SavedCount(folder: string, prompts: seq<string>, results: seq<Option<Retry.Bytes>>)
    requires |results| == |prompts|
    ensures |SavedFiles(folder, prompts, results)| == ImageCount(results)
  {
    if results != [] {
      var n := |results| - 1;
      SavedCount(folder, prompts[..n], results[..n]);
    }
  }

  /** A task that returned an image has its pair saved, after the pairs of the earlier tasks that did. */
  lemma {:induction false} ImageIsSaved(folder: string, prompts: seq<string>, results: seq<Option<Retry.Bytes>>, k: nat)
    requires |results| == |prompts| && k < |results| && results[k].Some?
    ensures var m := ImageCount(results[..k]);
      m < |SavedFiles(folder, prompts, results)| && SavedFiles(folder, prompts, results)[m].index == k + 1
  {
    var n := |results| - 1;
    var init := SavedFiles(folder, prompts[..n], results[..n]);
    var s := SavedFiles(folder, prompts, results);
    assert s == init + Entry(folder, n + 1, prompts[n], results[n]);
    if k < n {
      ImageIsSaved(folder, prompts[..n], results[..n], k);
      assert results[..n][..k] == results[..k];
      var m := ImageCount(results[..k]);
      assert m < |init| && init[m].index == k + 1;
      assert s[m] == init[m];
    } else {
      assert k == n;
      SavedCount(folder, prompts[..n], results[..n]);
      assert |init| == ImageCount(results[..k]);
      assert s[|init|] == Entry(folder, n + 1, prompts[n], results[n])[0];
    }
  }

  /** A task's pair is saved exactly when the task returned an image. */
  lemma SavedIffImage(folder: string, prompts: seq<string>, results: seq<Option<Retry.Bytes>>, k: nat)
    requires |results| == |prompts| && k < |results|
    ensures var s := SavedFiles(folder, prompts, results);
      results[k].Some? <==> exists m :: 0 <= m < |s| && s[m].index == k + 1
  {
    var s := SavedFiles(folder, prompts, results);
    if results[k].Some? {
      ImageIsSaved(folder, prompts, results, k);
    }
    if exists m :: 0 <= m < |s| && s[m].index == k + 1 {
      var m :| 0 <= m < |s| && s[m].index == k + 1;
      SavedPairsBelong(folder, prompts, results, m);
    }
  }

  /** Different indices give different file names with the same extension. */
  lemma FileNameInjective(basename: string, i: nat, j: nat, ext: string)
    requires FileName(basename, i, ext) == FileName(basename, j, ext)
    ensures i == j
  {
    var pre := basename + "_";
    var a, b := FileName(basename, i, ext), FileName(basename, j, ext);
    assert a == pre + Pad5(i) + ext && b == pre + Pad5(j) + ext;
    assert Pad5(i) == a[|pre|..|a| - |ext|];
    assert Pad5(j) == b[|pre|..|b| - |ext|];
    Pad5Injective(i, j);
  }

  /** A file name is not empty, is not absolute and ends as its extension does, when the basename holds no '/'. */
  lemma NameStartsWell(basename: string, index: nat, ext: string)
    requires '/' !in basename && ext != []
    ensures var name := FileName(basename, index, ext);
      name != [] && name[0] != '/' && name[|name| - 1] == ext[|ext| - 1]
  {
    var name := FileName(basename, index, ext);
    if basename == [] {
      assert name[0] == '_';
    } else {
      assert name[0] == basename[0];
    }
  }

  /** Joining relative names onto the same folder keeps different names apart and keeps the last character. */
  lemma JoinKeepsNamesApart(folder: string, x: string, y: string)
    requires x != [] && y != [] && x[0] != '/' && y[0] != '/'
    ensures Join(folder, x) == Join(folder, y) ==> x == y
    ensures Join(folder, x)[|Join(folder, x)| - 1] == x[|x| - 1]
  {
    var pre := if folder == [] || folder[|folder| - 1] == '/' then folder else folder + "/";
    assert Join(folder, x) == pre + x && Join(folder, y) == pre + y;
    if Join(folder, x) == Join(folder, y) {
      assert x == (pre + x)[|pre|..];
      assert y == (pre + y)[|pre|..];
    }
  }

  /**
   * No two files the pass writes share a path: the images of two tasks differ,
   * their texts differ, and no image path is a text path.
   */
  lemma PathsDistinct(folder: string, i: nat, j: nat)
    ensures ImagePath(folder, Basename(folder), i) != TextPath(folder, Basename(folder), j)
    ensures i != j ==> ImagePath(folder, Basename(folder), i) != ImagePath(folder, Basename(folder), j)
    ensures i != j ==> TextPath(folder, Basename(folder), i) != TextPath(folder, Basename(folder), j)
  {
    var basename := Basename(folder);
    var pi, pj := FileName(basename, i, ".png"), FileName(basename, j, ".png");
    var ti, tj := FileName(basename, i, ".txt"), FileName(basename, j, ".txt");
    NameStartsWell(basename, i, ".png");
    NameStartsWell(basename, j, ".png");
    NameStartsWell(basename, i, ".txt");
    NameStartsWell(basename, j, ".txt");
    JoinKeepsNamesApart(folder, pi, tj);
    if i != j {
      JoinKeepsNamesApart(folder, pi, pj);
      if pi == pj {
        FileNameInjective(basename, i, j, ".png");
      }
      JoinKeepsNamesApart(folder, ti, tj);
      if ti == tj {
        FileNameInjective(basename, i, j, ".txt");
      }
    }
  }

  /** So the saved pairs never overwrite each other. */
  lemma SavedPathsDistinct(folder: string, prompts: seq<string>, results: seq<Option<Retry.Bytes>>, m: nat, m': nat)
    requires |results| == |prompts| && m < |SavedFiles(folder, prompts, results)| && m' < |SavedFiles(folder, prompts, results)|
    ensures var s := SavedFiles(folder, prompts, results);
      && s[m].imagePath != s[m'].textPath
      && (m != m' ==> s[m].imagePath != s[m'].imagePath && s[m].textPath != s[m'].textPath)
  {
    var s := SavedFiles(folder, prompts, results);
    SavedPairsBelong(folder, prompts, results, m);
    SavedPairsBelong(folder, prompts, results, m');
    if m < m' {
      SavedPairsOrdered(folder, prompts, results, m, m');
    } else if m' < m {
      SavedPairsOrdered(folder, prompts, results, m', m);
    }
    PathsDistinct(folder, s[m].index, s[m'].index);
  }

  /** The index can be read back from a saved file's name. */
  lemma IndexReadsBack(basename: string, index: nat, ext: string)
    ensures var name := FileName(basename, index, ext);
      var digits := name[|basename| + 1..|name| - |ext|];
      AllDigits(digits) && ParseDecimal(digits) == index
  {
    var name := FileName(basename, index, ext);
    assert name[|basename| + 1..|name| - |ext|] == Pad5(index);
    Pad5RoundTrip(index);
  }

  /** What `future.result()` gives for each task, in submission order. */
  function TaskResults(ends: seq<Retry.TaskEnd>): (r: seq<Option<Retry.Bytes>>)
    requires forall j :: 0 <= j < |ends| ==> !ends[j].Unfinished?
    ensures |r| == |ends|
  {
    if ends == [] then [] else [Retry.Returned(ends[0])] + TaskResults(ends[1..])
  }

  lemma {:induction false} TaskResultsAt(ends: seq<Retry.TaskEnd>, k: nat)
    requires forall j :: 0 <= j < |ends| ==> !ends[j].Unfinished?
    requires k < |ends|
    ensures TaskResults(ends)[k] == Retry.Returned(ends[k])
  {
    if k > 0 {
      TaskResultsAt(ends[1..], k - 1);
    }
  }

  /**
   * Fed with the ends of the tasks: a task's pair is saved, holding its image,
   * exactly when it returned an image; blocked prompts and tasks that gave up
   * save nothing.
   */
  lemma SavedIffTaskReturnedImage(folder: string, prompts: seq<string>, ends: seq<Retry.TaskEnd>, k: nat)
    requires |ends| == |prompts| && k < |ends|
    requires forall j :: 0 <= j < |ends| ==> !ends[j].Unfinished?
    ensures var s := SavedFiles(folder, prompts, TaskResults(ends));
      && (ends[k].Image? ==> exists m :: 0 <= m < |s| && s[m].index == k + 1 && s[m].image == ends[k].bytes)
      && ((exists m :: 0 <= m < |s| && s[m].index == k + 1) ==> ends[k].Image?)
  {
    var results := TaskResults(ends);
    var s := SavedFiles(folder, prompts, results);
    TaskResultsAt(ends, k);
    if ends[k].Image? {
      ImageIsSaved(folder, prompts, results, k);
      var m := ImageCount(results[..k]);
      SavedPairsBelong(folder, prompts, results, m);
      assert s[m].index == k + 1 && s[m].image == ends[k].bytes;
    }
    SavedIffImage(folder, prompts, results, k);
  }
}
