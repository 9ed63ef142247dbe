/** Video classification in `process_zip_video`: the `os.walk` over the
    extraction directory and the case-insensitive extension test. */
module Media {
  import opened Text
  import opened Paths

  /** One `(root, dirs, files)` triple yielded by `os.walk`; the sub-directory
      list plays no part in the classification. */
  datatype WalkStep = WalkStep(root: string, files: seq<string>)

  /** `name.lower().endswith((".mp4", ".mkv", ".webm", ".mov", ".avi"))`. */
  predicate IsVideoName(name: string)
  {
    var l := Lower(name);
    EndsWith(l, ".mp4") || EndsWith(l, ".mkv") || EndsWith(l, ".webm")
    || EndsWith(l, ".mov") || EndsWith(l, ".avi")
  }

  /** The paths the inner loop appends for one directory of the walk. */
  function VideosIn(root: string, files: seq<string>): seq<string>
  {
    if files == [] then []
    else (if IsVideoName(files[0]) then [Join(root, files[0])] else []) + VideosIn(root, files[1..])
  }

  /** The paths the whole walk collects, in walk order. */
  function VideoPaths(walk: seq<WalkStep>): seq<string>
  {
    if walk == [] then [] else VideosIn(walk[0].root, walk[0].files) + VideoPaths(walk[1..])
  }

  lemma {:induction false} VideosInAppend(root: string, a: seq<string>, b: seq<string>)
    ensures VideosIn(root, a + b) == VideosIn(root, a) + VideosIn(root, b)
  {
    if a == [] {
      assert a + b == b;
    } else {
      assert (a + b)[0] == a[0] && (a + b)[1..] == a[1..] + b;
      VideosInAppend(root, a[1..], b);
    }
  }

  /** Classifying a walk piece by piece is classifying it whole: the result
      keeps walk order. */
  lemma {:induction false} VideoPathsAppend(a: seq<WalkStep>, b: seq<WalkStep>)
    ensures VideoPaths(a + b) == VideoPaths(a) + VideoPaths(b)
  {
    if a == [] {
      assert a + b == b;
    } else {
      assert (a + b)[0] == a[0] && (a + b)[1..] == a[1..] + b;
      VideoPathsAppend(a[1..], b);
    }
  }

  /** A path is collected from one directory exactly when it joins the root
      with a file name that passes the extension test. */
  lemma {:induction false} VideosInMember(root: string, files: seq<string>, p: string)
    ensures p in VideosIn(root, files) <==>
      exists j :: 0 <= j < |files| && IsVideoName(files[j]) && p == Join(root, files[j])
  {
    if files != [] {
      VideosInMember(root, files[1..], p);
      if p in VideosIn(root, files[1..]) {
        var j :| 0 <= j < |files[1..]| && IsVideoName(files[1..][j]) && p == Join(root, files[1..][j]);
        assert files[j + 1] == files[1..][j];
      }
      if exists j :: 0 <= j < |files| && IsVideoName(files[j]) && p == Join(root, files[j]) {
        var j :| 0 <= j < |files| && IsVideoName(files[j]) && p == Join(root, files[j]);
        if j > 0 {
          assert files[1..][j - 1] == files[j];
        }
      }
    }
  }

  /** A path is collected exactly when some walked file passes the extension
      test and the path joins that file to its directory. */
  lemma {:induction false} VideoPathsMember(walk: seq<WalkStep>, p: string)
    ensures p in VideoPaths(walk) <==>
      exists i, j :: 0 <= i < |walk| && 0 <= j < |walk[i].files|
        && IsVideoName(walk[i].files[j]) && p == Join(walk[i].root, walk[i].files[j])
  {
    if walk != [] {
      VideoPathsMember(walk[1..], p);
      VideosInMember(walk[0].root, walk[0].files, p);
      if p in VideosIn(walk[0].root, walk[0].files) {
        var j :| 0 <= j < |walk[0].files| && IsVideoName(walk[0].files[j]) && p == Join(walk[0].root, walk[0].files[j]);
        assert 0 <= 0 < |walk|;
      }
      if p in VideoPaths(walk[1..]) {
        var i, j :| 0 <= i < |walk[1..]| && 0 <= j < |walk[1..][i].files|
          && IsVideoName(walk[1..][i].files[j]) && p == Join(walk[1..][i].root, walk[1..][i].files[j]);
        assert walk[i + 1] == walk[1..][i];
      }
      if exists i, j :: 0 <= i < |walk| && 0 <= j < |walk[i].files|
          && IsVideoName(walk[i].files[j]) && p == Join(walk[i].root, walk[i].files[j]) {
        var i, j :| 0 <= i < |walk| && 0 <= j < |walk[i].files|
          && IsVideoName(walk[i].files[j]) && p == Join(walk[i].root, walk[i].files[j]);
        if i > 0 {
          assert walk[1..][i - 1] == walk[i];
        }
      }
    }
  }

  /** Since `os.walk` file names never contain `/`, the basename of every
      collected path is a video name: non-matching files never appear. */
  lemma VideoBasenames(walk: seq<WalkStep>, p: string)
    requires forall i, j :: 0 <= i < |walk| && 0 <= j < |walk[i].files| ==> '/' !in walk[i].files[j]
    requires p in VideoPaths(walk)
    ensures IsVideoName(Basename(p))
  {
    VideoPathsMember(walk, p);
    var i, j :| 0 <= i < |walk| && 0 <= j < |walk[i].files|
      && IsVideoName(walk[i].files[j]) && p == Join(walk[i].root, walk[i].files[j]);
    BasenameOfJoin(walk[i].root, walk[i].files[j]);
  }

  /** The nested loops of `process_zip_video` that fill `video_files`: the
      outer loop over the walk, the inner one in `AppendVideosIn`. */
  method CollectVideos(walk: seq<WalkStep>) returns (videos: seq<string>)
    ensures videos == VideoPaths(walk)
  {
    videos := [];
    var i := 0;
    while i < |walk|
      invariant 0 <= i <= |walk|
      invariant videos == VideoPaths(walk[..i])
    {
      videos := AppendVideosIn(videos, walk[i].root, walk[i].files);
      VideoPathsAppend(walk[..i], [walk[i]]);
      assert walk[..i + 1] == walk[..i] + [walk[i]];
      assert VideoPaths([walk[i]]) == VideosIn(walk[i].root, walk[i].files) by {
        assert [walk[i]][1..] == [];
      }
      i := i + 1;
    }
    assert walk[..i] == walk;
  }

  /** The inner loop: append every video file of one directory, joined to
      its root, after what was already collected. */
  method AppendVideosIn(collected: seq<string>, root: string, files: seq<string>) returns (videos: seq<string>)
    ensures videos == collected + VideosIn(root, files)
  {
    videos := collected;
    var j := 0;
    while j < |files|
      invariant 0 <= j <= |files|
      invariant videos == collected + VideosIn(root, files[..j])
    {
      VideosInAppend(root, files[..j], [files[j]]);
      assert files[..j + 1] == files[..j] + [files[j]];
      if IsVideoName(files[j]) {
        videos := videos + [Join(root, files[j])];
      }
      j := j + 1;
    }
    assert files[..j] == files;
  }

  /** The extension test ignores case. */
  lemma UpperCaseExtensionIsVideo()
    ensures IsVideoName("v.MP4")
  {
    var l := Lower("v.MP4");
    assert l == "v.mp4";
    assert l[1..] == ".mp4";
  }

  /** Other extensions are rejected. */
  lemma TextFileIsNotVideo()
    ensures !IsVideoName("r.txt")
  {
    var l := Lower("r.txt");
    assert l == "r.txt";
    assert l[1..] != ".mp4";
  }

  /** The downloaded archive, which sits in the walked directory, is never
      taken for a video: no name ending in `.zip`, in any case, is one. */
  lemma ZipArchiveIsNotVideo(name: string)
    requires EndsWith(Lower(name), ".zip")
    ensures !IsVideoName(name)
  {
    var l := Lower(name);
    LastCharOfSuffix(l, ".zip");
    LastCharRules(l, ".mp4");
    LastCharRules(l, ".mkv");
    LastCharRules(l, ".webm");
    LastCharRules(l, ".mov");
    LastCharRules(l, ".avi");
  }

  /** A string ending in `x` ends in the last character of `x`. */
  lemma LastCharOfSuffix(s: string, x: string)
    requires x != [] && EndsWith(s, x)
    ensures s[|s| - 1] == x[|x| - 1]
  {
    assert s[|s| - |x|..][|x| - 1] == x[|x| - 1];
  }

  /** A suffix test fails as soon as the last characters differ. */
  lemma LastCharRules(s: string, x: string)
    requires x != [] && s != [] && s[|s| - 1] != x[|x| - 1]
    ensures !EndsWith(s, x)
  {
    if |x| <= |s| {
      assert s[|s| - |x|..][|x| - 1] == s[|s| - 1];
    }
  }

  /** A directory holding one video and one other file contributes exactly the
      video, joined to its directory, whatever the directory names. */
  lemma ClassifyExample(a: string, v: string, b: string, r: string)
    requires IsVideoName(v) && !IsVideoName(r)
    ensures VideoPaths([WalkStep(a, [v]), WalkStep(b, [r])]) == [Join(a, v)]
  {
    var walk := [WalkStep(a, [v]), WalkStep(b, [r])];
    assert VideosIn(a, [v]) == [Join(a, v)] by {
      assert [v][1..] == [];
    }
    assert VideosIn(b, [r]) == [] by {
      assert [r][1..] == [];
    }
    assert VideoPaths(walk[1..]) == [] by {
      assert walk[1..][1..] == [];
    }
  }
}
