/** `process_zip_video` and the batch loop of the script.

    A source is dispatched (`file://` URI, existing local path, or remote URL),
    turned into an archive, extracted, searched for videos, and each video is
    copied into the downloads folder and/or opened. The downloads folder is a
    map from file name to bytes; opening a video is recorded as an event
    naming the path handed to the player. Everything the script learns from
    the outside world for one source (does setup succeed, which paths exist,
    does the download succeed, what does extraction yield, which copies fail)
    is given by a `SourceWorld`. */
module Pipeline {
  import opened Text
  import opened Paths
  import opened Resolver
  import opened Media

  newtype byte = x: int | 0 <= x < 256

  /** Where `process_zip_video` takes the archive from. */
  datatype Source = FileUri(path: string) | LocalPath(path: string) | RemoteUrl(url: string)

  /** What `unzip_file` does with the archive: extract it (the walk of the
      extraction directory and the bytes of each extracted file), or raise. */
  datatype Extraction =
    | Extracted(walk: seq<WalkStep>, contents: map<string, seq<byte>>)
    | BadZip
    | ExtractError

  /** The outside world as one call of `process_zip_video` sees it. */
  datatype SourceWorld = SourceWorld(
    setupOk: bool,           // `ensure_download_dir()` and `tempfile.mkdtemp()` succeed
    tempDir: string,         // the directory `mkdtemp` returns
    existing: set<string>,   // the paths `os.path.exists` accepts
    downloadOk: bool,        // `download_zip` returns without raising
    extraction: Extraction,
    unwritable: set<string>) // file names whose copy into the downloads folder raises

  /** How the processing of one source ends. */
  datatype Outcome =
    | Crashed                      // an exception escaped `process_zip_video`
    | FileMissing(path: string)
    | DownloadFailed(url: string)
    | NotAZip(zipPath: string)
    | ExtractFailed(zipPath: string)
    | NoVideos
    | Distributed(videos: seq<string>)

  /** The archive to extract, or the outcome that ends the source early. */
  datatype Acquisition = Archive(zipPath: string) | Abandoned(why: Outcome)

  /** The observable state: the downloads folder and the videos opened so far. */
  datatype Snapshot = Snapshot(downloads: map<string, seq<byte>>, launched: seq<string>)

  /** What the distribution loop reads but does not change. */
  datatype Context = Context(mode: Mode, downloadDir: string, contents: map<string, seq<byte>>, unwritable: set<string>)

  // ---------------------------------------------------------------------------
  // Source dispatch
  // ---------------------------------------------------------------------------

  /** The three-way dispatch: the `file://` test is case-sensitive, and an
      existing path is used as it is. */
  function Classify(url: string, existing: set<string>): (c: Source)
    ensures c.FileUri? <==> StartsWith(url, "file://")
    ensures c.FileUri? ==> "file://" + c.path == url
    ensures c.LocalPath? ==> c.path == url && url in existing
    ensures c.RemoteUrl? ==> c.url == url && url !in existing
  {
    if StartsWith(url, "file://") then
      assert url == url[..7] + url[7..];
      FileUri(url[7..])
    else if url in existing then LocalPath(url)
    else RemoteUrl(url)
  }

  /** `file://` followed by any path dispatches to that very path. */
  lemma ClassifyFileUri(path: string, existing: set<string>)
    ensures Classify("file://" + path, existing) == FileUri(path)
  {
    var url := "file://" + path;
    assert url[..7] == "file://";
    assert url[7..] == path;
  }

  /** Lines 47-60: find the archive. A `file://` path must exist; a remote URL
      is downloaded to `video.zip` in the temporary directory. */
  function Acquire(url: string, w: SourceWorld): (a: Acquisition)
    ensures a.Archive? ==> a.zipPath in w.existing || (w.downloadOk && a.zipPath == Join(w.tempDir, "video.zip"))
    ensures a.Abandoned? ==> a.why.FileMissing? || a.why.DownloadFailed?
  {
    match Classify(url, w.existing)
    case FileUri(p) => if p in w.existing then Archive(p) else Abandoned(FileMissing(p))
    case LocalPath(p) => Archive(p)
    case RemoteUrl(u) => if w.downloadOk then Archive(Join(w.tempDir, "video.zip")) else Abandoned(DownloadFailed(u))
  }

  /** A `file://` source never reaches the downloader: its acquisition does
      not depend on whether a download would succeed, and a missing file ends
      it with `FileMissing`. */
  lemma FileUriNeverDownloads(url: string, w: SourceWorld)
    requires StartsWith(url, "file://")
    ensures Acquire(url, w) == Acquire(url, w.(downloadOk := !w.downloadOk))
    ensures url[7..] !in w.existing ==> Acquire(url, w) == Abandoned(FileMissing(url[7..]))
    ensures url[7..] in w.existing ==> Acquire(url, w) == Archive(url[7..])
  {
  }

  /** A source that names an existing path (and is not a `file://` URI) is
      extracted in place, whatever the downloader would do. */
  lemma ExistingPathUsedAsIs(url: string, w: SourceWorld)
    requires !StartsWith(url, "file://") && url in w.existing
    ensures Acquire(url, w) == Archive(url)
  {
  }

  /** Any other source is downloaded; a failed download ends it. */
  lemma RemoteSourceDownloaded(url: string, w: SourceWorld)
    requires !StartsWith(url, "file://") && url !in w.existing
    ensures w.downloadOk ==> Acquire(url, w) == Archive(Join(w.tempDir, "video.zip"))
    ensures !w.downloadOk ==> Acquire(url, w) == Abandoned(DownloadFailed(url))
  {
  }

  /** The scheme test of `get_urls` ignores case but the dispatch does not:
      an upper-case `FILE://` argument is accepted as a URL and then, unless a
      path of that very spelling exists, handed to the downloader. */
  lemma UppercaseFileScheme(rest: string, existing: set<string>)
    requires "FILE://" + rest !in existing
    ensures HasUriScheme("FILE://" + rest)
    ensures Classify("FILE://" + rest, existing) == RemoteUrl("FILE://" + rest)
  {
    var a := "FILE://" + rest;
    var l := Lower(a);
    assert forall i :: 0 <= i < 7 ==> l[i] == LowerChar(a[i]);
    assert l[..7] == "file://";
    assert a[0] != 'f';
  }

  // ---------------------------------------------------------------------------
  // Distribution: lines 77-93
  // ---------------------------------------------------------------------------

  /** The copy of `vid` succeeds: it was extracted and its destination can be written. */
  predicate Copyable(c: Context, vid: string)
  {
    vid in c.contents && Basename(vid) !in c.unwritable
  }

  /** `target = dest_path if os.path.exists(dest_path) else vid`. */
  function PlayTarget(downloads: map<string, seq<byte>>, c: Context, vid: string): string
  {
    if Basename(vid) in downloads then Join(c.downloadDir, Basename(vid)) else vid
  }

  /** One pass of the loop body: the copy attempt (in `download` and `both`
      modes), then the play event (in `play` and `both` modes). */
  function DistributeOne(s: Snapshot, c: Context, vid: string): Snapshot
  {
    var downloads := if c.mode.Copies() && Copyable(c, vid) then s.downloads[Basename(vid) := c.contents[vid]] else s.downloads;
    var launched := if c.mode.Plays() then s.launched + [PlayTarget(downloads, c, vid)] else s.launched;
    Snapshot(downloads, launched)
  }

  /** The whole loop, over the videos in order. */
  function DistributeAll(s: Snapshot, c: Context, videos: seq<string>): Snapshot
    decreases |videos|
  {
    if videos == [] then s
    else DistributeOne(DistributeAll(s, c, videos[..|videos| - 1]), c, videos[|videos| - 1])
  }

  /** Reference definition of the copies: every copyable video in order, a
      later one overwriting an earlier one of the same file name. */
  function Overlay(c: Context, videos: seq<string>): map<string, seq<byte>>
    decreases |videos|
  {
    if videos == [] then map[]
    else
      var last := videos[|videos| - 1];
      var m := Overlay(c, videos[..|videos| - 1]);
      if Copyable(c, last) then m[Basename(last) := c.contents[last]] else m
  }

  /** The folder after the loop is the folder before it overlaid with the
      copies in copying modes, and the folder before it in `play` mode. */
  lemma {:induction false} CopiesAreOverlay(s: Snapshot, c: Context, videos: seq<string>)
    ensures DistributeAll(s, c, videos).downloads == if c.mode.Copies() then s.downloads + Overlay(c, videos) else s.downloads
    decreases |videos|
  {
    if videos != [] {
      var n := |videos| - 1;
      CopiesAreOverlay(s, c, videos[..n]);
      if c.mode.Copies() && Copyable(c, videos[n]) {
        var k := Basename(videos[n]);
        var v := c.contents[videos[n]];
        var m := Overlay(c, videos[..n]);
        assert (s.downloads + m)[k := v] == s.downloads + m[k := v];
      }
    }
  }

  /** A file name is written exactly when some copyable video bears it. */
  lemma {:induction false} OverlayKeys(c: Context, videos: seq<string>, k: string)
    ensures k in Overlay(c, videos) <==> exists j :: 0 <= j < |videos| && Copyable(c, videos[j]) && Basename(videos[j]) == k
    decreases |videos|
  {
    if videos != [] {
      var n := |videos| - 1;
      OverlayKeys(c, videos[..n], k);
      if exists j :: 0 <= j < n && Copyable(c, videos[..n][j]) && Basename(videos[..n][j]) == k {
        var j :| 0 <= j < n && Copyable(c, videos[..n][j]) && Basename(videos[..n][j]) == k;
        assert videos[j] == videos[..n][j];
      }
      if exists j :: 0 <= j < |videos| && Copyable(c, videos[j]) && Basename(videos[j]) == k {
        var j :| 0 <= j < |videos| && Copyable(c, videos[j]) && Basename(videos[j]) == k;
        if j < n {
          assert videos[..n][j] == videos[j];
        }
      }
    }
  }

  /** A written file name holds the bytes of the last copyable video bearing it. */
  lemma {:induction false} OverlayLastWriter(c: Context, videos: seq<string>, j: nat)
    requires j < |videos| && Copyable(c, videos[j])
    requires forall i :: j < i < |videos| && Copyable(c, videos[i]) ==> Basename(videos[i]) != Basename(videos[j])
    ensures Basename(videos[j]) in Overlay(c, videos)
    ensures Overlay(c, videos)[Basename(videos[j])] == c.contents[videos[j]]
    decreases |videos|
  {
    var n := |videos| - 1;
    if j < n {
      assert videos[..n][j] == videos[j];
      forall i | j < i < n && Copyable(c, videos[..n][i])
        ensures Basename(videos[..n][i]) != Basename(videos[j])
      {
        assert videos[..n][i] == videos[i];
      }
      OverlayLastWriter(c, videos[..n], j);
    }
  }

  /** Line 82-86: in a copying mode, each file name ends up holding the bytes
      of the last video bearing it whose copy succeeded; copy failures in
      between do not stop later files. */
  lemma LastWriterWins(s: Snapshot, c: Context, videos: seq<string>, j: nat)
    requires c.mode.Copies()
    requires j < |videos| && Copyable(c, videos[j])
    requires forall i :: j < i < |videos| && Copyable(c, videos[i]) ==> Basename(videos[i]) != Basename(videos[j])
    ensures Basename(videos[j]) in DistributeAll(s, c, videos).downloads
    ensures DistributeAll(s, c, videos).downloads[Basename(videos[j])] == c.contents[videos[j]]
  {
    CopiesAreOverlay(s, c, videos);
    OverlayLastWriter(c, videos, j);
  }

  /** A file name no successful copy bears keeps its entry (or its absence). */
  lemma OtherEntriesUnchanged(s: Snapshot, c: Context, videos: seq<string>, k: string)
    requires forall j :: 0 <= j < |videos| && Copyable(c, videos[j]) ==> Basename(videos[j]) != k
    ensures k in DistributeAll(s, c, videos).downloads <==> k in s.downloads
    ensures k in s.downloads ==> DistributeAll(s, c, videos).downloads[k] == s.downloads[k]
  {
    CopiesAreOverlay(s, c, videos);
    OverlayKeys(c, videos, k);
  }

  /** Processing the same videos again leaves the downloads folder as it is. */
  lemma RerunSameDownloads(s: Snapshot, c: Context, videos: seq<string>)
    ensures DistributeAll(DistributeAll(s, c, videos), c, videos).downloads == DistributeAll(s, c, videos).downloads
  {
    var once := DistributeAll(s, c, videos);
    CopiesAreOverlay(s, c, videos);
    CopiesAreOverlay(once, c, videos);
    if c.mode.Copies() {
      var o := Overlay(c, videos);
      assert s.downloads + o + o == s.downloads + o;
    }
  }

  /** One play event per video in playing modes, none in `download` mode;
      earlier events are kept. */
  lemma {:induction false} PlayLog(s: Snapshot, c: Context, videos: seq<string>)
    ensures |DistributeAll(s, c, videos).launched| == |s.launched| + (if c.mode.Plays() then |videos| else 0)
    ensures DistributeAll(s, c, videos).launched[..|s.launched|] == s.launched
    ensures !c.mode.Plays() ==> DistributeAll(s, c, videos).launched == s.launched
    decreases |videos|
  {
    if videos != [] {
      var n := |videos| - 1;
      PlayLog(s, c, videos[..n]);
      var before := DistributeAll(s, c, videos[..n]).launched;
      if c.mode.Plays() {
        assert (before + [PlayTarget(DistributeAll(s, c, videos).downloads, c, videos[n])])[..|s.launched|] == before[..|s.launched|];
      }
    }
  }

  /** Event `i` opens video `i`, at its copy when that file name exists in the
      folder as it stands right after video `i`'s copy attempt. */
  lemma {:induction false} PlayTargetAt(s: Snapshot, c: Context, videos: seq<string>, i: nat)
    requires c.mode.Plays() && i < |videos|
    ensures |s.launched| + i < |DistributeAll(s, c, videos).launched|
    ensures DistributeAll(s, c, videos).launched[|s.launched| + i]
         == PlayTarget(DistributeAll(s, c, videos[..i + 1]).downloads, c, videos[i])
    decreases |videos|
  {
    PlayLog(s, c, videos);
    var n := |videos| - 1;
    PlayLog(s, c, videos[..n]);
    if i == n {
      assert videos[..i + 1] == videos;
    } else {
      PlayTargetAt(s, c, videos[..n], i);
      assert videos[..n][..i + 1] == videos[..i + 1];
      assert videos[..n][i] == videos[i];
    }
  }

  /** In `both` mode a video whose copy succeeded is opened from its copy. */
  lemma BothPlaysCopy(s: Snapshot, c: Context, videos: seq<string>, i: nat)
    requires c.mode == Both && i < |videos| && Copyable(c, videos[i])
    ensures |s.launched| + i < |DistributeAll(s, c, videos).launched|
    ensures DistributeAll(s, c, videos).launched[|s.launched| + i] == Join(c.downloadDir, Basename(videos[i]))
  {
    PlayTargetAt(s, c, videos, i);
    assert videos[..i + 1][..i] == videos[..i];
    assert videos[..i + 1][i] == videos[i];
  }

  /** In `play` mode nothing is copied, yet a file of the same name already in
      the downloads folder (say, from an earlier run) is opened instead of the
      freshly extracted video. */
  lemma StalePlayTarget(s: Snapshot, c: Context, videos: seq<string>, i: nat)
    requires c.mode == Play && i < |videos|
    ensures DistributeAll(s, c, videos).downloads == s.downloads
    ensures |s.launched| + i < |DistributeAll(s, c, videos).launched|
    ensures Basename(videos[i]) in s.downloads ==>
      DistributeAll(s, c, videos).launched[|s.launched| + i] == Join(c.downloadDir, Basename(videos[i]))
    ensures Basename(videos[i]) !in s.downloads ==>
      DistributeAll(s, c, videos).launched[|s.launched| + i] == videos[i]
  {
    CopiesAreOverlay(s, c, videos);
    CopiesAreOverlay(s, c, videos[..i + 1]);
    PlayTargetAt(s, c, videos, i);
  }

  // ---------------------------------------------------------------------------
  // process_zip_video
  // ---------------------------------------------------------------------------

  /** Reference definition of one call of `process_zip_video(url, mode)`: its
      outcome and the state afterwards. */
  function Process(s: Snapshot, url: string, mode: Mode, downloadDir: string, w: SourceWorld): (r: (Outcome, Snapshot))
    ensures !r.0.Distributed? ==> r.1 == s
    ensures r.0.Distributed? ==> w.extraction.Extracted? && r.0.videos == VideoPaths(w.extraction.walk) && r.0.videos != []
  {
    if !w.setupOk then (Crashed, s)
    else
      match Acquire(url, w)
      case Abandoned(why) => (why, s)
      case Archive(zipPath) =>
        match w.extraction
        case BadZip => (NotAZip(zipPath), s)
        case ExtractError => (ExtractFailed(zipPath), s)
        case Extracted(walk, contents) =>
          var videos := VideoPaths(walk);
          if videos == [] then (NoVideos, s)
          else (Distributed(videos), DistributeAll(s, Context(mode, downloadDir, contents, w.unwritable), videos))
  }

  /** How a source ends never depends on the downloads folder or on what was
      opened before: only its own world decides. */
  lemma ProcessOutcomeIndependent(s: Snapshot, t: Snapshot, url: string, mode: Mode, downloadDir: string, w: SourceWorld)
    ensures Process(s, url, mode, downloadDir, w).0 == Process(t, url, mode, downloadDir, w).0
  {
  }

  /** A source that reaches distribution copies and opens exactly as the loop
      prescribes, over the videos of the walk in walk order. */
  lemma ProcessDistributes(s: Snapshot, url: string, mode: Mode, downloadDir: string, w: SourceWorld)
    requires w.setupOk && Acquire(url, w).Archive? && w.extraction.Extracted?
    requires VideoPaths(w.extraction.walk) != []
    ensures Process(s, url, mode, downloadDir, w).0 == Distributed(VideoPaths(w.extraction.walk))
    ensures Process(s, url, mode, downloadDir, w).1
         == DistributeAll(s, Context(mode, downloadDir, w.extraction.contents, w.unwritable), VideoPaths(w.extraction.walk))
  {
  }

  // ---------------------------------------------------------------------------
  // The batch loop: lines 128-141
  // ---------------------------------------------------------------------------

  /** Reference definition of the batch loop: every URL in order, each with
      its own world, one outcome per URL. */
  function Batch(s: Snapshot, urls: seq<string>, mode: Mode, downloadDir: string, worlds: seq<SourceWorld>): (r: (seq<Outcome>, Snapshot))
    requires |worlds| == |urls|
    ensures |r.0| == |urls|
    decreases |urls|
  {
    if urls == [] then ([], s)
    else
      var n := |urls| - 1;
      var before := Batch(s, urls[..n], mode, downloadDir, worlds[..n]);
      var step := Process(before.1, urls[n], mode, downloadDir, worlds[n]);
      (before.0 + [step.0], step.1)
  }

  /** Every URL is attempted, whatever happened to the ones before it: its
      outcome is the one it would have on its own. */
  lemma {:induction false} BatchOutcomeAt(s: Snapshot, urls: seq<string>, mode: Mode, downloadDir: string,
                                          worlds: seq<SourceWorld>, k: nat)
    requires |worlds| == |urls| && k < |urls|
    ensures Batch(s, urls, mode, downloadDir, worlds).0[k] == Process(s, urls[k], mode, downloadDir, worlds[k]).0
    decreases |urls|
  {
    var n := |urls| - 1;
    var before := Batch(s, urls[..n], mode, downloadDir, worlds[..n]);
    if k == n {
      ProcessOutcomeIndependent(before.1, s, urls[n], mode, downloadDir, worlds[n]);
    } else {
      BatchOutcomeAt(s, urls[..n], mode, downloadDir, worlds[..n], k);
      assert urls[..n][k] == urls[k] && worlds[..n][k] == worlds[k];
    }
  }

  /** A failing source is transparent: the batch ends in the same state as
      the batch without it. */
  lemma {:induction false} BatchDropFailing(s: Snapshot, urls: seq<string>, mode: Mode, downloadDir: string,
                                            worlds: seq<SourceWorld>, k: nat)
    requires |worlds| == |urls| && k < |urls|
    requires !Process(s, urls[k], mode, downloadDir, worlds[k]).0.Distributed?
    ensures Batch(s, urls, mode, downloadDir, worlds).1
         == Batch(s, urls[..k] + urls[k + 1..], mode, downloadDir, worlds[..k] + worlds[k + 1..]).1
    decreases |urls|
  {
    var n := |urls| - 1;
    var urls' := urls[..k] + urls[k + 1..];
    var worlds' := worlds[..k] + worlds[k + 1..];
    var before := Batch(s, urls[..n], mode, downloadDir, worlds[..n]);
    if k == n {
      assert urls' == urls[..n] && worlds' == worlds[..n];
      ProcessOutcomeIndependent(before.1, s, urls[n], mode, downloadDir, worlds[n]);
    } else {
      assert urls[..n][k] == urls[k] && worlds[..n][k] == worlds[k];
      BatchDropFailing(s, urls[..n], mode, downloadDir, worlds[..n], k);
      assert urls'[..n - 1] == urls[..n][..k] + urls[..n][k + 1..];
      assert worlds'[..n - 1] == worlds[..n][..k] + worlds[..n][k + 1..];
      assert urls'[n - 1] == urls[n] && worlds'[n - 1] == worlds[n];
    }
  }

  // ---------------------------------------------------------------------------
  // The running script
  // ---------------------------------------------------------------------------

  /** The script's process: its working directory, the downloads folder
      `DOWNLOAD_DIR` under it, and what has been copied and opened so far. */
  class Host {
    const cwd: string
    const downloadDir: string
    var downloads: map<string, seq<byte>>
    var launched: seq<string>

    /** `DOWNLOAD_DIR = os.path.join(os.getcwd(), "downloads")`, holding
        whatever earlier runs left there. */
    constructor (cwd: string, leftover: map<string, seq<byte>>)
      ensures this.cwd == cwd && downloadDir == Join(cwd, "downloads")
      ensures downloads == leftover && launched == []
    {
      this.cwd := cwd;
      downloadDir := Join(cwd, "downloads");
      downloads := leftover;
      launched := [];
    }

    function State(): Snapshot
      reads this
    {
      Snapshot(downloads, launched)
    }

    /** The `for vid in video_files` loop: copy, then open. */
    method Distribute(videos: seq<string>, mode: Mode, contents: map<string, seq<byte>>, unwritable: set<string>)
      modifies this
      ensures State() == DistributeAll(old(State()), Context(mode, downloadDir, contents, unwritable), videos)
    {
      ghost var s0 := State();
      var c := Context(mode, downloadDir, contents, unwritable);
      var i := 0;
      while i < |videos|
        invariant 0 <= i <= |videos|
        invariant State() == DistributeAll(s0, c, videos[..i])
      {
        var vid := videos[i];
        var name := Basename(vid);
        var destPath := Join(downloadDir, name);
        if mode.Copies() {
          if vid in contents && name !in unwritable {
            downloads := downloads[name := contents[vid]];
          }
        }
        if mode.Plays() {
          var target := if name in downloads then destPath else vid;
          launched := launched + [target];
        }
        assert videos[..i + 1][..i] == videos[..i];
        i := i + 1;
      }
      assert videos[..i] == videos;
    }

    /** `process_zip_video(url, mode)`. */
    method ProcessZipVideo(url: string, mode: Mode, w: SourceWorld) returns (outcome: Outcome)
      modifies this
      ensures (outcome, State()) == Process(old(State()), url, mode, downloadDir, w)
    {
      if !w.setupOk {
        return Crashed;
      }
      var zipPath: string;
      if StartsWith(url, "file://") {
        zipPath := url[7..];
        if zipPath !in w.existing {
          return FileMissing(zipPath);
        }
      } else if url in w.existing {
        zipPath := url;
      } else {
        zipPath := Join(w.tempDir, "video.zip");
        if !w.downloadOk {
          return DownloadFailed(url);
        }
      }
      assert Acquire(url, w) == Archive(zipPath);
      match w.extraction {
        case BadZip =>
          return NotAZip(zipPath);
        case ExtractError =>
          return ExtractFailed(zipPath);
        case Extracted(walk, contents) =>
          var videos := CollectVideos(walk);
          if videos == [] {
            return NoVideos;
          }
          Distribute(videos, mode, contents, w.unwritable);
          return Distributed(videos);
      }
    }

    /** `for url in urls: process_zip_video(url, mode)`, each call on its own. */
    method RunBatch(urls: seq<string>, mode: Mode, worlds: seq<SourceWorld>) returns (outcomes: seq<Outcome>)
      requires |worlds| == |urls|
      modifies this
      ensures (outcomes, State()) == Batch(old(State()), urls, mode, downloadDir, worlds)
    {
      ghost var s0 := State();
      outcomes := [];
      var i := 0;
      while i < |urls|
        invariant 0 <= i <= |urls|
        invariant (outcomes, State()) == Batch(s0, urls[..i], mode, downloadDir, worlds[..i])
      {
        var outcome := ProcessZipVideo(urls[i], mode, worlds[i]);
        outcomes := outcomes + [outcome];
        assert urls[..i + 1][..i] == urls[..i] && worlds[..i + 1][..i] == worlds[..i];
        i := i + 1;
      }
      assert urls[..i] == urls && worlds[..i] == worlds;
    }

    /** The `__main__` block: no URL means a clean exit before the mode is even
        resolved; otherwise the mode is resolved once and the batch runs. */
    method RunScript(env: map<string, string>, files: map<string, seq<string>>, argv: seq<string>, worlds: seq<SourceWorld>)
      returns (status: int, mode: Option<Mode>, outcomes: seq<Outcome>)
      requires |worlds| == |ResolveUrls(env, files, cwd, argv)|
      modifies this
      ensures status == 0
      ensures ResolveUrls(env, files, cwd, argv) == [] ==> mode == None && outcomes == [] && State() == old(State())
      ensures ResolveUrls(env, files, cwd, argv) != [] ==>
        mode == Some(ResolveMode(env, argv))
        && (outcomes, State()) == Batch(old(State()), ResolveUrls(env, files, cwd, argv), ResolveMode(env, argv), downloadDir, worlds)
    {
      var urls := GetUrls(env, files, cwd, argv);
      if urls == [] {
        return 0, None, [];
      }
      var m := GetMode(env, argv);
      outcomes := RunBatch(urls, m, worlds);
      return 0, Some(m), outcomes;
    }
  }
}
