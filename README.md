# Zip-video fetcher: a Dafny model of `main.py`

`main.py` is a small command-line script. It collects a list of ZIP sources and picks a mode: `download`, `play` or `both`. It then treats every source the same way:

1. It finds the archive: a `file://` URI, an existing local path, or a URL it downloads.
2. It extracts the archive into a temporary directory.
3. It walks that directory for video files.
4. It copies each video into a `downloads` folder under the working directory, opens it with the system player, or both.

One failing source never stops the batch.

This project models that logic in five modules:

| file | module | models |
|---|---|---|
| `text.dfy` | `Text` | the Python string operations the script uses: `strip` with Python's whitespace set, `lower`, `startswith`, `endswith` and `split` |
| `paths.dfy` | `Paths` | POSIX `os.path.join` with two arguments, and `os.path.basename` |
| `resolver.dfy` | `Resolver` | `get_urls`, the four-origin fallback chain; `get_mode`, the flag-or-environment mode |
| `media.dfy` | `Media` | the `os.walk` loop and the case-insensitive extension test that select the videos |
| `pipeline.dfy` | `Pipeline` | the dispatch of a source, the distribution loop, `process_zip_video` as a whole, the batch loop and the `__main__` block |

How the outside world is represented:

- **Environment.** The environment is a `map<string, string>`.
- **Readable files.** These are a map from path to the lines the file yields. Being a key of the map is `os.path.exists`.
- **Command line.** `sys.argv` is a `seq<string>`.
- **One call of `process_zip_video`.** Its view of the world is a `SourceWorld`, which says:
  - whether the setup succeeds: `ensure_download_dir` and `mkdtemp`;
  - which paths exist;
  - whether the download succeeds;
  - what extraction yields: the walk and the bytes of each extracted file, or one of the two errors;
  - which destination file names cannot be written.
- **Observable state.** A `Snapshot` holds the downloads folder, a map from file name to bytes, and the list of paths handed to the player.

Imperative parts of the source are methods with loops, proved against reference functions:

- `GetUrls`, `SchemeArguments` and `GetMode` in `Resolver`;
- `CollectVideos` and `AppendVideosIn` in `Media`;
- the methods of `Pipeline.Host`, a class whose fields are the downloads folder and the play log.

The rest is functions and lemmas.

## Model

| member | source | states |
|---|---|---|
| Text.LeadingSpaces | main.py:97 | the count of leading characters `strip` removes: all of them whitespace, the next one not |
| Text.TrailingSpaces | main.py:97 | the count of trailing characters `strip` removes: all of them whitespace, the one before them not |
| Text.Strip | main.py:97 | `strip()` never lengthens; a non-empty result neither starts nor ends with whitespace |
| Text.StripShape | main.py:97 | the strip is the slice after the leading whitespace, and everything cut off around it is whitespace |
| Text.StripEmptyIff | main.py:98 | a value strips to nothing exactly when it is all whitespace |
| Text.StripIdempotent | main.py:99 | stripping a stripped value changes nothing |
| Text.StripKeepsNonSpaceHead | main.py:116 | a value starting with a non-space character keeps that character first after stripping |
| Text.Lower | main.py:121 | `lower()` keeps the length and maps each character on its own |
| Text.LowerIdempotent | main.py:121 | lowering twice is lowering once |
| Text.Split | main.py:99 | `split(",")` gives at least one piece, at most one more than the length, none containing a comma |
| Text.JoinSplit | main.py:99 | joining the pieces of a split with the separator gives back the original string |
| Text.SplitJoin | main.py:99 | splitting a join of separator-free pieces gives back the pieces |
| Text.SplitNoSep | main.py:99 | a string without the separator splits into itself |
| Text.SplitPrefix | main.py:99 | a separator-free head followed by the separator becomes the first piece, in front of the pieces of the rest |
| Paths.BasenameShape | main.py:82 | the basename is the `/`-free suffix that is the whole path or follows a `/` |
| Paths.BasenameOfName | main.py:82 | a name without `/` is its own basename |
| Paths.BasenameOfJoin | main.py:82 | the basename of `join(root, file)` is `file` for a walked file name |
| Paths.BasenameIsLastComponent | main.py:82 | any `/`-free suffix preceded by `/` (or by nothing) is the basename |
| Resolver.KeepStripped | main.py:99 | the list comprehension keeps at most as many entries as it reads, and none of them empty |
| Resolver.KeepStrippedAppend | main.py:105 | the comprehension distributes over concatenation, so it keeps input order |
| Resolver.KeepStrippedMember | main.py:111 | a value is kept exactly when it is the non-empty strip of some entry |
| Resolver.KeepStrippedIdempotent | main.py:99 | filtering a filtered list again changes nothing |
| Resolver.SchemeArgNonEmpty | main.py:115-116 | an argument accepted by the scheme test strips to a non-empty URL |
| Resolver.ArgvMatches | main.py:113-116 | the command-line origin keeps at most as many arguments as it reads, and none of them empty |
| Resolver.ArgvMatchesAppend | main.py:114-116 | the command-line filter keeps argument order |
| Resolver.ArgvMatchesMember | main.py:114-116 | a URL is kept exactly when it is the strip of an argument whose lowercased form starts with `http://`, `https://` or `file://` |
| Resolver.FirstNonEmpty | main.py:101-113 | the chain yields empty or one of the origins |
| Resolver.FirstNonEmptyPicks | main.py:101-113 | the chain yields origin k when it is non-empty and all earlier origins are empty |
| Resolver.FirstNonEmptyEmpty | main.py:101-118 | the chain yields nothing exactly when every origin is empty |
| Resolver.GetUrls | main.py:95-118 | the stage-by-stage method returns the first non-empty origin of the reference chain |
| Resolver.SchemeArguments | main.py:113-116 | the append loop over `argv[1:]` builds exactly the filtered argument list |
| Resolver.ChainOfFour | main.py:101-113 | each of the four origins is taken only when every earlier one is empty, and the result is empty only when all four are |
| Resolver.EnvListWins | main.py:97-99 | a non-empty parsed `ZIP_URLS` list is the result, whatever the files and the command line hold |
| Resolver.FileVarOriginUsed | main.py:101-105 | the `ZIP_URLS_FILE` file is used when `ZIP_URLS` gave nothing |
| Resolver.DefaultFileOriginUsed | main.py:107-111 | `urls.txt` in the working directory is used when both earlier origins gave nothing |
| Resolver.ArgvOriginUsed | main.py:113-116 | when the three earlier origins give nothing, the command-line origin is the result |
| Resolver.UrlsEmptyIff | main.py:95-118 | no URL at all exactly when every origin is empty |
| Resolver.UrlsNonEmpty | main.py:99-116 | every returned URL is non-empty, whatever its origin |
| Resolver.ArgvSkipsProgramName | main.py:114 | the command-line origin ignores `argv[0]` |
| Resolver.CommaOnlyEnvFallsThrough | main.py:97-101 | `ZIP_URLS=","` is non-empty after stripping yet parses to no URL, so later origins are consulted |
| Resolver.ParseMode | main.py:126 | a recognised token selects the mode of that name; any other token selects `both` |
| Resolver.ParseModeName | main.py:126 | every mode's name parses back to that mode |
| Resolver.FlagFrom | main.py:122-125 | finds the first `--mode`/`-m` that has a successor; `None` means no such flag |
| Resolver.GetMode | main.py:120-126 | the enumerate loop with `break` computes the reference mode |
| Resolver.ModeFlagOverrides | main.py:122-125 | the first flag with a successor decides, through its lowercased successor |
| Resolver.ModeFromEnvironment | main.py:121 | without such a flag the lowercased `MODE` decides, and `both` when it is unset |
| Resolver.ModeScansProgramName | main.py:122 | `argv[0]` is scanned too: a program named `-m` takes its first argument as the mode |
| Resolver.ModeEnvNotStripped | main.py:121 | `MODE=PLAY` means `play`, but `MODE=" play"` falls back to `both` |
| Media.VideosInAppend | main.py:73-75 | the per-directory selection distributes over concatenation |
| Media.VideoPathsAppend | main.py:72-75 | the selection over the walk distributes over concatenation, so it keeps walk order |
| Media.VideosInMember | main.py:73-75 | a path is selected from a directory exactly when it joins the root to a file passing the extension test |
| Media.VideoPathsMember | main.py:71-75 | a path is selected exactly when some walked file passes the extension test and the path joins it to its root |
| Media.VideoBasenames | main.py:72-75 | every selected path's basename passes the extension test, so non-matching files never appear |
| Media.CollectVideos | main.py:71-75 | the nested loops build exactly the walk-order selection |
| Media.AppendVideosIn | main.py:73-75 | the inner loop appends exactly one directory's selection |
| Media.UpperCaseExtensionIsVideo | main.py:74 | the extension test ignores case (`v.MP4` is a video) |
| Media.TextFileIsNotVideo | main.py:74 | other extensions are rejected (`r.txt` is not a video) |
| Media.ZipArchiveIsNotVideo | main.py:74 | no name ending in `.zip`, in any case, is a video, so the downloaded `video.zip` is never selected |
| Media.ClassifyExample | main.py:71-75 | a walk of one video and one non-video yields just the video joined to its directory |
| Pipeline.Classify | main.py:47-55 | a `file://` URI (case-sensitive) dispatches to the path after the prefix; otherwise an existing path is local; anything else is remote |
| Pipeline.ClassifyFileUri | main.py:47-48 | `file://` followed by any path dispatches to exactly that path |
| Pipeline.Acquire | main.py:47-60 | the archive either exists or is the downloaded `video.zip` in the temporary directory; an early end is a missing file or a failed download |
| Pipeline.FileUriNeverDownloads | main.py:47-51 | a `file://` source never reaches the downloader; a missing path ends it |
| Pipeline.ExistingPathUsedAsIs | main.py:52-53 | an existing path that is not a `file://` URI is used as it is |
| Pipeline.RemoteSourceDownloaded | main.py:54-60 | any other source is downloaded to `video.zip`, and a failed download ends it |
| Pipeline.UppercaseFileScheme | main.py:47-55 | `FILE://…` passes the scheme test of `get_urls`, yet dispatch treats it as a remote URL unless that exact path exists |
| Pipeline.CopiesAreOverlay | main.py:81-89 | in `download`/`both` the folder afterwards is the folder before overlaid with the successful copies; in `play` it is unchanged |
| Pipeline.OverlayKeys | main.py:82-86 | a file name is written exactly when some video bearing it was copied successfully |
| Pipeline.OverlayLastWriter | main.py:82-86 | a written name holds the bytes of the last successfully copied video bearing it |
| Pipeline.LastWriterWins | main.py:81-89 | after the loop each file name holds the last successful copy bearing it; failed copies in between do not stop later ones |
| Pipeline.OtherEntriesUnchanged | main.py:81-89 | a file name that no successful copy bears keeps its entry, or stays absent |
| Pipeline.RerunSameDownloads | main.py:81-89 | distributing the same videos again leaves the downloads folder as it is |
| Pipeline.PlayLog | main.py:91-93 | playing modes record one play per video, in order; `download` mode records none; earlier plays are kept |
| Pipeline.PlayTargetAt | main.py:91-93 | play i opens video i's copy when that file name exists right after its copy attempt, else the extracted file |
| Pipeline.BothPlaysCopy | main.py:83-93 | in `both` mode a successfully copied video is opened from the downloads folder |
| Pipeline.StalePlayTarget | main.py:91-93 | in `play` mode nothing is copied, yet a same-named file already in the folder is opened instead of the extracted video |
| Pipeline.Process | main.py:44-93 | a source that ends early leaves the state unchanged; one that distributes does so over the walk's non-empty selection |
| Pipeline.ProcessOutcomeIndependent | main.py:44-79 | how a source ends depends only on its own world, not on the downloads folder or earlier plays |
| Pipeline.ProcessDistributes | main.py:71-93 | a source with videos distributes exactly the selected videos, in walk order |
| Pipeline.Batch | main.py:136-141 | the batch yields one outcome per URL |
| Pipeline.BatchOutcomeAt | main.py:136-141 | every URL is attempted, and its outcome is the one it would have alone, whatever happened before it |
| Pipeline.BatchDropFailing | main.py:136-141 | a failing source is transparent: the batch ends in the state of the batch without it |
| Pipeline.Host.constructor | main.py:9 | the downloads folder is `downloads` under the working directory, holding what earlier runs left |
| Pipeline.Host.Distribute | main.py:81-93 | the copy-then-play loop updates the folder and the play log as the reference distribution says |
| Pipeline.Host.ProcessZipVideo | main.py:44-93 | dispatch, extraction, collection and distribution give the reference outcome and state |
| Pipeline.Host.RunBatch | main.py:136-141 | the batch loop gives the reference outcomes and state |
| Pipeline.Host.RunScript | main.py:128-141 | exit status 0; with no URL, no mode is resolved and nothing changes; otherwise the mode is resolved once and the batch runs over the resolved URLs |

## Left out

- `download_zip` (main.py:16-24): the HTTP request and the streamed write are not modelled. A download is a success flag, and a successful one leaves the archive at `video.zip` in the temporary directory.
- `unzip_file` (main.py:26-30): zip decoding is not modelled, and neither is the unsanitised handling of `../` entries. Extraction is an input: a walk with file contents, `BadZipFile`, or another error.
- `play_video` (main.py:32-42): the launch through `os.startfile` or `xdg-open`, and its own error handling, are not modelled. A play is recorded as an event naming the path handed over.
- `ensure_download_dir` and `tempfile.mkdtemp` (main.py:11-14, 46): directory creation is not modelled. Their failure is the one exception that escapes `process_zip_video`, and the batch loop catches it; it appears as the `Crashed` outcome.
- All `print` output is left out.
- `main_with_downloader.py` is not part of this model.
- Text.Lower: only ASCII `A`–`Z` are lowercased. Python's `str.lower` also maps other letters. It can also change a string's length, for example `'İ'`, which lowercases to two code points.
- Text.Split: only one-character separators are modelled, which is all the script uses.
- File lines are given already split. Line terminators, encodings and decode errors are not modelled; `strip` removes the terminators anyway.
- `os.path.exists` is a set of paths per source. Relative paths, symlinks and the difference between files and directories are not modelled.
- Each source's world is given up front. The model does not tie one source's existing paths to files that earlier sources copied.
- Pipeline.Host.Distribute: the destination is opened for writing before the copy can fail, which truncates it. In the model a failed copy leaves the folder entry unchanged.
- Pipeline.PlayTarget: `os.path.exists(dest_path)` is modelled as the file name being a key of the downloads folder. The folder is keyed by file name, so a collected path without a file name, which `os.walk` never yields, is not distinguished.
- Exceptions other than those named above are not modelled. This includes an interrupted walk and errors raised by `print`.
