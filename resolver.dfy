/** Source and mode resolution of the script: `get_urls` and `get_mode`.

    The environment is a map from variable name to value, the files the script
    may read are a map from path to the lines the file yields when iterated
    (presence in the map is `os.path.exists`), and `argv` is `sys.argv`. */
module Resolver {
  import opened Text
  import opened Paths

  datatype Option<T> = None | Some(value: T)

  /** `os.getenv(key, default)`. */
  function GetEnv(env: map<string, string>, key: string, default: string): string
  {
    if key in env then env[key] else default
  }

  // ---------------------------------------------------------------------------
  // get_urls
  // ---------------------------------------------------------------------------

  /** What one entry contributes to `[u.strip() for u in xs if u.strip()]`. */
  function StrippedEntry(x: string): seq<string>
  {
    if Strip(x) != [] then [Strip(x)] else []
  }

  /** `[u.strip() for u in xs if u.strip()]`: every kept entry is non-empty. */
  function KeepStripped(xs: seq<string>): (r: seq<string>)
    ensures |r| <= |xs|
    ensures forall u :: u in r ==> u != []
  {
    if xs == [] then [] else StrippedEntry(xs[0]) + KeepStripped(xs[1..])
  }

  /** The filter respects concatenation, so it keeps the input order. */
  lemma {:induction false} KeepStrippedAppend(a: seq<string>, b: seq<string>)
    ensures KeepStripped(a + b) == KeepStripped(a) + KeepStripped(b)
  {
    if a == [] {
      assert a + b == b;
    } else {
      var ab := a + b;
      assert ab[0] == a[0] && ab[1..] == a[1..] + b;
      KeepStrippedAppend(a[1..], b);
      calc {
        KeepStripped(ab);
        StrippedEntry(a[0]) + KeepStripped(a[1..] + b);
        StrippedEntry(a[0]) + (KeepStripped(a[1..]) + KeepStripped(b));
        (StrippedEntry(a[0]) + KeepStripped(a[1..])) + KeepStripped(b);
      }
    }
  }

  /** A string is kept exactly when it is the non-empty strip of an entry. */
  lemma {:induction false} KeepStrippedMember(xs: seq<string>, u: string)
    ensures u in KeepStripped(xs) <==> exists x :: x in xs && Strip(x) == u && u != []
  {
    if xs != [] {
      KeepStrippedMember(xs[1..], u);
      if u in KeepStripped(xs[1..]) {
        var x :| x in xs[1..] && Strip(x) == u && u != [];
        assert x in xs;
      }
      if exists x :: x in xs && Strip(x) == u && u != [] {
        var x :| x in xs && Strip(x) == u && u != [];
        if x != xs[0] {
          assert x in xs[1..];
        }
      }
    }
  }

  /** Re-parsing an already parsed list changes nothing. */
  lemma {:induction false} KeepStrippedIdempotent(xs: seq<string>)
    ensures KeepStripped(KeepStripped(xs)) == KeepStripped(xs)
  {
    if xs != [] {
      KeepStrippedIdempotent(xs[1..]);
      var head := StrippedEntry(xs[0]);
      KeepStrippedAppend(head, KeepStripped(xs[1..]));
      if head != [] {
        StripIdempotent(xs[0]);
        assert KeepStripped(head) == head;
      }
    }
  }

  /** The URI-looking test of the command-line origin. */
  predicate HasUriScheme(a: string)
  {
    var l := Lower(a);
    StartsWith(l, "http://") || StartsWith(l, "https://") || StartsWith(l, "file://")
  }

  /** An argument passing the scheme test starts with a letter, so stripping
      it never yields the empty string. */
  lemma SchemeArgNonEmpty(a: string)
    requires HasUriScheme(a)
    ensures Strip(a) != []
  {
    assert Lower(a)[0] == LowerChar(a[0]);
    assert a[0] in "hHfF";
    StripKeepsNonSpaceHead(a);
  }

  /** `[a.strip() for a in args if a.lower().startswith(schemes)]`. */
  function ArgvMatches(args: seq<string>): (r: seq<string>)
    ensures |r| <= |args|
    ensures forall u :: u in r ==> u != []
  {
    if args == [] then []
    else
      var head := if HasUriScheme(args[0]) then SchemeArgNonEmpty(args[0]); [Strip(args[0])] else [];
      head + ArgvMatches(args[1..])
  }

  /** The command-line filter respects concatenation (order is kept). */
  lemma {:induction false} ArgvMatchesAppend(a: seq<string>, b: seq<string>)
    ensures ArgvMatches(a + b) == ArgvMatches(a) + ArgvMatches(b)
  {
    if a == [] {
      assert a + b == b;
    } else {
      assert (a + b)[0] == a[0] && (a + b)[1..] == a[1..] + b;
      ArgvMatchesAppend(a[1..], b);
    }
  }

  /** Exactly the scheme-bearing arguments reach the result, stripped. */
  lemma {:induction false} ArgvMatchesMember(args: seq<string>, u: string)
    ensures u in ArgvMatches(args) <==> exists a :: a in args && HasUriScheme(a) && Strip(a) == u
  {
    if args != [] {
      ArgvMatchesMember(args[1..], u);
      if u in ArgvMatches(args[1..]) {
        var a :| a in args[1..] && HasUriScheme(a) && Strip(a) == u;
        assert a in args;
      }
      if exists a :: a in args && HasUriScheme(a) && Strip(a) == u {
        var a :| a in args && HasUriScheme(a) && Strip(a) == u;
        if a != args[0] {
          assert a in args[1..];
        }
      }
    }
  }

  /** Origin 1: the comma-separated `ZIP_URLS` variable. */
  function EnvOrigin(env: map<string, string>): seq<string>
  {
    var value := Strip(GetEnv(env, "ZIP_URLS", ""));
    if value != [] then KeepStripped(Split(value, ',')) else []
  }

  /** Origin 2: the lines of the file named by `ZIP_URLS_FILE`, if it exists. */
  function FileVarOrigin(env: map<string, string>, files: map<string, seq<string>>): seq<string>
  {
    var path := Strip(GetEnv(env, "ZIP_URLS_FILE", ""));
    if path != [] && path in files then KeepStripped(files[path]) else []
  }

  /** Origin 3: the lines of `urls.txt` in the working directory, if it exists. */
  function DefaultFileOrigin(cwd: string, files: map<string, seq<string>>): seq<string>
  {
    var path := Join(cwd, "urls.txt");
    if path in files then KeepStripped(files[path]) else []
  }

  /** Origin 4: the URI-looking command-line arguments after the program name. */
  function ArgvOrigin(argv: seq<string>): seq<string>
  {
    ArgvMatches(if argv == [] then [] else argv[1..])
  }

  /** The first non-empty list of an ordered chain of providers, or the empty
      list when every provider is empty. */
  function FirstNonEmpty(origins: seq<seq<string>>): (r: seq<string>)
    ensures r == [] || r in origins
  {
    if origins == [] then []
    else if origins[0] != [] then origins[0]
    else FirstNonEmpty(origins[1..])
  }

  /** The chain yields origin `k` when it is non-empty and every earlier one is empty. */
  lemma {:induction false} FirstNonEmptyPicks(origins: seq<seq<string>>, k: nat)
    requires k < |origins| && origins[k] != []
    requires forall j :: 0 <= j < k ==> origins[j] == []
    ensures FirstNonEmpty(origins) == origins[k]
  {
    if k > 0 {
      FirstNonEmptyPicks(origins[1..], k - 1);
    }
  }

  /** The chain yields nothing only when every origin is empty. */
  lemma {:induction false} FirstNonEmptyEmpty(origins: seq<seq<string>>)
    ensures FirstNonEmpty(origins) == [] <==> forall j :: 0 <= j < |origins| ==> origins[j] == []
  {
    if origins != [] {
      FirstNonEmptyEmpty(origins[1..]);
      assert forall j :: 1 <= j < |origins| ==> origins[j] == origins[1..][j - 1];
    }
  }

  /** The four origins of `get_urls`, in precedence order. */
  function Origins(env: map<string, string>, files: map<string, seq<string>>, cwd: string, argv: seq<string>): seq<seq<string>>
  {
    [EnvOrigin(env), FileVarOrigin(env, files), DefaultFileOrigin(cwd, files), ArgvOrigin(argv)]
  }

  /** Reference definition of `get_urls`: the first non-empty origin. */
  function ResolveUrls(env: map<string, string>, files: map<string, seq<string>>, cwd: string, argv: seq<string>): seq<string>
  {
    FirstNonEmpty(Origins(env, files, cwd, argv))
  }

  /** `get_urls()`, stage by stage as the script runs it: each later origin is
      read only while `urls` is still empty, and the command-line stage appends
      one argument at a time. */
  method GetUrls(env: map<string, string>, files: map<string, seq<string>>, cwd: string, argv: seq<string>)
    returns (urls: seq<string>)
    ensures urls == ResolveUrls(env, files, cwd, argv)
  {
    urls := [];
    var envUrls := Strip(GetEnv(env, "ZIP_URLS", ""));
    if envUrls != [] {
      urls := KeepStripped(Split(envUrls, ','));
    }
    assert urls == EnvOrigin(env);

    if urls == [] {
      var fileVar := Strip(GetEnv(env, "ZIP_URLS_FILE", ""));
      if fileVar != [] && fileVar in files {
        urls := KeepStripped(files[fileVar]);
      }
      assert urls == FileVarOrigin(env, files);
    }

    if urls == [] {
      var localFile := Join(cwd, "urls.txt");
      if localFile in files {
        urls := KeepStripped(files[localFile]);
      }
      assert urls == DefaultFileOrigin(cwd, files);
    }

    if urls == [] {
      urls := SchemeArguments(if argv == [] then [] else argv[1..]);
    }
    ChainOfFour(Origins(env, files, cwd, argv));
  }

  /** The command-line stage of `get_urls()`: walk the arguments after the
      program name and append each URI-looking one, stripped. */
  method SchemeArguments(args: seq<string>) returns (urls: seq<string>)
    ensures urls == ArgvMatches(args)
  {
    urls := [];
    var i := 0;
    while i < |args|
      invariant 0 <= i <= |args|
      invariant urls == ArgvMatches(args[..i])
    {
      ArgvMatchesAppend(args[..i], [args[i]]);
      assert args[..i + 1] == args[..i] + [args[i]];
      if HasUriScheme(args[i]) {
        urls := urls + [Strip(args[i])];
      }
      i := i + 1;
    }
    assert args[..i] == args;
  }

  /** A four-origin chain read stage by stage: each origin is taken only when
      all earlier ones are empty, and the result is empty only when all are. */
  lemma ChainOfFour(o: seq<seq<string>>)
    requires |o| == 4
    ensures o[0] != [] ==> FirstNonEmpty(o) == o[0]
    ensures o[0] == [] && o[1] != [] ==> FirstNonEmpty(o) == o[1]
    ensures o[0] == [] && o[1] == [] && o[2] != [] ==> FirstNonEmpty(o) == o[2]
    ensures o[0] == [] && o[1] == [] && o[2] == [] ==> FirstNonEmpty(o) == o[3]
    ensures FirstNonEmpty(o) == [] <==> o[0] == [] && o[1] == [] && o[2] == [] && o[3] == []
  {
    FirstNonEmptyEmpty(o);
    if o[0] != [] {
      FirstNonEmptyPicks(o, 0);
    } else if o[1] != [] {
      FirstNonEmptyPicks(o, 1);
    } else if o[2] != [] {
      FirstNonEmptyPicks(o, 2);
    } else if o[3] != [] {
      FirstNonEmptyPicks(o, 3);
    }
  }

  /** A non-empty `ZIP_URLS` list wins outright: the result is that list, and
      neither the files nor the command line can change it. */
  lemma EnvListWins(env: map<string, string>, files: map<string, seq<string>>, cwd: string, argv: seq<string>,
                    files': map<string, seq<string>>, cwd': string, argv': seq<string>)
    requires EnvOrigin(env) != []
    ensures ResolveUrls(env, files, cwd, argv) == KeepStripped(Split(Strip(env["ZIP_URLS"]), ','))
    ensures ResolveUrls(env, files, cwd, argv) == ResolveUrls(env, files', cwd', argv')
  {
  }

  /** The `ZIP_URLS_FILE` file is used only when `ZIP_URLS` parsed to nothing. */
  lemma FileVarOriginUsed(env: map<string, string>, files: map<string, seq<string>>, cwd: string, argv: seq<string>)
    requires EnvOrigin(env) == [] && FileVarOrigin(env, files) != []
    ensures ResolveUrls(env, files, cwd, argv) == FileVarOrigin(env, files)
  {
    ChainOfFour(Origins(env, files, cwd, argv));
  }

  /** `urls.txt` is used only when both earlier origins produced nothing. */
  lemma DefaultFileOriginUsed(env: map<string, string>, files: map<string, seq<string>>, cwd: string, argv: seq<string>)
    requires EnvOrigin(env) == [] && FileVarOrigin(env, files) == []
    requires DefaultFileOrigin(cwd, files) != []
    ensures ResolveUrls(env, files, cwd, argv) == DefaultFileOrigin(cwd, files)
  {
    ChainOfFour(Origins(env, files, cwd, argv));
  }

  /** The command line is consulted only when all three earlier origins produced
      nothing, and then it is the result, empty or not. */
  lemma ArgvOriginUsed(env: map<string, string>, files: map<string, seq<string>>, cwd: string, argv: seq<string>)
    requires EnvOrigin(env) == [] && FileVarOrigin(env, files) == []
    requires DefaultFileOrigin(cwd, files) == []
    ensures ResolveUrls(env, files, cwd, argv) == ArgvOrigin(argv)
  {
    ChainOfFour(Origins(env, files, cwd, argv));
  }

  /** No URL at all only when every origin is empty. */
  lemma UrlsEmptyIff(env: map<string, string>, files: map<string, seq<string>>, cwd: string, argv: seq<string>)
    ensures ResolveUrls(env, files, cwd, argv) == [] <==>
      EnvOrigin(env) == [] && FileVarOrigin(env, files) == [] && DefaultFileOrigin(cwd, files) == [] && ArgvOrigin(argv) == []
  {
    ChainOfFour(Origins(env, files, cwd, argv));
  }

  /** Whatever origin it came from, no returned URL is empty. */
  lemma UrlsNonEmpty(env: map<string, string>, files: map<string, seq<string>>, cwd: string, argv: seq<string>)
    ensures forall u :: u in ResolveUrls(env, files, cwd, argv) ==> u != []
  {
    var o := Origins(env, files, cwd, argv);
    var r := ResolveUrls(env, files, cwd, argv);
    assert r == [] || r == o[0] || r == o[1] || r == o[2] || r == o[3];
  }

  /** The command-line origin never looks at `argv[0]`. */
  lemma ArgvSkipsProgramName(prog: string, rest: seq<string>)
    ensures ArgvOrigin([prog] + rest) == ArgvMatches(rest)
  {
    assert ([prog] + rest)[1..] == rest;
  }

  /** `ZIP_URLS=","` is non-empty after stripping yet parses to nothing, so
      the chain falls through to the later origins. */
  lemma CommaOnlyEnvFallsThrough(files: map<string, seq<string>>, cwd: string, argv: seq<string>)
    ensures Strip(",") != []
    ensures EnvOrigin(map["ZIP_URLS" := ","]) == []
  {
    assert !IsSpace(',');
    StripKeepsNonSpaceHead(",");
    assert Split(",", ',') == ["", ""];
    assert Strip("") == [];
  }

  // ---------------------------------------------------------------------------
  // get_mode
  // ---------------------------------------------------------------------------

  datatype Mode = Download | Play | Both {
    /** The token the script uses for this mode. */
    function Name(): string
    {
      match this
      case Download => "download"
      case Play => "play"
      case Both => "both"
    }

    /** `mode in ("download", "both")`: the mode saves copies. */
    predicate Copies()
    {
      Download? || Both?
    }

    /** `mode in ("play", "both")`: the mode opens the videos. */
    predicate Plays()
    {
      Play? || Both?
    }
  }

  /** `mode if mode in ("download", "play", "both") else "both"`. */
  function ParseMode(token: string): (m: Mode)
    ensures token in {"download", "play", "both"} ==> m.Name() == token
    ensures token !in {"download", "play", "both"} ==> m == Both
  {
    if token == "download" then Download
    else if token == "play" then Play
    else Both
  }

  /** The recognised tokens and the modes are in one-to-one correspondence. */
  lemma ParseModeName(m: Mode)
    ensures ParseMode(m.Name()) == m
  {
  }

  predicate IsModeFlag(a: string)
  {
    a == "--mode" || a == "-m"
  }

  /** The first position at or after `i` holding `--mode`/`-m` followed by a
      token; the whole of `argv` is searched, program name included. */
  function FlagFrom(argv: seq<string>, i: nat): (r: Option<nat>)
    requires i <= |argv|
    decreases |argv| - i
    ensures r.Some? ==> i <= r.value && r.value + 1 < |argv| && IsModeFlag(argv[r.value])
    ensures r.Some? ==> forall j :: i <= j < r.value ==> !IsModeFlag(argv[j])
    ensures r.None? ==> forall j :: i <= j && j + 1 < |argv| ==> !IsModeFlag(argv[j])
  {
    if i + 1 >= |argv| then None
    else if IsModeFlag(argv[i]) then Some(i)
    else FlagFrom(argv, i + 1)
  }

  /** Reference definition of `get_mode`: the token after the first flag that
      has a successor, else the `MODE` variable (default `both`), lowercased
      and validated. */
  function ResolveMode(env: map<string, string>, argv: seq<string>): Mode
  {
    match FlagFrom(argv, 0)
    case Some(k) => ParseMode(Lower(argv[k + 1]))
    case None => ParseMode(Lower(GetEnv(env, "MODE", "both")))
  }

  /** `get_mode()`: start from the environment token, scan `argv` and stop at
      the first flag with a successor. */
  method GetMode(env: map<string, string>, argv: seq<string>) returns (mode: Mode)
    ensures mode == ResolveMode(env, argv)
  {
    var token := Lower(GetEnv(env, "MODE", "both"));
    var i := 0;
    while i < |argv|
      invariant 0 <= i <= |argv|
      invariant forall j :: 0 <= j < i && j + 1 < |argv| ==> !IsModeFlag(argv[j])
      invariant token == Lower(GetEnv(env, "MODE", "both"))
    {
      if IsModeFlag(argv[i]) && i + 1 < |argv| {
        token := Lower(argv[i + 1]);
        assert FlagFrom(argv, 0) == Some(i);
        break;
      }
      i := i + 1;
    }
    mode := ParseMode(token);
  }

  /** A flag with a successor overrides the environment; the first one wins. */
  lemma ModeFlagOverrides(env: map<string, string>, argv: seq<string>, k: nat)
    requires k + 1 < |argv| && IsModeFlag(argv[k])
    requires forall j :: 0 <= j < k ==> !IsModeFlag(argv[j])
    ensures ResolveMode(env, argv) == ParseMode(Lower(argv[k + 1]))
  {
    assert FlagFrom(argv, 0) == Some(k);
  }

  /** Without such a flag the `MODE` variable decides, and its absence means `both`. */
  lemma ModeFromEnvironment(env: map<string, string>, argv: seq<string>)
    requires forall j :: 0 <= j && j + 1 < |argv| ==> !IsModeFlag(argv[j])
    ensures ResolveMode(env, argv) == ParseMode(Lower(GetEnv(env, "MODE", "both")))
    ensures "MODE" !in env ==> ResolveMode(env, argv) == Both
  {
    assert FlagFrom(argv, 0) == None;
    assert Lower("both") == "both";
  }

  /** `argv[0]` is scanned too: a program named `-m` takes its first argument as the mode. */
  lemma ModeScansProgramName()
    ensures ResolveMode(map[], ["-m", "play"]) == Play
  {
    assert FlagFrom(["-m", "play"], 0) == Some(0);
    assert Lower("play") == "play";
  }

  /** `MODE` is lowercased but not stripped: `" Play"` is not recognised. */
  lemma ModeEnvNotStripped()
    ensures ResolveMode(map["MODE" := "PLAY"], ["prog"]) == Play
    ensures ResolveMode(map["MODE" := " play"], ["prog"]) == Both
  {
    assert FlagFrom(["prog"], 0) == None;
    assert Lower("PLAY") == "play";
    assert Lower(" play") == " play";
  }
}
