/**
 * The decisions the two download routes take: which file of a version to
 * serve and how to answer, when the client asked for JSON, which project and
 * version ids are let through, how the latest route turns its query
 * parameters into a cache key and an upstream query, and when a loader's
 * result is absent (and so never cached).
 */
module Routes {
  import opened Wrappers
  import Caching

  /** A file of a version: whether it is the primary one, and where to download it. */
  datatype FileInfo = FileInfo(primary: bool, url: string)

  /** The version document the upstream API returns. */
  datatype VersionDoc = VersionDoc(versionNumber: string, files: seq<FileInfo>)

  /** How a request is answered. */
  datatype Reply =
    | ErrorReply(status: int, message: string)
    | JsonReply(status: int, body: VersionDoc)
    | Redirect(status: int, location: string)

  // ---------------------------------------------------------------------------
  // File choice and the answer of respondVersion
  // ---------------------------------------------------------------------------

  /** The first file marked primary, as `find` on the file list returns it. */
  function FindPrimary(files: seq<FileInfo>): (r: Option<nat>)
    ensures r.Some? ==> r.value < |files| && files[r.value].primary
    ensures r.Some? ==> forall j | 0 <= j < r.value :: !files[j].primary
    ensures r.None? <==> forall j | 0 <= j < |files| :: !files[j].primary
  {
    if files == [] then None
    else if files[0].primary then Some(0)
    else
      match FindPrimary(files[1..])
      case None => None
      case Some(i) => Some(i + 1)
  }

  /**
   * Index `i` is the file to serve: the first primary file, or, when no file
   * is primary, the first file.
   */
  predicate Chosen(files: seq<FileInfo>, i: int)
  {
    && 0 <= i < |files|
    && ((files[i].primary && forall j | 0 <= j < i :: !files[j].primary)
        || (i == 0 && forall j | 0 <= j < |files| :: !files[j].primary))
  }

  /** The file respondVersion serves: the primary file, else the first, else none. */
  function ChooseFile(files: seq<FileInfo>): (r: Option<nat>)
    ensures r.None? <==> files == []
    ensures r.Some? ==> Chosen(files, r.value)
  {
    match FindPrimary(files)
    case Some(i) => Some(i)
    case None => if |files| > 0 then Some(0) else None
  }

  /** At most one index is the chosen one. */
  lemma ChosenUnique(files: seq<FileInfo>, i: int, j: int)
    requires Chosen(files, i) && Chosen(files, j)
    ensures i == j
  {
  }

  /** A primary file, when there is one, is always preferred over the first file. */
  lemma PrimaryPreferred(files: seq<FileInfo>, p: int)
    requires 0 <= p < |files| && files[p].primary
    ensures ChooseFile(files).Some? && files[ChooseFile(files).value].primary
    ensures ChooseFile(files).value <= p
  {
  }

  /**
   * The answer of respondVersion for a version document, when the client
   * asked for JSON (`json`) or not: a 404 error when there is no file and no
   * JSON was asked for, the document with 200 (a file was chosen) or 404 (none
   * was) when JSON was asked for, and otherwise a 303 redirect to the chosen
   * file.
   */
  function RespondVersion(doc: VersionDoc, json: bool): (r: Reply)
    ensures r.ErrorReply? <==> !json && doc.files == []
    ensures r.ErrorReply? ==> r.status == 404 && r.message == "no primary file found"
    ensures r.JsonReply? <==> json
    ensures r.JsonReply? ==> r.body == doc && (r.status == 200 <==> doc.files != [])
    ensures r.JsonReply? ==> r.status == 200 || r.status == 404
    ensures r.Redirect? <==> !json && doc.files != []
    ensures r.Redirect? ==> r.status == 303 && exists i :: Chosen(doc.files, i) && r.location == doc.files[i].url
  {
    var choice := ChooseFile(doc.files);
    if choice.None? && !json then ErrorReply(404, "no primary file found")
    else if json then JsonReply(if choice.Some? then 200 else 404, doc)
    else Redirect(303, doc.files[choice.value].url)
  }

  // ---------------------------------------------------------------------------
  // Whether JSON was asked for
  // ---------------------------------------------------------------------------

  /** `pat` occurs in `s` starting at index `i`. */
  predicate OccursAt(s: string, pat: string, i: int)
  {
    0 <= i && i + |pat| <= |s| && s[i..i + |pat|] == pat
  }

  /** `pat` occurs somewhere in `s`, as `includes` tests it. */
  predicate Includes(s: string, pat: string)
  {
    exists i | 0 <= i <= |s| - |pat| :: OccursAt(s, pat, i)
  }

  /**
   * JSON is asked for when the `json` query parameter is present, whatever its
   * value, or when the Accept header is present and contains "json".
   */
  predicate WantsJson(jsonParam: Option<string>, accept: Option<string>)
  {
    jsonParam.Some? || (accept.Some? && Includes(accept.value, "json"))
  }

  /** A present `json` parameter decides alone; otherwise the Accept header decides. */
  lemma WantsJsonCases(jsonParam: Option<string>, accept: Option<string>)
    ensures jsonParam.Some? ==> WantsJson(jsonParam, accept)
    ensures accept.None? ==> (WantsJson(jsonParam, accept) <==> jsonParam.Some?)
    ensures WantsJson(None, Some("application/json"))
    ensures !WantsJson(None, Some("text/html"))
    ensures !WantsJson(None, Some(""))
  {
    assert OccursAt("application/json", "json", 12);
    NoJNoJson("text/html");
  }

  /** A string without the letter 'j' does not contain "json". */
  lemma NoJNoJson(s: string)
    requires 'j' !in s
    ensures !Includes(s, "json")
  {
    forall i | 0 <= i <= |s| - 4
      ensures !OccursAt(s, "json", i)
    {
      assert s[i..i + 4][0] == s[i] != 'j';
    }
  }

  // ---------------------------------------------------------------------------
  // Request validators
  // ---------------------------------------------------------------------------

  /** The url-safe characters project ids are made of: a-z, A-Z, 0-9 and ! @ $ ( ) ` . + , _ " -. */
  predicate UrlSafe(c: char)
  {
    || ('a' <= c <= 'z') || ('A' <= c <= 'Z') || ('0' <= c <= '9')
    || c in "!@$()`.+,_\"-"
  }

  /** The project regex, anchored at both ends: 3 to 64 url-safe characters. */
  predicate ProjectIdAccepted(s: string)
  {
    3 <= |s| <= 64 && forall i | 0 <= i < |s| :: UrlSafe(s[i])
  }

  /** An ASCII letter or digit, a base62 digit. */
  predicate Base62(c: char)
  {
    ('a' <= c <= 'z') || ('A' <= c <= 'Z') || ('0' <= c <= '9')
  }

  /** Every character is a base62 digit. */
  predicate AllBase62(s: string)
  {
    forall i | 0 <= i < |s| :: Base62(s[i])
  }

  /** Base62 digits are url-safe. */
  lemma Base62IsUrlSafe(c: char)
    requires Base62(c)
    ensures UrlSafe(c)
  {
  }

  /**
   * An accepted project id is a single path segment that is not a dot segment:
   * no '/', '?', '#', '%' or '\', and neither "." nor "..".
   */
  lemma ProjectIdIsOneSegment(s: string)
    requires ProjectIdAccepted(s)
    ensures '/' !in s && '?' !in s && '#' !in s && '%' !in s && '\\' !in s
    ensures s != "." && s != ".."
  {
  }

  /** Base62 slugs and ids of 3 to 64 characters are accepted as project ids. */
  lemma ProjectIdAcceptsBase62(s: string)
    requires 3 <= |s| <= 64 && AllBase62(s)
    ensures ProjectIdAccepted(s)
  {
    forall i | 0 <= i < |s|
      ensures UrlSafe(s[i])
    {
      Base62IsUrlSafe(s[i]);
    }
  }

  /** Length of a base62 version id. */
  const VERSION_ID_LENGTH: nat := 8

  /** Eight base62 digits start at index `i` of `s`. */
  predicate Base62RunAt(s: string, i: int)
  {
    0 <= i && i + VERSION_ID_LENGTH <= |s| && AllBase62(s[i..i + VERSION_ID_LENGTH])
  }

  /** The version regex as written: unanchored, so any string holding eight base62 digits in a row passes. */
  predicate VersionIdAccepted(s: string)
  {
    exists i | 0 <= i <= |s| - VERSION_ID_LENGTH :: Base62RunAt(s, i)
  }

  /** Whatever surrounds a run of eight base62 digits, the version regex accepts it. */
  lemma VersionIdWithRun(pre: string, run: string, post: string)
    requires |run| == VERSION_ID_LENGTH && AllBase62(run)
    ensures VersionIdAccepted(pre + run + post)
  {
    var s := pre + run + post;
    assert s[|pre|..|pre| + VERSION_ID_LENGTH] == run;
    assert Base62RunAt(s, |pre|);
  }

  /** Strings shorter than eight characters never pass the version regex. */
  lemma VersionIdTooShort(s: string)
    requires |s| < VERSION_ID_LENGTH
    ensures !VersionIdAccepted(s)
  {
  }

  /**
   * The unanchored version regex lets a relative path through: the id
   * "../project/AAAAAAAA" passes, although it holds '/' and a dot segment that
   * the upstream URL resolves against.
   */
  lemma VersionIdTraversal()
    ensures VersionIdAccepted("../project/AAAAAAAA")
    ensures '/' in "../project/AAAAAAAA"
  {
    VersionIdWithRun("../project/", "AAAAAAAA", "");
    assert "../project/" + "AAAAAAAA" + "" == "../project/AAAAAAAA";
  }

  /** The version check as evidently intended: exactly eight base62 digits. */
  predicate VersionIdAcceptedAnchored(s: string)
  {
    |s| == VERSION_ID_LENGTH && AllBase62(s)
  }

  /**
   * The anchored check lets through only single path segments made of base62
   * digits, accepts nothing the written check rejects, and rejects the
   * relative path above.
   */
  lemma AnchoredVersionIdIsOneSegment(s: string)
    requires VersionIdAcceptedAnchored(s)
    ensures '/' !in s && '.' !in s && '?' !in s && '#' !in s && '%' !in s && '\\' !in s
    ensures VersionIdAccepted(s)
    ensures !VersionIdAcceptedAnchored("../project/AAAAAAAA")
  {
    assert s[0..VERSION_ID_LENGTH] == s;
    assert Base62RunAt(s, 0);
  }

  /** The project check of the latest route: a 400 error unless the id is accepted. */
  function CheckProject(project: string): (r: Option<Reply>)
    ensures r.None? <==> ProjectIdAccepted(project)
    ensures r.Some? ==> r.value == ErrorReply(400, "invalid project specified")
  {
    if ProjectIdAccepted(project) then None else Some(ErrorReply(400, "invalid project specified"))
  }

  /** The version check of the version route, as written: a 400 error unless the regex matches. */
  function CheckVersion(version: string): (r: Option<Reply>)
    ensures r.None? <==> VersionIdAccepted(version)
    ensures r.Some? ==> r.value == ErrorReply(400, "invalid version specified")
  {
    if VersionIdAccepted(version) then None else Some(ErrorReply(400, "invalid version specified"))
  }

  /** The version check with the anchored regex. */
  function CheckVersionAnchored(version: string): (r: Option<Reply>)
    ensures r.None? <==> VersionIdAcceptedAnchored(version)
    ensures r.Some? ==> r.value == ErrorReply(400, "invalid version specified")
  {
    if VersionIdAcceptedAnchored(version) then None else Some(ErrorReply(400, "invalid version specified"))
  }

  /** Every version the anchored check lets through, the written one does too. */
  lemma AnchoredCheckIsStricter(version: string)
    ensures CheckVersionAnchored(version).None? ==> CheckVersion(version).None?
    ensures CheckVersion("../project/AAAAAAAA").None? && CheckVersionAnchored("../project/AAAAAAAA").Some?
  {
    if VersionIdAcceptedAnchored(version) {
      AnchoredVersionIdIsOneSegment(version);
    }
    VersionIdTraversal();
    AnchoredVersionIdIsOneSegment("AAAAAAAA");
  }

  // ---------------------------------------------------------------------------
  // Cache key and upstream query of the latest route
  // ---------------------------------------------------------------------------

  /** The query parameters the latest route forwards, in the order it reads them. */
  const QUERY_KEYS: seq<string> := ["loaders", "game_versions", "featured"]

  /** The cache key of the latest route: the project and the parsed parameters that were given. */
  datatype LatestKey<J> = LatestKey(project: string, loaders: Option<J>, gameVersions: Option<J>, featured: Option<J>)

  /** The parameter of a cache key with the given name; names it has no field for read as absent. */
  function Field<J>(k: LatestKey<J>, name: string): Option<J>
  {
    if name == "loaders" then k.loaders
    else if name == "game_versions" then k.gameVersions
    else if name == "featured" then k.featured
    else None
  }

  /** Assigning the parameter `name` of a cache key (one of the three forwarded parameters). */
  function SetField<J>(k: LatestKey<J>, name: string, v: J): (r: LatestKey<J>)
    requires name in QUERY_KEYS
    ensures r.project == k.project && Field(r, name) == Some(v)
    ensures forall other | other != name :: Field(r, other) == Field(k, other)
  {
    if name == "loaders" then k.(loaders := Some(v))
    else if name == "game_versions" then k.(gameVersions := Some(v))
    else k.(featured := Some(v))
  }

  /** A finished key and query: the cache key and the (name, serialised value) pairs in the order set. */
  datatype Built<J> = Built(key: LatestKey<J>, query: seq<(string, string)>)

  /**
   * The outcome of reading the parameters `names` in order from the raw query
   * `raw`: a parse failure names the first parameter that failed; otherwise
   * every present parameter is set in the key and appended to the query.
   * `parse` stands for JSON.parse (None when it throws), `stringify` for
   * JSON.stringify.
   */
  function Collect<J>(project: string, names: seq<string>, raw: map<string, string>,
                      parse: string -> Option<J>, stringify: J -> string): Result<Built<J>, string>
    requires forall n | n in names :: n in QUERY_KEYS
  {
    if names == [] then Success(Built(LatestKey(project, None, None, None), []))
    else
      var name := names[|names| - 1];
      match Collect(project, names[..|names| - 1], raw, parse, stringify)
      case Failure(failed) => Failure(failed)
      case Success(b) =>
        if name !in raw then Success(b)
        else
          match parse(raw[name])
          case None => Failure(name)
          case Some(v) => Success(Built(SetField(b.key, name, v), b.query + [(name, stringify(v))]))
  }

  /** Parameter `names[i]` is present but does not parse, and every earlier one is absent or parses. */
  predicate FirstFailure<J>(names: seq<string>, raw: map<string, string>, parse: string -> Option<J>, i: int)
  {
    && 0 <= i < |names|
    && names[i] in raw && parse(raw[names[i]]).None?
    && forall j | 0 <= j < i :: names[j] !in raw || parse(raw[names[j]]).Some?
  }

  /** `xs` is `ys` with some elements left out: the elements of `xs` occur in `ys` in the same order. */
  predicate Subsequence<T(==)>(xs: seq<T>, ys: seq<T>)
    decreases |ys|
  {
    if xs == [] then true
    else if ys == [] then false
    else if xs[0] == ys[0] then Subsequence(xs[1..], ys[1..])
    else Subsequence(xs, ys[1..])
  }

  /** The present parameters among `names`: exactly the names given in the raw query, in the order of `names`. */
  function Present(names: seq<string>, raw: map<string, string>): (r: seq<string>)
    ensures forall n :: n in r <==> n in names && n in raw
    ensures Subsequence(r, names)
    ensures |r| <= |names|
  {
    if names == [] then []
    else
      var rest := Present(names[1..], raw);
      if names[0] in raw then
        assert ([names[0]] + rest)[1..] == rest;
        [names[0]] + rest
      else
        assert rest != [] ==> rest[0] in raw;
        rest
  }

  /** Filtering one more parameter appends it when present. */
  lemma {:induction false} PresentSnoc(names: seq<string>, n: string, raw: map<string, string>)
    ensures Present(names + [n], raw) == Present(names, raw) + (if n in raw then [n] else [])
  {
    if names == [] {
      assert names + [n] == [n];
    } else {
      assert (names + [n])[1..] == names[1..] + [n];
      PresentSnoc(names[1..], n, raw);
    }
  }

  /**
   * Reading the parameters cancels exactly when some parameter is the first
   * one that fails to parse, and then names it.
   */
  lemma {:induction false} CollectCancels<J>(project: string, names: seq<string>, raw: map<string, string>,
                                             parse: string -> Option<J>, stringify: J -> string)
    requires forall n | n in names :: n in QUERY_KEYS
    ensures Collect(project, names, raw, parse, stringify).Failure? <==> exists i :: FirstFailure(names, raw, parse, i)
    ensures forall i | FirstFailure(names, raw, parse, i) ::
              Collect(project, names, raw, parse, stringify) == Failure(names[i])
  {
    if names != [] {
      var init := names[..|names| - 1];
      var last := |names| - 1;
      CollectCancels(project, init, raw, parse, stringify);
      forall i | FirstFailure(init, raw, parse, i)
        ensures FirstFailure(names, raw, parse, i)
      {
        assert names[i] == init[i];
      }
      forall i | FirstFailure(names, raw, parse, i) && i < last
        ensures FirstFailure(init, raw, parse, i)
      {
        assert names[i] == init[i];
      }
      if Collect(project, init, raw, parse, stringify).Success? {
        forall j | 0 <= j < last
          ensures names[j] !in raw || parse(raw[names[j]]).Some?
        {
          assert names[j] == init[j];
          if names[j] in raw && parse(raw[names[j]]).None? {
            FirstFailureExists(init, raw, parse, j);
          }
        }
        if names[last] in raw && parse(raw[names[last]]).None? {
          assert FirstFailure(names, raw, parse, last);
        }
      }
    }
  }

  /** A present parameter that fails to parse has a first such parameter at or before it. */
  lemma {:induction false} FirstFailureExists<J>(names: seq<string>, raw: map<string, string>, parse: string -> Option<J>, j: int)
    requires 0 <= j < |names| && names[j] in raw && parse(raw[names[j]]).None?
    ensures exists k :: 0 <= k <= j && FirstFailure(names, raw, parse, k)
    decreases j
  {
    if forall i | 0 <= i < j :: names[i] !in raw || parse(raw[names[i]]).Some? {
      assert FirstFailure(names, raw, parse, j);
    } else {
      var i :| 0 <= i < j && names[i] in raw && parse(raw[names[i]]).None?;
      FirstFailureExists(names, raw, parse, i);
    }
  }

  /**
   * When no parameter fails, the query holds exactly the present parameters,
   * in the order read, each with its parsed value serialised again, and the
   * key holds the project and each present parameter's parsed value.
   */
  lemma {:induction false} CollectBuilds<J>(project: string, names: seq<string>, raw: map<string, string>,
                                            parse: string -> Option<J>, stringify: J -> string)
    requires forall n | n in names :: n in QUERY_KEYS
    requires Collect(project, names, raw, parse, stringify).Success?
    ensures forall n | n in names && n in raw :: parse(raw[n]).Some?
    ensures var b := Collect(project, names, raw, parse, stringify).value;
            var p := Present(names, raw);
            && b.key.project == project
            && |b.query| == |p|
            && (forall t | 0 <= t < |p| :: b.query[t] == (p[t], stringify(parse(raw[p[t]]).value)))
    ensures var b := Collect(project, names, raw, parse, stringify).value;
            forall n :: Field(b.key, n) == (if n in names && n in raw then parse(raw[n]) else None)
  {
    if names != [] {
      var init := names[..|names| - 1];
      var name := names[|names| - 1];
      assert names == init + [name];
      CollectBuilds(project, init, raw, parse, stringify);
      PresentSnoc(init, name, raw);
      var b := Collect(project, init, raw, parse, stringify).value;
      var c := Collect(project, names, raw, parse, stringify).value;
      forall n
        ensures Field(c.key, n) == (if n in names && n in raw then parse(raw[n]) else None)
      {
        assert n in names <==> n in init || n == name;
      }
    }
  }

  /**
   * The loop of the latest route over QUERY_KEYS: each present parameter is
   * parsed; the first failure sets `cancel` and makes the 400 answer, and
   * every later parameter is skipped; otherwise the parsed value goes into the
   * cache key and its serialisation into the upstream query.
   */
  method BuildLatestKey<J>(project: string, raw: map<string, string>, parse: string -> Option<J>, stringify: J -> string)
    returns (cacheKey: LatestKey<J>, query: seq<(string, string)>, cancel: bool, error: Option<Reply>)
    ensures cancel <==> Collect(project, QUERY_KEYS, raw, parse, stringify).Failure?
    ensures cancel ==> error == Some(ErrorReply(400, "invalid query parameter for " + Collect(project, QUERY_KEYS, raw, parse, stringify).error))
    ensures !cancel ==> error.None? && Built(cacheKey, query) == Collect(project, QUERY_KEYS, raw, parse, stringify).value
  {
    cacheKey := LatestKey(project, None, None, None);
    query := [];
    cancel := false;
    error := None;
    var i := 0;
    while i < |QUERY_KEYS|
      invariant 0 <= i <= |QUERY_KEYS|
      invariant cancel <==> Collect(project, QUERY_KEYS[..i], raw, parse, stringify).Failure?
      invariant cancel ==> error == Some(ErrorReply(400, "invalid query parameter for " + Collect(project, QUERY_KEYS[..i], raw, parse, stringify).error))
      invariant !cancel ==> error.None? && Built(cacheKey, query) == Collect(project, QUERY_KEYS[..i], raw, parse, stringify).value
    {
      var key := QUERY_KEYS[i];
      assert QUERY_KEYS[..i + 1][..i] == QUERY_KEYS[..i];
      if !cancel {
        if key in raw {
          var parsed := parse(raw[key]);
          if parsed.None? {
            cancel := true;
            error := Some(ErrorReply(400, "invalid query parameter for " + key));
          } else {
            cacheKey := SetField(cacheKey, key, parsed.value);
            query := query + [(key, stringify(parsed.value))];
          }
        }
      }
      i := i + 1;
    }
    assert QUERY_KEYS[..i] == QUERY_KEYS;
  }

  /**
   * The checks of the latest route before the cache is consulted: the project
   * id first, then the query parameters; either failure ends the request with
   * a 400 answer, otherwise the key and query to look up.
   */
  function LatestRequest<J>(project: string, raw: map<string, string>, parse: string -> Option<J>, stringify: J -> string)
    : (r: Result<Built<J>, Reply>)
    ensures !ProjectIdAccepted(project) ==> r == Failure(ErrorReply(400, "invalid project specified"))
    ensures ProjectIdAccepted(project) ==>
              (r.Failure? <==> exists i :: FirstFailure(QUERY_KEYS, raw, parse, i))
    ensures ProjectIdAccepted(project) ==>
              forall i | FirstFailure(QUERY_KEYS, raw, parse, i) ::
                r == Failure(ErrorReply(400, "invalid query parameter for " + QUERY_KEYS[i]))
    ensures r.Success? ==> r.value.key.project == project
  {
    CollectCancels(project, QUERY_KEYS, raw, parse, stringify);
    match CheckProject(project)
    case Some(reply) => Failure(reply)
    case None =>
      match Collect(project, QUERY_KEYS, raw, parse, stringify)
      case Failure(name) => Failure(ErrorReply(400, "invalid query parameter for " + name))
      case Success(b) =>
        CollectBuilds(project, QUERY_KEYS, raw, parse, stringify);
        Success(b)
  }

  /** With every parameter parsing, the key holds exactly the given parameters, and the query lists them in order. */
  lemma LatestKeyFields<J>(project: string, raw: map<string, string>, parse: string -> Option<J>, stringify: J -> string)
    requires ProjectIdAccepted(project)
    requires forall n | n in QUERY_KEYS && n in raw :: parse(raw[n]).Some?
    ensures LatestRequest(project, raw, parse, stringify).Success?
    ensures var k := LatestRequest(project, raw, parse, stringify).value.key;
            && k.loaders == (if "loaders" in raw then parse(raw["loaders"]) else None)
            && k.gameVersions == (if "game_versions" in raw then parse(raw["game_versions"]) else None)
            && k.featured == (if "featured" in raw then parse(raw["featured"]) else None)
    ensures |LatestRequest(project, raw, parse, stringify).value.query| == |Present(QUERY_KEYS, raw)|
  {
    CollectCancels(project, QUERY_KEYS, raw, parse, stringify);
    CollectBuilds(project, QUERY_KEYS, raw, parse, stringify);
    var k := Collect(project, QUERY_KEYS, raw, parse, stringify).value.key;
    assert Field(k, "loaders") == k.loaders;
    assert Field(k, "game_versions") == k.gameVersions;
    assert Field(k, "featured") == k.featured;
  }

  // ---------------------------------------------------------------------------
  // Loaders
  // ---------------------------------------------------------------------------

  /** How long the latest route caches a version list, in milliseconds (five minutes). */
  const LATEST_CACHE_MILLIS: int := 5 * 60 * 1000

  /** How long the version route caches a version document, in milliseconds (one hour). */
  const VERSION_CACHE_MILLIS: int := 60 * 60 * 1000

  /**
   * In the latest route's cache, a version list last accessed at `t` is served
   * from the cache by every call before `t` plus five minutes, and from the
   * call at that instant on the loader is asked again.
   */
  lemma LatestCachePeriod(c: Caching.Cache<seq<VersionDoc>>, key: string, now: int,
                          loaded: Option<seq<VersionDoc>>, loadTime: int)
    requires c.expireMillis == LATEST_CACHE_MILLIS && key in c.store
    ensures now < c.store[key].lastAccess + 300000 ==>
              Caching.GetStep(c, key, now, loaded, loadTime).result == Some(c.store[key].value)
    ensures now >= c.store[key].lastAccess + 300000 ==>
              Caching.GetStep(c, key, now, loaded, loadTime).result == loaded
  {
    if now < c.store[key].lastAccess + 300000 {
      Caching.HitPath(c, key, now, loaded, loadTime, loaded, loadTime);
    } else {
      Caching.MissUsesLoader(c, key, now, loaded, loadTime);
    }
  }

  /**
   * In the version route's cache, a version document last accessed at `t` is
   * served from the cache by every call before `t` plus one hour, and from the
   * call at that instant on the loader is asked again.
   */
  lemma VersionCachePeriod(c: Caching.Cache<VersionDoc>, key: string, now: int,
                           loaded: Option<VersionDoc>, loadTime: int)
    requires c.expireMillis == VERSION_CACHE_MILLIS && key in c.store
    ensures now < c.store[key].lastAccess + 3600000 ==>
              Caching.GetStep(c, key, now, loaded, loadTime).result == Some(c.store[key].value)
    ensures now >= c.store[key].lastAccess + 3600000 ==>
              Caching.GetStep(c, key, now, loaded, loadTime).result == loaded
  {
    if now < c.store[key].lastAccess + 3600000 {
      Caching.HitPath(c, key, now, loaded, loadTime, loaded, loadTime);
    } else {
      Caching.MissUsesLoader(c, key, now, loaded, loadTime);
    }
  }

  /** What a loader hands back to the cache, and the error answer it sent, if any. */
  datatype Load<T> = Load(value: Option<T>, sent: Option<Reply>)

  /**
   * The latest route's loader on an upstream answer with status `status` and
   * body `versions`: a non-200 status is passed on with an error, an empty
   * list becomes a 404, and only a non-empty list is handed to the cache.
   */
  function LatestLoader(status: int, versions: seq<VersionDoc>): (r: Load<seq<VersionDoc>>)
    ensures r.value.Some? <==> status == 200 && |versions| >= 1
    ensures r.value.Some? ==> r.value.value == versions && |r.value.value| >= 1 && r.sent.None?
    ensures r.value.None? <==> r.sent.Some?
    ensures status != 200 ==> r.sent == Some(ErrorReply(status, "received invalid status code from modrinth"))
    ensures status == 200 && |versions| < 1 ==> r.sent == Some(ErrorReply(404, "no version found for query"))
  {
    if status != 200 then Load(None, Some(ErrorReply(status, "received invalid status code from modrinth")))
    else if |versions| < 1 then Load(None, Some(ErrorReply(404, "no version found for query")))
    else Load(Some(versions), None)
  }

  /** The version route's loader: absent, with an error, exactly when the status is not 200. */
  function VersionLoader(status: int, doc: VersionDoc): (r: Load<VersionDoc>)
    ensures r.value.Some? <==> status == 200
    ensures r.value.Some? ==> r.value.value == doc && r.sent.None?
    ensures r.value.None? ==> r.sent == Some(ErrorReply(status, "received invalid status code from modrinth"))
  {
    if status != 200 then Load(None, Some(ErrorReply(status, "received invalid status code from modrinth")))
    else Load(Some(doc), None)
  }

  /**
   * A failed upstream answer is never cached: a `get` whose loader gets a
   * non-200 status or an empty version list leaves no entry for the key,
   * answers absent unless a live entry was found, and the next call on the
   * key consults the loader again.
   */
  lemma FailedUpstreamNeverCached(c: Caching.Cache<seq<VersionDoc>>, key: string, now: int,
                                  status: int, versions: seq<VersionDoc>, loadTime: int)
    requires status != 200 || |versions| < 1
    requires !Caching.Hit(c, key, now)
    ensures var o := Caching.GetStep(c, key, now, LatestLoader(status, versions).value, loadTime);
            o.result.None? && key !in o.after.store
  {
    Caching.AbsentNotCached(c, key, now, loadTime);
  }

  /** The same for the version route: a non-200 answer is never cached. */
  lemma FailedVersionNeverCached(c: Caching.Cache<VersionDoc>, key: string, now: int,
                                 status: int, doc: VersionDoc, loadTime: int)
    requires status != 200
    requires !Caching.Hit(c, key, now)
    ensures var o := Caching.GetStep(c, key, now, VersionLoader(status, doc).value, loadTime);
            o.result.None? && key !in o.after.store
  {
    Caching.AbsentNotCached(c, key, now, loadTime);
  }

  /**
   * What the latest route answers after the cache lookup: the newest version
   * (the first of the list) through respondVersion; nothing more when the
   * lookup came back absent, since the loader already sent its error.
   */
  function LatestAnswer(got: Option<seq<VersionDoc>>, json: bool): (r: Option<Reply>)
    requires got.Some? ==> |got.value| >= 1
    ensures r.Some? <==> got.Some?
    ensures r.Some? ==> r.value == RespondVersion(got.value[0], json)
  {
    if got.Some? then Some(RespondVersion(got.value[0], json)) else None
  }
}
