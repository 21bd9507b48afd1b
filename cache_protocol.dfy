/** The desktop app's disk cache behind its custom URL protocol: a URL's cached copy lives in
    the cache directory under the URL's base64url encoding, followed by `.` and the extension
    of the URL's path. `Fetch` reads that file, or fetches the URL and writes it.

    The cache directory is a map from file name to contents. Parsing a URL (`Url::parse`, of
    which only the path is used) and guessing a MIME type from an extension (`MimeGuess`) are
    functions the handler is given; the outcomes of the network request, the file read and the
    file write are parameters of `Fetch`. A URL is the sequence of its UTF-8 bytes. */
module CacheProtocol {
  import opened Strings
  import Base64Url

  type Bytes = seq<Base64Url.byte>

  /** The parts of a path that `Path::components` drops: empty ones (from repeated or
      trailing slashes) and `.`. */
  predicate Ignorable(part: string) {
    part == "" || part == "."
  }

  /** Every part after index `i` is dropped. */
  predicate OnlyIgnorableAfter(parts: seq<string>, i: int) {
    forall j :: 0 <= j < |parts| && i < j ==> Ignorable(parts[j])
  }

  /** What `Components` promises of the components `comps` of the parts `parts`. */
  ghost predicate KeepsNormalParts(parts: seq<string>, comps: seq<string>) {
    // a part is kept exactly when it is not dropped
    (forall c :: c in comps <==> c in parts && !Ignorable(c)) &&
    (|comps| == 0 <==> OnlyIgnorableAfter(parts, -1)) &&
    // the last component is the last part that is kept
    (|comps| > 0 ==>
      exists i :: 0 <= i < |parts| && parts[i] == comps[|comps| - 1] && OnlyIgnorableAfter(parts, i))
  }

  /** The components of a path that `Path::components` reports as normal: the parts between
      slashes, without the empty ones and without `.`. */
  function Components(parts: seq<string>): (comps: seq<string>)
    requires forall i :: 0 <= i < |parts| ==> '/' !in parts[i]
    ensures forall i :: 0 <= i < |comps| ==> !Ignorable(comps[i]) && '/' !in comps[i]
    ensures KeepsNormalParts(parts, comps)
    decreases |parts|
  {
    if |parts| == 0 then []
    else
      var rest := Components(parts[1..]);
      ComponentsStep(parts, rest);
      if Ignorable(parts[0]) then rest else [parts[0]] + rest
  }

  /** One step of `Components`: dropping or keeping the first part keeps the promise. */
  lemma ComponentsStep(parts: seq<string>, rest: seq<string>)
    requires |parts| > 0 && KeepsNormalParts(parts[1..], rest)
    ensures KeepsNormalParts(parts, if Ignorable(parts[0]) then rest else [parts[0]] + rest)
  {
    var tail := parts[1..];
    assert parts == [parts[0]] + tail;
    assert forall j :: 0 < j < |parts| ==> parts[j] == tail[j - 1];
    assert OnlyIgnorableAfter(parts, -1) <==> Ignorable(parts[0]) && OnlyIgnorableAfter(tail, -1);
    if |rest| > 0 {
      var i :| 0 <= i < |tail| && tail[i] == rest[|rest| - 1] && OnlyIgnorableAfter(tail, i);
      assert parts[i + 1] == rest[|rest| - 1] && OnlyIgnorableAfter(parts, i + 1);
    } else if !Ignorable(parts[0]) {
      assert OnlyIgnorableAfter(parts, 0);
    }
  }

  /** `Components` in the other direction: one more part at the end adds it as the last
      component unless it is dropped; with `Components([]) == []` this fixes the order. */
  lemma {:induction false} ComponentsSnoc(parts: seq<string>, p: string)
    requires forall i :: 0 <= i < |parts| ==> '/' !in parts[i]
    requires '/' !in p
    ensures Components(parts + [p]) == Components(parts) + (if Ignorable(p) then [] else [p])
    decreases |parts|
  {
    var extended := parts + [p];
    if |parts| == 0 {
      assert extended[1..] == [];
    } else {
      assert extended[1..] == parts[1..] + [p];
      ComponentsSnoc(parts[1..], p);
    }
  }

  /** `n` is a part after which every part is dropped. */
  ghost predicate IsLastKept(parts: seq<string>, n: string) {
    exists i :: 0 <= i < |parts| && parts[i] == n && OnlyIgnorableAfter(parts, i)
  }

  /** `Path::file_name`: the last component, unless it is `..` or there is none. */
  function FileName(path: string): (name: Option<string>)
    ensures name.Some? ==> !Ignorable(name.value) && name.value != ".." && '/' !in name.value
    // a file name is a part after which every part is dropped, i.e. the last component
    ensures name.Some? ==> IsLastKept(Split(path, '/'), name.value)
    // there is none when no part is kept, or the last one kept is `..`
    ensures var parts := Split(path, '/');
      name.None? ==> forall i :: 0 <= i < |parts| && OnlyIgnorableAfter(parts, i) ==>
        Ignorable(parts[i]) || parts[i] == ".."
  {
    var parts := Split(path, '/');
    var comps := Components(parts);
    LastComponent(parts, comps);
    if |comps| == 0 || comps[|comps| - 1] == ".." then None
    else
      var last := comps[|comps| - 1];
      assert IsLastKept(parts, last);
      Some(last)
  }

  /** Where the last component sits among the parts: after it every part is dropped, and no
      part that is kept comes after it. */
  lemma LastComponent(parts: seq<string>, comps: seq<string>)
    requires KeepsNormalParts(parts, comps)
    ensures |comps| > 0 ==>
      exists i :: 0 <= i < |parts| && parts[i] == comps[|comps| - 1] && OnlyIgnorableAfter(parts, i)
    ensures |comps| == 0 || comps[|comps| - 1] == ".." ==>
      forall i :: 0 <= i < |parts| && OnlyIgnorableAfter(parts, i) ==> Ignorable(parts[i]) || parts[i] == ".."
  {
    if |comps| > 0 && comps[|comps| - 1] == ".." {
      var last :| 0 <= last < |parts| && parts[last] == ".." && OnlyIgnorableAfter(parts, last);
      assert !Ignorable(parts[last]);
      forall i | 0 <= i < |parts| && OnlyIgnorableAfter(parts, i)
        ensures Ignorable(parts[i]) || parts[i] == ".."
      {
        assert i >= last;
        if i > last {
          assert Ignorable(parts[i]);
        }
      }
    }
  }

  /** The extension of a file name as `Path::extension` finds it (`rsplit_file_at_dot`): the
      text after the last `.`, except for `..`, a name without `.`, and a name whose only `.`
      starts it. */
  function NameExtension(name: string): (ext: Option<string>)
    ensures ext.Some? ==> '.' !in ext.value
    ensures ext.Some? ==> exists k :: 0 < k < |name| && name[k] == '.' && ext.value == name[k + 1..]
    ensures ext.None? <==> name == ".." || forall k :: 0 < k < |name| ==> name[k] != '.'
  {
    if name == ".." then None
    else
      var parts := Split(name, '.');
      var after := parts[|parts| - 1];
      SplitLastPart(name, '.');
      assert forall k :: |name| - |after| <= k < |name| ==> name[k] == after[k - (|name| - |after|)];
      if |parts| == 1 || |after| + 1 == |name| then None
      else
        assert |after| < |name|;
        Some(after)
  }

  /** `Path::extension`: the extension of the path's file name. */
  function PathExtension(path: string): (ext: Option<string>)
    ensures FileName(path).None? ==> ext.None?
    ensures FileName(path).Some? ==> ext == NameExtension(FileName(path).value)
    ensures ext.Some? ==> '.' !in ext.value && '/' !in ext.value
  {
    match FileName(path)
    case None => None
    case Some(name) =>
      var ext := NameExtension(name);
      assert ext.Some? ==> '/' !in ext.value by {
        if ext.Some? {
          var parts := Split(name, '.');
          JoinSplit(name, '.');
          JoinHasParts(parts, '.', |parts| - 1);
        }
      }
      ext
  }

  /** Every part of a split string is a substring of it: characters of a part are characters
      of the joined string. */
  lemma {:induction false} JoinHasParts(parts: seq<string>, sep: char, k: nat)
    requires |parts| >= 1 && k < |parts|
    ensures forall c :: c in parts[k] ==> c in Join(parts, sep)
    decreases |parts|
  {
    if |parts| > 1 {
      var j := Join(parts, sep);
      assert j == parts[0] + [sep] + Join(parts[1..], sep);
      if k > 0 {
        JoinHasParts(parts[1..], sep, k - 1);
        assert parts[1..][k - 1] == parts[k];
        forall c | c in parts[k] ensures c in j {
          assert c in Join(parts[1..], sep);
        }
      }
    }
  }

  /** `extract_extension_from_url`: the extension of the path of the parsed URL (which has no
      query and no fragment), or nothing when the URL does not parse or its path has none. */
  function ExtractExtension(parsePath: Bytes -> Option<string>, url: Bytes): (ext: Option<string>)
    ensures parsePath(url).None? ==> ext.None?
    ensures parsePath(url).Some? ==> ext == PathExtension(parsePath(url).value)
    ensures ext.Some? ==> '.' !in ext.value && '/' !in ext.value
  {
    match parsePath(url)
    case None => None
    case Some(path) => PathExtension(path)
  }

  /** `get_cache_path`: the name, inside the cache directory, of the file for a URL. */
  function CacheFileName(url: Bytes, extension: Option<string>): string {
    match extension
    case None => Base64Url.Encode(url)
    case Some(ext) => Base64Url.Encode(url) + "." + ext
  }

  /** Distinct URLs, or one URL with and without an extension, or with two different
      extensions, get distinct file names (names that differ only in letter case are
      distinct here; the directory matches names exactly). */
  lemma CacheFileNameInjective(u1: Bytes, e1: Option<string>, u2: Bytes, e2: Option<string>)
    requires CacheFileName(u1, e1) == CacheFileName(u2, e2)
    ensures u1 == u2 && e1 == e2
  {
    var s1, s2 := Base64Url.Encode(u1), Base64Url.Encode(u2);
    Base64Url.EncodeAlphabet(u1);
    Base64Url.EncodeAlphabet(u2);
    var n := CacheFileName(u1, e1);
    if e1.Some? && e2.Some? {
      // the first `.` of the name ends the encoding
      PrefixBeforeDot(s1, e1.value, s2, e2.value);
    }
    Base64Url.EncodeInjective(u1, u2);
  }

  /** Two strings without `.`, each followed by `.` and some rest, agree when the results do. */
  lemma PrefixBeforeDot(s1: string, r1: string, s2: string, r2: string)
    requires '.' !in s1 && '.' !in s2
    requires s1 + "." + r1 == s2 + "." + r2
    ensures s1 == s2 && r1 == r2
  {
    var n := s1 + "." + r1;
    // both prefixes end where the name first holds `.`
    assert n == s2 + "." + r2;
    assert forall i :: 0 <= i < |s1| ==> n[i] == s1[i] != '.';
    assert forall i :: 0 <= i < |s2| ==> n[i] == s2[i] != '.';
    assert n[|s1|] == '.' && n[|s2|] == '.';
    assert |s1| == |s2|;
    assert s1 == n[..|s1|] && s2 == n[..|s2|];
    assert r1 == n[|s1| + 1..] && r2 == n[|s2| + 1..];
  }

  /** The extension of a cache file name is the extension it was made with, as long as the
      URL is not empty and the extension holds no `.`; a name made without one has none. */
  lemma CacheFileNameExtension(url: Bytes, extension: Option<string>)
    requires extension.Some? ==> |url| > 0 && '.' !in extension.value
    ensures NameExtension(CacheFileName(url, extension)) == extension
  {
    var s := Base64Url.Encode(url);
    Base64Url.EncodeAlphabet(url);
    Base64Url.EncodeWellFormed(url);
    if extension.Some? {
      var e := extension.value;
      assert Join([s, e], '.') == s + "." + e;
      SplitJoin([s, e], '.');
    }
  }

  datatype Error = NetworkFailed | ReadFailed | WriteFailed
  datatype Result<+T> = Ok(value: T) | Err(error: Error)

  /** What `fetch_from_network` gives back: the body and the Content-Type header, if any. */
  datatype NetworkResult = Fetched(content: Bytes, contentType: Option<string>) | NetworkError

  /** What `fetch` returns, with the cache directory afterwards. */
  datatype FetchOutcome = FetchOutcome(result: Result<(Bytes, string)>, files: map<string, Bytes>)

  const OctetStream := "application/octet-stream"

  /** Whether the file probe at a name finds something: a file, or, for the empty name, the
      cache directory itself. */
  predicate Exists(files: map<string, Bytes>, name: string) {
    name == "" || name in files
  }

  /** `fetch`, as a function of the directory, the URL and the outcomes of the I/O. */
  function FetchSpec(files: map<string, Bytes>, parsePath: Bytes -> Option<string>,
                     guessMime: string -> string, url: Bytes,
                     readFails: bool, net: NetworkResult, writeFails: bool): (r: FetchOutcome)
    // the directory changes only by a write of the fetched bytes, at the `.ext` (or `.js`) name
    ensures r.files == files || (net.Fetched? && r.result.Ok? &&
      r.files == files[CacheFileName(url, Some(ExtractExtension(parsePath, url).GetOr("js"))) := net.content])
    // a hit returns the stored bytes, the MIME type coming from the file's extension
    ensures var name := CacheFileName(url, ExtractExtension(parsePath, url));
      name in files && !readFails ==>
        r.result == Ok((files[name],
          match NameExtension(name) case Some(e) => guessMime(e) case None => OctetStream))
    // a miss fetches, and a fetched body is both written and returned
    ensures var name := CacheFileName(url, ExtractExtension(parsePath, url));
      !Exists(files, name) && net.Fetched? && !writeFails ==>
        var ext := ExtractExtension(parsePath, url).GetOr("js");
        r.result == Ok((net.content, net.contentType.GetOr(guessMime(ext)))) &&
        r.files == files[CacheFileName(url, Some(ext)) := net.content]
    // failures of the read, the network or the write end in an error
    ensures var name := CacheFileName(url, ExtractExtension(parsePath, url));
      r.result.Err? <==>
        if Exists(files, name) then name !in files || readFails
        else net.NetworkError? || writeFails
  {
    var extension := ExtractExtension(parsePath, url);
    var cachePath := CacheFileName(url, extension);
    if Exists(files, cachePath) then
      if cachePath !in files || readFails then FetchOutcome(Err(ReadFailed), files)
      else
        var mime := match NameExtension(cachePath) case Some(e) => guessMime(e) case None => OctetStream;
        FetchOutcome(Ok((files[cachePath], mime)), files)
    else
      var ext := extension.GetOr("js");
      match net
      case NetworkError => FetchOutcome(Err(NetworkFailed), files)
      case Fetched(content, contentType) =>
        if writeFails then FetchOutcome(Err(WriteFailed), files)
        else
          var mime := contentType.GetOr(guessMime(ext));
          FetchOutcome(Ok((content, mime)), files[CacheFileName(url, Some(ext)) := content])
  }

  /** On a hit the MIME type comes from the URL's own extension: guessed from it when the
      URL's path has one, `application/octet-stream` when it has none. */
  lemma HitMimeFromUrlExtension(files: map<string, Bytes>, parsePath: Bytes -> Option<string>,
                                guessMime: string -> string, url: Bytes,
                                net: NetworkResult, writeFails: bool)
    requires |url| > 0
    requires CacheFileName(url, ExtractExtension(parsePath, url)) in files
    ensures var r := FetchSpec(files, parsePath, guessMime, url, false, net, writeFails);
      r.files == files &&
      r.result == Ok((files[CacheFileName(url, ExtractExtension(parsePath, url))],
        match ExtractExtension(parsePath, url) case Some(e) => guessMime(e) case None => OctetStream))
  {
    CacheFileNameExtension(url, ExtractExtension(parsePath, url));
  }

  /** For a URL whose path has an extension, a fetch that misses and gets the body from the
      network is followed by a hit: the second fetch returns the same bytes, with the MIME type
      guessed from that extension, and writes nothing. */
  lemma MissThenHit(files: map<string, Bytes>, parsePath: Bytes -> Option<string>,
                    guessMime: string -> string, url: Bytes,
                    content: Bytes, contentType: Option<string>,
                    net2: NetworkResult, writeFails2: bool)
    requires ExtractExtension(parsePath, url).Some? && |url| > 0
    requires CacheFileName(url, ExtractExtension(parsePath, url)) !in files
    ensures var first := FetchSpec(files, parsePath, guessMime, url, false, Fetched(content, contentType), false);
      var second := FetchSpec(first.files, parsePath, guessMime, url, false, net2, writeFails2);
      var ext := ExtractExtension(parsePath, url).value;
      first.result.Ok? && first.result.value.0 == content &&
      second.files == first.files &&
      second.result == Ok((content, guessMime(ext)))
  {
    var ext := ExtractExtension(parsePath, url).value;
    CacheFileNameExtension(url, Some(ext));
    Base64Url.EncodeWellFormed(url);
  }

  /** For a URL whose path has no extension, the probe looks at the bare name while the write
      goes to the `.js` name, so a fetch never creates the file the next fetch looks for: every
      fetch of such a URL misses. */
  lemma NoExtensionAlwaysMisses(files: map<string, Bytes>, parsePath: Bytes -> Option<string>,
                                guessMime: string -> string, url: Bytes,
                                readFails: bool, net: NetworkResult, writeFails: bool)
    requires ExtractExtension(parsePath, url).None? && |url| > 0
    requires CacheFileName(url, None) !in files
    ensures var r := FetchSpec(files, parsePath, guessMime, url, readFails, net, writeFails);
      CacheFileName(url, None) !in r.files &&
      (r.result.Ok? ==> net.Fetched? && r.result.value.0 == net.content)
  {
    Base64Url.EncodeWellFormed(url);
    var r := FetchSpec(files, parsePath, guessMime, url, readFails, net, writeFails);
    if r.files != files {
      if CacheFileName(url, None) == CacheFileName(url, Some("js")) {
        CacheFileNameInjective(url, None, url, Some("js"));
      }
    }
  }

  /** `fetch` as evidently intended: the `js` default applied before the probe, so that the
      file a miss writes is the file the next fetch looks for. */
  function IntendedFetchSpec(files: map<string, Bytes>, parsePath: Bytes -> Option<string>,
                             guessMime: string -> string, url: Bytes,
                             readFails: bool, net: NetworkResult, writeFails: bool): (r: FetchOutcome)
    // the probe and the write use the same name
    ensures r.files == files || (net.Fetched? && r.result.Ok? &&
      r.files == files[CacheFileName(url, Some(ExtractExtension(parsePath, url).GetOr("js"))) := net.content])
  {
    var ext := ExtractExtension(parsePath, url).GetOr("js");
    var cachePath := CacheFileName(url, Some(ext));
    if cachePath in files then
      if readFails then FetchOutcome(Err(ReadFailed), files)
      else
        var mime := match NameExtension(cachePath) case Some(e) => guessMime(e) case None => OctetStream;
        FetchOutcome(Ok((files[cachePath], mime)), files)
    else
      match net
      case NetworkError => FetchOutcome(Err(NetworkFailed), files)
      case Fetched(content, contentType) =>
        if writeFails then FetchOutcome(Err(WriteFailed), files)
        else FetchOutcome(Ok((content, contentType.GetOr(guessMime(ext)))), files[cachePath := content])
  }

  /** With the default applied first, every URL that is not empty round-trips: a miss that
      gets the body from the network is followed by a hit returning the same bytes, with the
      MIME type of the URL's extension, or of `js` when it has none. */
  lemma IntendedMissThenHit(files: map<string, Bytes>, parsePath: Bytes -> Option<string>,
                            guessMime: string -> string, url: Bytes,
                            content: Bytes, contentType: Option<string>,
                            net2: NetworkResult, writeFails2: bool)
    requires |url| > 0
    requires CacheFileName(url, Some(ExtractExtension(parsePath, url).GetOr("js"))) !in files
    ensures var first := IntendedFetchSpec(files, parsePath, guessMime, url, false, Fetched(content, contentType), false);
      var second := IntendedFetchSpec(first.files, parsePath, guessMime, url, false, net2, writeFails2);
      first.result == Ok((content, contentType.GetOr(guessMime(ExtractExtension(parsePath, url).GetOr("js"))))) &&
      second.files == first.files &&
      second.result == Ok((content, guessMime(ExtractExtension(parsePath, url).GetOr("js"))))
  {
    var ext := ExtractExtension(parsePath, url).GetOr("js");
    assert '.' !in "js";
    CacheFileNameExtension(url, Some(ext));
  }

  /** The disk cache of the custom protocol. `files` lists the cache directory `cacheDir`:
      its keys are file names relative to that directory. */
  class CacheProtocolHandler {
    const cacheDir: string
    const parsePath: Bytes -> Option<string>
    const guessMime: string -> string
    var files: map<string, Bytes>

    /** `new`: a handler on an existing cache directory and its current files. */
    constructor (cacheDir: string, parsePath: Bytes -> Option<string>, guessMime: string -> string,
                 files: map<string, Bytes>)
      ensures this.cacheDir == cacheDir && this.parsePath == parsePath && this.guessMime == guessMime
      ensures this.files == files
    {
      this.cacheDir := cacheDir;
      this.parsePath := parsePath;
      this.guessMime := guessMime;
      this.files := files;
    }

    /** `fetch`: serve the URL from its cache file, or fetch it and write the cache file. */
    method Fetch(url: Bytes, readFails: bool, net: NetworkResult, writeFails: bool)
      returns (result: Result<(Bytes, string)>)
      modifies this
      ensures FetchOutcome(result, files) ==
        FetchSpec(old(files), parsePath, guessMime, url, readFails, net, writeFails)
    {
      var extension := ExtractExtension(parsePath, url);
      var cachePath := CacheFileName(url, extension);

      if cachePath == "" || cachePath in files {
        if cachePath !in files || readFails {
          return Err(ReadFailed);
        }
        var content := files[cachePath];
        var mimeType;
        match NameExtension(cachePath) {
          case Some(ext) => mimeType := guessMime(ext);
          case None => mimeType := OctetStream;
        }
        return Ok((content, mimeType));
      }

      var ext := extension.GetOr("js");
      if net.NetworkError? {
        return Err(NetworkFailed);
      }
      var content, mimeTypeOpt := net.content, net.contentType;
      var writePath := CacheFileName(url, Some(ext));
      if writeFails {
        return Err(WriteFailed);
      }
      files := files[writePath := content];

      var mimeType;
      match mimeTypeOpt {
        case Some(mime) => mimeType := mime;
        case None => mimeType := guessMime(ext);
      }
      return Ok((content, mimeType));
    }
  }
}
