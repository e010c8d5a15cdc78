/**
 * Where uploaded images live and how the handlers name them: the public URLs built when an
 * image is stored, the files behind them, and the path the delete handlers derive back from a
 * stored URL (`path.basename` for the file name, the second-to-last `/` segment for the
 * directory).
 */
module UploadPaths {
  import opened Wrappers
  import opened Text

  /** `process.env.PORT` is used when it is set and non-empty; otherwise `||` falls back to a default. */
  predicate PortSet(env: Option<string>) {
    env.Some? && env.value != ""
  }

  /** `process.env.PORT || 8888`: the port the handlers write into the URLs they store. */
  function Port(env: Option<string>): string {
    if PortSet(env) then env.value else "8888"
  }

  /** `process.env.PORT || 37320`: the port app.js listens on. */
  function ListenPort(env: Option<string>): string {
    if PortSet(env) then env.value else "37320"
  }

  /** The origin written into stored URLs. */
  function Origin(env: Option<string>): string {
    "http://localhost:" + Port(env)
  }

  /** The origin the server answers at. */
  function ServerOrigin(env: Option<string>): string {
    "http://localhost:" + ListenPort(env)
  }

  /** `${uuidv4()}.jpg` */
  function OriginalName(uuid: string): string { uuid + ".jpg" }

  /** `processed_${uuidv4()}.jpg` */
  function ProcessedName(uuid: string): string { "processed_" + uuid + ".jpg" }

  /**
   * The static routes of app.js: a URL of the running server under `/<route>/` is answered with
   * the file at the same relative path under `public/<route>/`; None when the URL is not under
   * the route at the server's origin.
   */
  function StaticFile(env: Option<string>, route: string, url: string): Option<string> {
    var prefix := ServerOrigin(env) + "/" + route + "/";
    if prefix <= url then Some("public/" + route + "/" + url[|prefix|..]) else None
  }

  /** A URL under a route at the server's origin is served from the same path under the route's directory. */
  lemma ServedFrom(env: Option<string>, route: string, rest: string)
    ensures StaticFile(env, route, ServerOrigin(env) + "/" + route + "/" + rest) == Some("public/" + route + "/" + rest)
  {
    var prefix := ServerOrigin(env) + "/" + route + "/";
    var url := prefix + rest;
    assert url[|prefix|..] == rest;
  }

  /**
   * With PORT unset the stored URLs name port 8888 while the server listens on 37320, so no
   * static route answers them.
   */
  lemma UnsetPortUrlNotServed(env: Option<string>, route: string, rest: string)
    requires !PortSet(env)
    ensures StaticFile(env, route, Origin(env) + "/" + route + "/" + rest) == None
  {
    var prefix := ServerOrigin(env) + "/" + route + "/";
    var url := Origin(env) + "/" + route + "/" + rest;
    assert prefix[17] == '3' && url[17] == '8';
  }

  /** With PORT set, the stored URLs name the port the server listens on. */
  lemma SetPortOriginsAgree(env: Option<string>)
    requires PortSet(env)
    ensures Origin(env) == ServerOrigin(env)
  {
  }

  /** A URL at the server's own origin: the static route serves exactly the file named by `dir` and `name`. */
  function ServedUrl(env: Option<string>, route: string, dir: string, name: string): (url: string)
    ensures StaticFile(env, route, url) == Some("public/" + route + "/" + dir + "/" + name)
    ensures PortSet(env) ==> url == Origin(env) + "/" + route + "/" + dir + "/" + name
  {
    var url := ServerOrigin(env) + "/" + route + "/" + dir + "/" + name;
    assert url == ServerOrigin(env) + "/" + route + "/" + (dir + "/" + name);
    ServedFrom(env, route, dir + "/" + name);
    assert "public/" + route + "/" + (dir + "/" + name) == "public/" + route + "/" + dir + "/" + name;
    url
  }

  /** The files the three static roots serve. */
  function UploadFile(dir: string, name: string): string { "public/uploads/" + dir + "/" + name }
  function ProcessFile(dir: string, name: string): string { "public/process/" + dir + "/" + name }
  function HistoryFile(dir: string, name: string): string { "public/histories/" + dir + "/" + name }

  /**
   * The URL stored for an uploaded original. With PORT set, the static route serves exactly the
   * file it was written to; with PORT unset, nothing serves it.
   */
  function UploadUrl(env: Option<string>, dir: string, name: string): (url: string)
    ensures PortSet(env) ==> StaticFile(env, "uploads", url) == Some(UploadFile(dir, name))
    ensures !PortSet(env) ==> StaticFile(env, "uploads", url) == None
  {
    var url := Origin(env) + "/uploads" + "/" + dir + "/" + name;
    assert url == Origin(env) + "/" + "uploads" + "/" + (dir + "/" + name);
    if PortSet(env) then
      SetPortOriginsAgree(env);
      ServedFrom(env, "uploads", dir + "/" + name);
      assert "public/" + "uploads" + "/" + (dir + "/" + name) == UploadFile(dir, name);
      url
    else
      UnsetPortUrlNotServed(env, "uploads", dir + "/" + name);
      url
  }

  /**
   * The URL stored for a processed copy. With PORT set, the static route serves exactly the
   * file it was written to; with PORT unset, nothing serves it.
   */
  function ProcessUrl(env: Option<string>, dir: string, name: string): (url: string)
    ensures PortSet(env) ==> StaticFile(env, "process", url) == Some(ProcessFile(dir, name))
    ensures !PortSet(env) ==> StaticFile(env, "process", url) == None
  {
    var url := Origin(env) + "/process" + "/" + dir + "/" + name;
    assert url == Origin(env) + "/" + "process" + "/" + (dir + "/" + name);
    if PortSet(env) then
      SetPortOriginsAgree(env);
      ServedFrom(env, "process", dir + "/" + name);
      assert "public/" + "process" + "/" + (dir + "/" + name) == ProcessFile(dir, name);
      url
    else
      UnsetPortUrlNotServed(env, "process", dir + "/" + name);
      url
  }

  /**
   * The URL stored for a check-in image. With PORT set, the static route serves exactly the
   * file it was written to; with PORT unset, nothing serves it.
   */
  function HistoryUrl(env: Option<string>, dir: string, name: string): (url: string)
    ensures PortSet(env) ==> StaticFile(env, "histories", url) == Some(HistoryFile(dir, name))
    ensures !PortSet(env) ==> StaticFile(env, "histories", url) == None
  {
    var url := Origin(env) + "/histories" + "/" + dir + "/" + name;
    assert url == Origin(env) + "/" + "histories" + "/" + (dir + "/" + name);
    if PortSet(env) then
      SetPortOriginsAgree(env);
      ServedFrom(env, "histories", dir + "/" + name);
      assert "public/" + "histories" + "/" + (dir + "/" + name) == HistoryFile(dir, name);
      url
    else
      UnsetPortUrlNotServed(env, "histories", dir + "/" + name);
      url
  }

  /** A segment as a template literal renders it: a missing one is the text `undefined`. */
  function SegmentText(segment: Option<string>): string {
    segment.GetOr("undefined")
  }

  /**
   * The file deleteRegisterFace removes for a stored `face_image` URL: whatever the URL, a file
   * named by one slash-free segment in one slash-free directory under public/uploads.
   */
  function UploadFileOfUrl(url: string): (file: string)
    ensures exists dir, name :: file == UploadFile(dir, name) && '/' !in dir && '/' !in name
  {
    var dir, name := SegmentText(SecondToLastSegment(url)), Basename(url);
    assert '/' !in "undefined";
    UploadFile(dir, name)
  }

  /**
   * The file deleteHistories removes for a stored `face_image` URL: whatever the URL, a file
   * named by one slash-free segment in one slash-free directory under public/histories.
   */
  function HistoryFileOfUrl(url: string): (file: string)
    ensures exists dir, name :: file == HistoryFile(dir, name) && '/' !in dir && '/' !in name
  {
    var dir, name := SegmentText(SecondToLastSegment(url)), Basename(url);
    assert '/' !in "undefined";
    HistoryFile(dir, name)
  }

  /** Deriving the file from an upload URL gives back the file the URL was built for. */
  lemma UploadRoundTrip(env: Option<string>, dir: string, name: string)
    requires '/' !in dir && '/' !in name && name != []
    ensures UploadFileOfUrl(UploadUrl(env, dir, name)) == UploadFile(dir, name)
  {
    LastTwoSegments(Origin(env) + "/uploads", dir, name);
  }

  /** Deriving the file from a history URL gives back the file the URL was built for. */
  lemma HistoryRoundTrip(env: Option<string>, dir: string, name: string)
    requires '/' !in dir && '/' !in name && name != []
    ensures HistoryFileOfUrl(HistoryUrl(env, dir, name)) == HistoryFile(dir, name)
  {
    LastTwoSegments(Origin(env) + "/histories", dir, name);
  }

  /** A registered original image is found again from its URL: the account id renders without a slash. */
  lemma RegisteredImageRoundTrip(env: Option<string>, accountId: int, uuid: string)
    requires IsUuid(uuid)
    ensures UploadFileOfUrl(UploadUrl(env, DecimalText(accountId), OriginalName(uuid)))
         == UploadFile(DecimalText(accountId), OriginalName(uuid))
  {
    UuidHasNoSlash(uuid);
    UploadRoundTrip(env, DecimalText(accountId), OriginalName(uuid));
  }

  /** The delete path of a face is always under the uploads root, never the processed copy. */
  lemma UploadFileIsNotProcessed(url: string, dir: string, name: string)
    ensures UploadFileOfUrl(url) != ProcessFile(dir, name)
  {
    assert UploadFileOfUrl(url)[7] == 'u';
    assert ProcessFile(dir, name)[7] == 'p';
  }

  /** A directory `a/b` in a history URL is read back as its last part `b` alone. */
  lemma SlashSplitsDirectory(env: Option<string>, a: string, b: string, name: string)
    requires '/' !in b && '/' !in name && name != []
    ensures HistoryFileOfUrl(HistoryUrl(env, a + "/" + b, name)) == HistoryFile(b, name)
  {
    var root := Origin(env) + "/histories";
    var prefix := root + "/" + a;
    assert HistoryUrl(env, a + "/" + b, name) == root + "/" + (a + "/" + b) + "/" + name;
    assert root + "/" + (a + "/" + b) == prefix + "/" + b;
    LastTwoSegments(prefix, b, name);
  }

  /** A username holding a slash makes deleteHistories aim at a different file. */
  lemma SlashInDirectoryMissesFile(env: Option<string>, name: string)
    requires '/' !in name && name != []
    ensures HistoryFileOfUrl(HistoryUrl(env, "a/b", name)) == HistoryFile("b", name)
    ensures HistoryFile("b", name) != HistoryFile("a/b", name)
  {
    assert "a/b" == "a" + "/" + "b";
    SlashSplitsDirectory(env, "a", "b", name);
    DifferentDirectories(name);
  }

  lemma DifferentDirectories(name: string)
    ensures HistoryFile("b", name) != HistoryFile("a/b", name)
  {
    var p := HistoryFile("b", name);
    var q := HistoryFile("a/b", name);
    assert p == "public/histories/b/" + name;
    assert q == "public/histories/a/b/" + name;
    assert p[17] != q[17];
  }

  /** An uploaded original and a processed copy never share a file. */
  lemma UploadIsNotProcessFile(dir: string, name: string, dir2: string, name2: string)
    ensures UploadFile(dir, name) != ProcessFile(dir2, name2)
  {
    assert UploadFile(dir, name)[7] == 'u';
    assert ProcessFile(dir2, name2)[7] == 'p';
  }
}
