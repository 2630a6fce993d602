/**
 * File URLs: `split_file_url` takes `file://host/path?query`,
 * `http[s]://server:port/file/host/path?query` and `/file/host/path?query`
 * apart, and `create_file_uri` puts the `file://` form back together.
 */
module FileUrl {
  import opened Wrappers
  import opened Strings

  const FileUriPrefix := "file://"
  const FilePrefix := "/file/"

  /** `[server_port, hostname, filename, filepath, query]` */
  datatype UrlComps = UrlComps(serverPort: string, hostname: string, filename: string, filepath: string, query: string)

  /** `create_file_uri` */
  function CreateFileUri(c: UrlComps): string {
    FileUriPrefix + c.hostname + c.filepath + c.query
  }

  predicate IsHttp(url: string) {
    StartsWith(url, "http://") || StartsWith(url, "https://")
  }

  /** The length of the `http://` or `https://` scheme that starts the URL. */
  function SchemeLength(url: string): nat
    requires IsHttp(url)
  {
    if StartsWith(url, "http://") then 7 else 8
  }

  /** The `protocol://server[:port]` part and the `host/path?query` part of a file URL, or None
      for a URL that is not one. For an http(s) URL the server part runs up to the first slash
      after the scheme, and what follows must start with `/file/`. */
  function HostPart(url: string): (r: Option<(string, string)>)
    ensures !StartsWith(url, FileUriPrefix) && !StartsWith(url, FilePrefix) && !IsHttp(url) ==> r.None?
    ensures StartsWith(url, FileUriPrefix) ==> r == Some(("", url[|FileUriPrefix|..]))
    ensures r.Some? ==> url == r.value.0 + FileUriPrefix + r.value.1 || url == r.value.0 + FilePrefix + r.value.1
    ensures r.Some? && r.value.0 != "" ==> IsHttp(r.value.0) && url == r.value.0 + FilePrefix + r.value.1
    ensures IsHttp(url) && r.Some? ==>
      && |r.value.0| >= SchemeLength(url) && r.value.0[..SchemeLength(url)] == url[..SchemeLength(url)]
      && '/' !in r.value.0[SchemeLength(url)..]
  {
    if StartsWith(url, FileUriPrefix) then
      assert url == FileUriPrefix + url[|FileUriPrefix|..];
      assert !IsHttp(url) by { assert url[0] == 'f'; }
      Some(("", url[|FileUriPrefix|..]))
    else if StartsWith(url, FilePrefix) then
      assert url == FilePrefix + url[|FilePrefix|..];
      assert !IsHttp(url) by { assert url[0] == '/'; }
      Some(("", url[|FilePrefix|..]))
    else
      var protocol := if StartsWith(url, "http://") then "http" else if StartsWith(url, "https://") then "https" else "";
      if protocol == "" then None
      else
        var j := Find(url, "/", |protocol| + 3);
        if j < 0 then None
        else
          var serverPort, urlPath := url[..j], url[j..];
          if !StartsWith(urlPath, FilePrefix) then None
          else
            assert '/' !in serverPort[|protocol| + 3..] by {
              FindChar(url, '/', |protocol| + 3);
              assert serverPort[|protocol| + 3..] == url[|protocol| + 3..j];
            }
            assert url == serverPort + FilePrefix + urlPath[|FilePrefix|..] by {
              assert urlPath == FilePrefix + urlPath[|FilePrefix|..];
            }
            assert serverPort[..|protocol| + 3] == url[..|protocol| + 3];
            Some((serverPort, urlPath[|FilePrefix|..]))
  }

  /** For an http(s) URL, `HostPart` splits at the first slash after the scheme, provided the
      text from there starts with `/file/`. */
  lemma {:induction false} HttpBranch(url: string)
    requires IsHttp(url)
    ensures var j := Find(url, "/", SchemeLength(url));
      HostPart(url) == if j < 0 || !StartsWith(url[j..], FilePrefix) then None else Some((url[..j], url[j + |FilePrefix|..]))
  {
    assert url[0] == 'h';
    assert StartsWith(url, "https://") ==> !StartsWith(url, "http://") by {
      if StartsWith(url, "https://") {
        assert url[4] == 's';
      }
    }
    var j := Find(url, "/", SchemeLength(url));
    if j >= 0 && StartsWith(url[j..], FilePrefix) {
      assert url[j..][|FilePrefix|..] == url[j + |FilePrefix|..];
    }
  }

  /** The converse for http(s) URLs: a server part with no slash after its scheme, followed by
      `/file/` and the rest, is taken apart into exactly those two pieces. */
  lemma {:induction false} HttpHostPart(server: string, rest: string)
    requires IsHttp(server) && '/' !in server[SchemeLength(server)..]
    ensures HostPart(server + FilePrefix + rest) == Some((server, rest))
  {
    var url := server + FilePrefix + rest;
    assert url[..|server|] == server;
    assert IsHttp(url) && SchemeLength(url) == SchemeLength(server) by {
      assert url[..7] == server[..7];
      if |server| >= 8 {
        assert url[..8] == server[..8];
      }
    }
    var k := SchemeLength(server);
    assert url[k..|server|] == server[k..];
    assert url[|server|] == '/';
    FindCharAt(url, '/', k, |server|);
    assert url[|server|..] == FilePrefix + rest;
    assert url[|server| + |FilePrefix|..] == rest;
    HttpBranch(url);
  }

  /** The `host/path` part, before any query, holds a slash. */
  predicate HasPath(hostQuery: string) {
    '/' in Partition(hostQuery, "?").0
  }

  lemma {:induction false} EndsWithAppend(a: string, x: string)
    ensures EndsWith(a + x, x)
  {
    assert (a + x)[|a + x| - |x|..] == x;
  }

  /** With at least one slash, the host and the file path make up `host/path`, and the file
      path ends with the last segment; without one, the whole text is the host and the path is
      "/". Neither the host nor the last segment holds a slash. */
  lemma {:induction false} PathPieces(hostPath: string)
    ensures var comps := Split(hostPath, '/');
      var filepath := "/" + Join(comps[1..], '/');
      var last := comps[|comps| - 1];
      && '/' !in comps[0] && '/' !in last
      && ('/' in hostPath ==> hostPath == comps[0] + filepath && EndsWith(filepath, "/" + last))
      && ('/' !in hostPath ==> comps == [hostPath] && filepath == "/")
  {
    var comps := Split(hostPath, '/');
    var tail := comps[1..];
    var filepath := "/" + Join(tail, '/');
    var last := comps[|comps| - 1];
    SplitPieces(hostPath, '/');
    if '/' in hostPath {
      SplitJoin(hostPath, '/');
      assert hostPath == comps[0] + filepath;
      if |tail| == 1 {
        assert filepath == "/" + last;
        EndsWithAppend("", "/" + last);
      } else {
        JoinLast(tail, '/');
        assert filepath == ("/" + Join(tail[..|tail| - 1], '/')) + ("/" + last);
        EndsWithAppend("/" + Join(tail[..|tail| - 1], '/'), "/" + last);
      }
    }
  }

  /** A character other than the slash that `host/path` lacks is in none of its parts. */
  lemma {:induction false} PathPieceChars(hostPath: string, c: char)
    requires c != '/' && c !in hostPath
    ensures var comps := Split(hostPath, '/');
      c !in comps[0] && c !in comps[|comps| - 1] && c !in "/" + Join(comps[1..], '/')
  {
    var comps := Split(hostPath, '/');
    SplitJoin(hostPath, '/');
    if c in comps[0] {
      JoinChars(comps, '/', 0, c);
    }
    if c in comps[|comps| - 1] {
      JoinChars(comps, '/', |comps| - 1, c);
    }
    PathPieces(hostPath);
    if '/' in hostPath {
      assert c !in comps[0] + "/" + Join(comps[1..], '/');
    }
  }

  /** `host/path?query` splits at its first question mark into a part without one and the
      query, which is empty or starts with it. */
  lemma {:induction false} QueryParts(hostQuery: string)
    ensures var (hostPath, sep, tail) := Partition(hostQuery, "?");
      && '?' !in hostPath && hostQuery == hostPath + (sep + tail)
      && (sep + tail == "" || StartsWith(sep + tail, "?"))
  {
    var (hostPath, sep, tail) := Partition(hostQuery, "?");
    ContainsChar(hostPath, '?');
    ContainsChar(hostQuery, '?');
    assert hostPath + sep + tail == hostPath + (sep + tail);
  }

  /** The components of `host/path?query` as `split_file_url` computes them, before the host
      name may be blanked: the host is the text before the first slash, the file path the rest
      of the text before the query (or just "/"), the file name its last segment. */
  function PathParts(hostQuery: string): (c: UrlComps)
    ensures c.serverPort == ""
    ensures StartsWith(c.filepath, "/") && '?' !in c.filepath
    ensures c.query == "" || StartsWith(c.query, "?")
    ensures '/' !in c.hostname && '?' !in c.hostname
    ensures '/' !in c.filename && '?' !in c.filename
    ensures HasPath(hostQuery) ==>
      hostQuery == c.hostname + c.filepath + c.query && EndsWith(c.filepath, "/" + c.filename)
    ensures !HasPath(hostQuery) ==>
      hostQuery == c.hostname + c.query && c.filepath == "/" && c.filename == c.hostname
  {
    QueryParts(hostQuery);
    var (hostPath, sep, tail) := Partition(hostQuery, "?");
    var query := sep + tail;
    var comps := Split(hostPath, '/');
    var filepath := "/" + Join(comps[1..], '/');
    PathPieces(hostPath);
    PathPieceChars(hostPath, '?');
    UrlComps("", comps[0], comps[|comps| - 1], filepath, query)
  }

  /** `check_host_secret` is given and the query carries the file's HMAC. */
  predicate HmacMatches(c: UrlComps, secret: string, fileHmac: (string, string) -> string) {
    secret != "" && AsciiLower(c.query) == AsciiLower("?hmac=" + fileHmac(c.filepath, secret))
  }

  /** `split_file_url`. `fileHmac` is `gtermapi.file_hmac`, which is not part of this model; an
      empty `secret` stands for no `check_host_secret`. When the query is exactly `?hmac=`
      followed by the file's HMAC (compared in lower case) the host name is blanked. */
  function SplitFileUrl(url: string, secret: string, fileHmac: (string, string) -> string): (r: Option<UrlComps>)
    ensures r.None? <==> HostPart(url).None?
    ensures !StartsWith(url, FileUriPrefix) && !StartsWith(url, FilePrefix) && !IsHttp(url) ==> r.None?
    ensures StartsWith(url, FileUriPrefix) || StartsWith(url, FilePrefix) ==> r.Some?
    ensures r.Some? ==>
      && StartsWith(r.value.filepath, "/")
      && (r.value.query == "" || StartsWith(r.value.query, "?"))
      && '/' !in r.value.hostname && '/' !in r.value.filename
      && (r.value.serverPort == "" || IsHttp(r.value.serverPort))
    ensures r.Some? ==>
      var p := PathParts(HostPart(url).value.1);
      && r.value.serverPort == HostPart(url).value.0
      && r.value.filename == p.filename && r.value.filepath == p.filepath && r.value.query == p.query
      && r.value.hostname == (if HmacMatches(p, secret, fileHmac) then "" else p.hostname)
  {
    match HostPart(url)
    case None => None
    case Some((serverPort, hostQuery)) =>
      var p := PathParts(hostQuery);
      var hostname := if HmacMatches(p, secret, fileHmac) then "" else p.hostname;
      Some(p.(serverPort := serverPort, hostname := hostname))
  }

  /** The components a `file://` URL is made of, in the shape `split_file_url` produces them. */
  predicate WellFormed(c: UrlComps) {
    && c.serverPort == ""
    && '/' !in c.hostname && '?' !in c.hostname
    && StartsWith(c.filepath, "/") && '?' !in c.filepath
    && '/' !in c.filename && EndsWith(c.filepath, "/" + c.filename)
    && (c.query == "" || StartsWith(c.query, "?"))
  }

  /** Splitting `a + b` just before the first `ch` is unambiguous. */
  lemma {:induction false} SplitBeforeUnique(a: string, b: string, a': string, b': string, ch: char)
    requires a + b == a' + b'
    requires ch !in a && ch !in a'
    requires b == [] || b[0] == ch
    requires b' == [] || b'[0] == ch
    ensures a == a' && b == b'
  {
    var s := a + b;
    assert forall j :: 0 <= j < |a| ==> s[j] != ch by {
      forall j | 0 <= j < |a| ensures s[j] != ch {
        assert s[j] == a[j];
      }
    }
    assert forall j :: 0 <= j < |a'| ==> s[j] != ch by {
      forall j | 0 <= j < |a'| ensures s[j] != ch {
        assert s[j] == (a' + b')[j] == a'[j];
      }
    }
    assert |a| < |s| ==> s[|a|] == ch;
    assert |a'| < |s| ==> s[|a'|] == (a' + b')[|a'|] == ch;
    assert |a| == |a'|;
    assert a == s[..|a|] == (a' + b')[..|a'|] == a';
    assert b == s[|a|..] == (a' + b')[|a'|..] == b';
  }

  /** A path has only one last segment. */
  lemma {:induction false} LastSegmentUnique(path: string, x: string, y: string)
    requires '/' !in x && '/' !in y
    requires EndsWith(path, "/" + x) && EndsWith(path, "/" + y)
    ensures x == y
  {
    assert path[|path| - |x| - 1] == '/' by {
      assert path[|path| - |x| - 1] == ("/" + x)[0];
    }
    assert path[|path| - |y| - 1] == '/' by {
      assert path[|path| - |y| - 1] == ("/" + y)[0];
    }
    assert forall j :: |path| - |x| <= j < |path| ==> path[j] != '/' by {
      forall j | |path| - |x| <= j < |path| ensures path[j] != '/' {
        assert path[j] == x[j - (|path| - |x|)];
      }
    }
    assert forall j :: |path| - |y| <= j < |path| ==> path[j] != '/' by {
      forall j | |path| - |y| <= j < |path| ensures path[j] != '/' {
        assert path[j] == y[j - (|path| - |y|)];
      }
    }
    assert |x| == |y|;
    assert x == ("/" + x)[1..] == ("/" + y)[1..] == y;
  }

  /** The host/path part of a URL built from well-formed components holds a slash. */
  lemma {:induction false} CreatedHasPath(c: UrlComps)
    requires WellFormed(c)
    ensures HasPath(c.hostname + c.filepath + c.query)
    ensures Partition(c.hostname + c.filepath + c.query, "?").0 == c.hostname + c.filepath
  {
    var head := c.hostname + c.filepath;
    var hq := head + c.query;
    assert '?' !in head;
    if c.query == "" {
      assert hq == head;
      ContainsChar(hq, '?');
    } else {
      assert c.query == "?" + c.query[1..];
      assert hq == head + "?" + c.query[1..];
      FindAfter(head, "?", c.query[1..]);
      assert hq[..|head|] == head;
    }
    assert head[|c.hostname|] == '/';
  }

  /** `create_file_uri` undoes `split_file_url` for a `file://` URL whose host is followed by a
      path, when no host secret is checked. */
  lemma {:induction false} SplitThenCreate(url: string, fileHmac: (string, string) -> string)
    requires StartsWith(url, FileUriPrefix) && HasPath(url[|FileUriPrefix|..])
    ensures SplitFileUrl(url, "", fileHmac).Some?
    ensures CreateFileUri(SplitFileUrl(url, "", fileHmac).value) == url
  {
    var hq := url[|FileUriPrefix|..];
    SplitUnchecked(url, fileHmac);
    CreatedFromParts(hq);
    assert url == FileUriPrefix + hq;
  }

  /** Putting back together the parts of a `host/path?query` that has a path gives the URL. */
  lemma {:induction false} CreatedFromParts(hq: string)
    requires HasPath(hq)
    ensures CreateFileUri(PathParts(hq)) == FileUriPrefix + hq
  {
    var p := PathParts(hq);
    Regroup(FileUriPrefix, p.hostname, p.filepath, p.query);
  }

  lemma {:induction false} Regroup(w: string, x: string, y: string, z: string)
    ensures w + x + y + z == w + (x + y + z)
  {
  }

  /** Without a host secret, a `file://` URL splits into the parts of its `host/path?query`. */
  lemma {:induction false} SplitUnchecked(url: string, fileHmac: (string, string) -> string)
    requires StartsWith(url, FileUriPrefix)
    ensures SplitFileUrl(url, "", fileHmac) == Some(PathParts(url[|FileUriPrefix|..]))
  {
    var hq := url[|FileUriPrefix|..];
    assert HostPart(url) == Some(("", hq));
    assert !HmacMatches(PathParts(hq), "", fileHmac);
  }

  /** What PathParts promises about the parts of a text whose host is followed by a path. */
  predicate DescribesPath(p: UrlComps, hostQuery: string) {
    && p.serverPort == ""
    && StartsWith(p.filepath, "/") && '?' !in p.filepath
    && (p.query == "" || StartsWith(p.query, "?"))
    && '/' !in p.hostname && '/' !in p.filename
    && hostQuery == p.hostname + p.filepath + p.query && EndsWith(p.filepath, "/" + p.filename)
  }

  /** Only one set of well-formed components describes a text. */
  lemma {:induction false} DescribesUnique(p: UrlComps, c: UrlComps)
    requires WellFormed(c) && DescribesPath(p, c.hostname + c.filepath + c.query)
    ensures p == c
  {
    assert c.hostname + (c.filepath + c.query) == c.hostname + c.filepath + c.query;
    assert p.hostname + (p.filepath + p.query) == p.hostname + p.filepath + p.query;
    SplitBeforeUnique(c.hostname, c.filepath + c.query, p.hostname, p.filepath + p.query, '/');
    SplitBeforeUnique(c.filepath, c.query, p.filepath, p.query, '?');
    LastSegmentUnique(c.filepath, c.filename, p.filename);
  }

  /** The parts of the host/path/query text built from well-formed components are those
      components. */
  lemma {:induction false} PathPartsOfCreated(c: UrlComps)
    requires WellFormed(c)
    ensures PathParts(c.hostname + c.filepath + c.query) == c
  {
    var hq := c.hostname + c.filepath + c.query;
    CreatedHasPath(c);
    DescribesUnique(PathParts(hq), c);
  }

  /** `split_file_url` undoes `create_file_uri` for well-formed components, when no host
      secret is checked. */
  lemma {:induction false} CreateThenSplit(c: UrlComps, fileHmac: (string, string) -> string)
    requires WellFormed(c)
    ensures SplitFileUrl(CreateFileUri(c), "", fileHmac) == Some(c)
  {
    var url := CreateFileUri(c);
    var hq := c.hostname + c.filepath + c.query;
    assert url == FileUriPrefix + hq;
    assert url[|FileUriPrefix|..] == hq;
    assert HostPart(url) == Some(("", hq));
    PathPartsOfCreated(c);
    assert !HmacMatches(c, "", fileHmac);
  }
}
