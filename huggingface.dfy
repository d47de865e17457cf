/**
 * HuggingFace helpers of the datasheet builder: turning a model URL or a repo id into the
 * `author/model` repo id, choosing the main weights file of a repository, and cutting one
 * section out of a model card's markdown.
 */
module HuggingFace {
  import opened Wrappers
  import opened Text

  // ---------------------------------------------------------------------------------------
  // parse_huggingface_url
  // ---------------------------------------------------------------------------------------

  /** The three `ValueError`s `parse_huggingface_url` raises, with the value each message shows. */
  datatype ParseError =
    | InvalidRepoId(url: string)
    | NotHuggingFaceUrl(url: string)
    | InvalidRepoPath(path: string)

  predicate IsSlash(c: char) { c == '/' }

  predicate IsWebUrl(url: string)
  {
    StartsWith(url, "http://") || StartsWith(url, "https://")
  }

  /** The two hosts a model URL may name. */
  predicate IsHuggingFaceHost(netloc: string)
  {
    netloc == "huggingface.co" || netloc == "www.huggingface.co"
  }

  /** The characters `urlsplit` deletes from anywhere in its input before parsing. */
  predicate IsUnsafe(c: char)
  {
    c == '\t' || c == '\r' || c == '\n'
  }

  function RemoveUnsafe(s: string): (r: string)
    ensures forall k :: 0 <= k < |r| ==> !IsUnsafe(r[k])
    ensures (forall k :: 0 <= k < |s| ==> !IsUnsafe(s[k])) ==> r == s
  {
    if s == [] then []
    else if IsUnsafe(s[0]) then RemoveUnsafe(s[1..])
    else [s[0]] + RemoveUnsafe(s[1..])
  }

  /** The characters that end the network location after `//`. */
  predicate IsNetlocEnd(c: char)
  {
    c == '/' || c == '?' || c == '#'
  }

  /** The length of the network location at the start of `s`: up to the first '/', '?' or '#'. */
  function NetlocLength(s: string): (n: nat)
    ensures n <= |s| && (n == |s| || IsNetlocEnd(s[n]))
    ensures forall k :: 0 <= k < n ==> !IsNetlocEnd(s[k])
  {
    if s == [] || IsNetlocEnd(s[0]) then 0 else 1 + NetlocLength(s[1..])
  }

  /** The part of `s` before the first `c` (all of `s` when there is none). */
  function Before(s: string, c: char): (r: string)
    ensures c !in r && |r| <= |s| && r == s[..|r|] && (|r| == |s| || s[|r|] == c)
  {
    match Find(s, c)
    case None => s
    case Some(i) => s[..i]
  }

  /** The index of the last `c` in `s`. */
  function LastIndex(s: string, c: char): (r: Option<nat>)
    ensures r.None? <==> c !in s
    ensures r.Some? ==> r.value < |s| && s[r.value] == c && c !in s[r.value + 1..]
  {
    if s == [] then None
    else if s[|s| - 1] == c then Some(|s| - 1)
    else
      var r := LastIndex(s[..|s| - 1], c);
      assert s == s[..|s| - 1] + [s[|s| - 1]];
      if r.Some? then
        assert s[r.value + 1..] == s[..|s| - 1][r.value + 1..] + [s[|s| - 1]];
        r
      else r
  }

  /** `urlparse`'s `_splitparams`: the path loses everything from the first ';' after its last '/'. */
  function DropParams(p: string): (r: string)
    ensures ';' !in p ==> r == p
  {
    if ';' !in p then p
    else match LastIndex(p, '/')
      case None => Before(p, ';')
      case Some(j) => p[..j] + Before(p[j..], ';')
  }

  /** The scheme-less remainder of a web URL after its `//`. */
  function AfterScheme(u: string): string
    requires IsWebUrl(u)
  {
    if StartsWith(u, "https://") then u[|"https://"|..] else u[|"http://"|..]
  }

  /**
   * The `netloc` and `path` that `urlparse` finds in an http(s) URL: after deleting tab, CR and
   * LF, the network location runs from after `//` to the first '/', '?' or '#'; the path is what
   * follows, cut at '#', then at '?', then at the parameters.
   */
  function NetlocAndPath(url: string): (string, string)
    requires IsWebUrl(url)
  {
    SchemeIsSafe(url);
    var rest := AfterScheme(RemoveUnsafe(url));
    var n := NetlocLength(rest);
    (rest[..n], DropParams(Before(Before(rest[n..], '#'), '?')))
  }

  lemma {:induction false} RemoveUnsafeAppend(a: string, b: string)
    ensures RemoveUnsafe(a + b) == RemoveUnsafe(a) + RemoveUnsafe(b)
    decreases |a|
  {
    if a != [] {
      RemoveUnsafeAppend(a[1..], b);
      assert (a + b)[0] == a[0] && (a + b)[1..] == a[1..] + b;
      if IsUnsafe(a[0]) {
        assert RemoveUnsafe(a + b) == RemoveUnsafe(a[1..] + b);
      } else {
        assert RemoveUnsafe(a + b) == [a[0]] + RemoveUnsafe(a[1..] + b);
      }
    } else {
      assert a + b == b;
    }
  }

  /** A prefix without deleted characters survives the deletion unchanged. */
  lemma SafePrefix(p: string, rest: string)
    requires forall k :: 0 <= k < |p| ==> !IsUnsafe(p[k])
    ensures RemoveUnsafe(p + rest) == p + RemoveUnsafe(rest)
  {
    RemoveUnsafeAppend(p, rest);
  }

  /** The scheme and `//` contain no character `urlsplit` deletes, so they survive the deletion. */
  lemma SchemeIsSafe(url: string)
    requires IsWebUrl(url)
    ensures IsWebUrl(RemoveUnsafe(url))
    ensures AfterScheme(RemoveUnsafe(url)) == RemoveUnsafe(AfterScheme(url))
  {
    if StartsWith(url, "https://") {
      var p: string := "https://";
      var t := url[|p|..];
      assert url == p + t;
      SafePrefix(p, t);
      assert RemoveUnsafe(url)[..|p|] == p;
    } else {
      var p: string := "http://";
      var t := url[|p|..];
      assert url == p + t;
      SafePrefix(p, t);
      var u := RemoveUnsafe(url);
      assert u[..|p|] == p;
      assert !StartsWith(u, "https://") by { assert u[4] == ':'; }
    }
  }

  /** `s` starts with `/tree/`, `/blob/` or `/resolve/`. */
  predicate IsMarker(s: string)
  {
    StartsWith(s, "/tree/") || StartsWith(s, "/blob/") || StartsWith(s, "/resolve/")
  }

  /**
   * `re.sub(r'/(tree|blob|resolve)/.*$', '', path)` on a path without line breaks: everything
   * from the leftmost marker on is removed.
   */
  function CutMarker(s: string): (r: string)
    ensures |r| <= |s| && r == s[..|r|]
    ensures |r| == |s| || IsMarker(s[|r|..])
    ensures forall i :: 0 <= i < |r| ==> !IsMarker(s[i..])
  {
    if s == [] || IsMarker(s) then []
    else
      var t := CutMarker(s[1..]);
      CutStep(s, t, IsMarker);
      [s[0]] + t
  }

  /**
   * If `t` is the part of `s[1..]` before the first suffix satisfying `p`, and `s` itself does
   * not satisfy `p`, then `s[0]` followed by `t` is that part of `s`.
   */
  lemma CutStep(s: string, t: string, p: string -> bool)
    requires s != [] && !p(s)
    requires |t| <= |s| - 1 && t == s[1..][..|t|]
    requires |t| == |s| - 1 || p(s[1..][|t|..])
    requires forall i :: 0 <= i < |t| ==> !p(s[1..][i..])
    ensures var r := [s[0]] + t;
      |r| <= |s| && r == s[..|r|] && (|r| == |s| || p(s[|r|..])) && forall i :: 0 <= i < |r| ==> !p(s[i..])
  {
    var r := [s[0]] + t;
    assert s[|r|..] == s[1..][|t|..];
    forall i | 0 <= i < |r| ensures !p(s[i..]) {
      if i > 0 {
        assert s[i..] == s[1..][i - 1..];
      }
    }
  }

  /** `'/'.join(parts[:2])`. */
  function FirstTwo(parts: seq<string>): string
    requires |parts| >= 2
  {
    parts[0] + "/" + parts[1]
  }

  /** Two parts without '/' join into a string with exactly one '/'. */
  lemma FirstTwoOneSlash(parts: seq<string>)
    requires |parts| >= 2 && '/' !in parts[0] && '/' !in parts[1]
    ensures multiset(FirstTwo(parts))['/'] == 1
  {
    assert multiset(FirstTwo(parts)) == multiset(parts[0]) + multiset("/") + multiset(parts[1]);
  }

  /**
   * `parse_huggingface_url`: a string with a '/' that is not an http(s) URL is a repo id and
   * gives its first two '/'-separated parts after `strip('/')`; any other string is parsed as a
   * URL whose host must be (www.)huggingface.co and whose path, stripped of '/' and of a
   * `/tree|blob|resolve/...` tail, gives its first two parts. A string without '/' has no
   * `//`, so its network location is empty and it is rejected as not a HuggingFace URL.
   */
  function ParseHuggingFaceUrl(url: string): (r: Result<string, ParseError>)
    ensures r.Ok? ==> multiset(r.value)['/'] == 1
    ensures '/' !in url ==> r == Failure(NotHuggingFaceUrl(url))
  {
    if '/' in url && !IsWebUrl(url) then
      var parts := Split(Trim(url, IsSlash), '/');
      if |parts| >= 2 then FirstTwoOneSlash(parts); Ok(FirstTwo(parts)) else Failure(InvalidRepoId(url))
    else if '/' !in url then Failure(NotHuggingFaceUrl(url))
    else
      var (netloc, path) := NetlocAndPath(url);
      if !IsHuggingFaceHost(netloc) then Failure(NotHuggingFaceUrl(url))
      else
        var p := CutMarker(Trim(path, IsSlash));
        if '/' !in p then Failure(InvalidRepoPath(p))
        else
          SplitCount(p, '/');
          FirstTwoOneSlash(Split(p, '/'));
          Ok(FirstTwo(Split(p, '/')))
  }

  /** A part of a repo id: non-empty and free of '/'. */
  predicate IsSegment(x: string)
  {
    x != [] && '/' !in x
  }

  /** `s` begins with `a/m`, followed by nothing or by a '/'. */
  predicate RepoShaped(s: string, a: string, m: string)
  {
    var n := |a| + 1 + |m|;
    |s| >= n && s[..n] == a + "/" + m && (|s| == n || s[n] == '/')
  }

  /** A `RepoShaped` string splits into `a`, `m` and the rest. */
  lemma ShapedFirstTwo(s: string, a: string, m: string)
    requires IsSegment(a) && IsSegment(m) && RepoShaped(s, a, m)
    ensures '/' in s && |Split(s, '/')| >= 2 && FirstTwo(Split(s, '/')) == a + "/" + m
  {
    var n := |a| + 1 + |m|;
    assert s[..n][..|a|] == a && s[..n][|a|] == '/' && s[..n][|a| + 1..] == m;
    assert s[..|a|] == a;
    FindAt(s, '/', |a|);
    var t := s[|a| + 1..];
    SplitAt(s, '/', |a|);
    assert t[..|m|] == m;
    if |s| == n {
      assert t == m;
    } else {
      FindAt(t, '/', |m|);
    }
  }

  /** Leading characters that `drop` removes, before one it keeps, are all that `TrimStart` removes. */
  lemma {:induction false} TrimStartLead(lead: string, x: string, drop: char -> bool)
    requires forall k :: 0 <= k < |lead| ==> drop(lead[k])
    requires x == [] || !drop(x[0])
    ensures TrimStart(lead + x, drop) == x
    decreases |lead|
  {
    if lead == [] {
      assert lead + x == x;
    } else {
      assert (lead + x)[1..] == lead[1..] + x;
      TrimStartLead(lead[1..], x, drop);
    }
  }

  /** Removing trailing '/' keeps the shape: `m` does not end with '/'. */
  lemma TrimEndShaped(x: string, a: string, m: string)
    requires IsSegment(a) && IsSegment(m) && RepoShaped(x, a, m)
    ensures RepoShaped(TrimEnd(x, IsSlash), a, m)
  {
    var n := |a| + 1 + |m|;
    var r := TrimEnd(x, IsSlash);
    assert x[n - 1] == m[|m| - 1] by { assert x[..n][n - 1] == m[|m| - 1]; }
    assert !IsSlash(x[n - 1]);
    assert |r| >= n;
    assert r[..n] == x[..n];
  }

  /** `strip('/')` keeps the shape: `a` does not start and `m` does not end with '/'. */
  lemma TrimShaped(lead: string, x: string, a: string, m: string)
    requires IsSegment(a) && IsSegment(m) && RepoShaped(x, a, m)
    requires forall k :: 0 <= k < |lead| ==> lead[k] == '/'
    ensures RepoShaped(Trim(lead + x, IsSlash), a, m)
  {
    assert x[0] == a[0] by { assert x[..|a| + 1 + |m|][0] == a[0]; }
    TrimStartLead(lead, x, IsSlash);
    TrimEndShaped(x, a, m);
  }

  /** In `m + rest`, with no '/' in `m` and `rest` empty or starting with '/', the first '/' ends `m`. */
  lemma FirstSlash(m: string, rest: string)
    requires '/' !in m && (rest == [] || rest[0] == '/')
    ensures Find(m + rest, '/') == if rest == [] then None else Some(|m|)
  {
    if rest == [] {
      assert m + rest == m;
    } else {
      assert (m + rest)[..|m|] == m;
      FindAt(m + rest, '/', |m|);
    }
  }

  /** Where `m` is followed by nothing or by '/', it starts with `w/` only when `m` is `w`. */
  lemma WordBeforeSlash(m: string, rest: string, w: string)
    requires '/' !in m && '/' !in w && (rest == [] || rest[0] == '/')
    requires StartsWith(m + rest, w + "/")
    ensures m == w
  {
    var s, mk := m + rest, w + "/";
    assert s == mk + s[|mk|..];
    FirstSlash(w, "/");
    FirstSlash(m, rest);
    FindAppend(mk, s[|mk|..], '/');
    assert m == s[..|m|] && w == mk[..|w|];
  }

  /** Where `/m` is followed by nothing or by '/', it starts with the marker `/w/` only when `m` is `w`. */
  lemma MarkerWord(m: string, rest: string, w: string)
    requires '/' !in m && '/' !in w && (rest == [] || rest[0] == '/')
    requires StartsWith("/" + m + rest, "/" + w + "/")
    ensures m == w
  {
    var s, mk := "/" + m + rest, "/" + w + "/";
    assert s[1..] == m + rest && mk[1..] == w + "/";
    assert s[1..][..|mk| - 1] == mk[1..];
    WordBeforeSlash(m, rest, w);
  }

  /** A model named `tree`, `blob` or `resolve` would be taken for the start of a revision path. */
  predicate IsMarkerWord(m: string)
  {
    m == "tree" || m == "blob" || m == "resolve"
  }

  /** A marker starts with '/'. */
  lemma NoSlashNoMarker(x: string)
    requires x != [] && x[0] != '/'
    ensures !IsMarker(x)
  {
  }

  /** `/m`, followed by nothing or by '/', is no marker when `m` is no marker word. */
  lemma NoMarkerAtSlash(m: string, rest: string)
    requires '/' !in m && !IsMarkerWord(m) && (rest == [] || rest[0] == '/')
    ensures !IsMarker("/" + m + rest)
  {
    var x := "/" + m + rest;
    if StartsWith(x, "/tree/") { MarkerWord(m, rest, "tree"); }
    if StartsWith(x, "/blob/") { MarkerWord(m, rest, "blob"); }
    if StartsWith(x, "/resolve/") { MarkerWord(m, rest, "resolve"); }
  }

  /** No marker starts inside `a/m`: `a` and `m` hold no '/', and `/m` is no marker. */
  lemma NoMarkerInside(s: string, a: string, m: string)
    requires IsSegment(a) && IsSegment(m) && !IsMarkerWord(m) && RepoShaped(s, a, m)
    ensures forall i :: 0 <= i < |a| + 1 + |m| ==> !IsMarker(s[i..])
  {
    var n := |a| + 1 + |m|;
    forall i | 0 <= i < n ensures !IsMarker(s[i..]) {
      if i < |a| {
        assert s[i..][0] == s[..n][i] == a[i];
        NoSlashNoMarker(s[i..]);
      } else if i == |a| {
        var rest := s[n..];
        assert s[|a|..] == "/" + m + rest by {
          assert s == s[..n] + rest;
          assert s[..n] == a + ("/" + m);
        }
        NoMarkerAtSlash(m, rest);
      } else {
        assert s[i..][0] == s[..n][i] == m[i - |a| - 1];
        NoSlashNoMarker(s[i..]);
      }
    }
  }

  /** Removing the revision tail keeps the shape when the model name is not a marker word. */
  lemma CutShaped(s: string, a: string, m: string)
    requires IsSegment(a) && IsSegment(m) && !IsMarkerWord(m) && RepoShaped(s, a, m)
    ensures RepoShaped(CutMarker(s), a, m)
  {
    var n := |a| + 1 + |m|;
    NoMarkerInside(s, a, m);
    var r := CutMarker(s);
    assert |r| >= n;
    assert r[..n] == s[..n];
  }

  /** In an `https://` URL the first '/' is at position 6 and is followed by another. */
  lemma HttpsSlash(url: string)
    requires StartsWith(url, "https://")
    ensures Find(url, '/') == Some(6) && url[7] == '/'
  {
    assert forall k :: 0 <= k < 6 ==> url[k] != '/';
    NotInPrefix(url, '/', 6);
    FindAt(url, '/', 6);
  }

  /** In an `http://` URL the first '/' is at position 5 and is followed by another. */
  lemma HttpSlash(url: string)
    requires StartsWith(url, "http://")
    ensures Find(url, '/') == Some(5) && url[6] == '/'
  {
    assert forall k :: 0 <= k < 5 ==> url[k] != '/';
    NotInPrefix(url, '/', 5);
    FindAt(url, '/', 5);
  }

  /** A string whose first '/' is followed by a character other than '/' is no http(s) URL. */
  lemma NotWebUrl(url: string, i: nat)
    requires i + 1 < |url| && url[i] == '/' && '/' !in url[..i] && url[i + 1] != '/'
    ensures !IsWebUrl(url)
  {
    FindAt(url, '/', i);
    if StartsWith(url, "https://") {
      HttpsSlash(url);
      assert false;
    } else if StartsWith(url, "http://") {
      HttpSlash(url);
      assert false;
    }
  }

  lemma RepoIdShaped(a: string, m: string, tail: string)
    requires IsSegment(a) && IsSegment(m) && (tail == [] || tail[0] == '/')
    ensures RepoShaped(a + "/" + m + tail, a, m) && '/' in a + "/" + m + tail
    ensures !IsWebUrl(a + "/" + m + tail)
  {
    var url := a + "/" + m + tail;
    var n := |a| + 1 + |m|;
    assert url[..n] == a + "/" + m;
    assert url[..|a|] == a && url[|a|] == '/' && url[|a| + 1] == m[0];
    NotWebUrl(url, |a|);
  }

  /** A repo-id-shaped string that is no web URL takes the shorthand branch and gives `a/m`. */
  lemma ShapedShorthand(url: string, a: string, m: string)
    requires IsSegment(a) && IsSegment(m) && RepoShaped(url, a, m) && !IsWebUrl(url) && '/' in url
    ensures ParseHuggingFaceUrl(url) == Ok(a + "/" + m)
  {
    TrimShaped([], url, a, m);
    assert [] + url == url;
    ShapedFirstTwo(Trim(url, IsSlash), a, m);
  }

  /**
   * A repo id `a/m`, with anything after it that begins with '/', parses to `a/m`: the
   * shorthand branch keeps only the first two parts.
   */
  lemma ShorthandRoundTrip(a: string, m: string, tail: string)
    requires IsSegment(a) && IsSegment(m) && (tail == [] || tail[0] == '/')
    ensures ParseHuggingFaceUrl(a + "/" + m + tail) == Ok(a + "/" + m)
  {
    RepoIdShaped(a, m, tail);
    ShapedShorthand(a + "/" + m + tail, a, m);
  }

  /** No tab, CR, LF, and none of the characters that end a URL path ('?', '#', ';'). */
  predicate PlainPath(x: string)
  {
    forall k :: 0 <= k < |x| ==> !IsUnsafe(x[k]) && x[k] != '?' && x[k] != '#' && x[k] != ';'
  }

  /** The `netloc` and the path of `scheme + host + p` when the host has no delimiter and `p` starts one. */
  lemma SplitWebUrl(scheme: string, host: string, p: string)
    requires scheme == "http://" || scheme == "https://"
    requires forall k :: 0 <= k < |host| ==> !IsUnsafe(host[k]) && !IsNetlocEnd(host[k])
    requires PlainPath(p) && p != [] && p[0] == '/'
    ensures IsWebUrl(scheme + host + p)
    ensures NetlocAndPath(scheme + host + p) == (host, p)
  {
    var url := scheme + host + p;
    assert url[..|scheme|] == scheme;
    assert url == scheme + (host + p);
    assert forall k :: 0 <= k < |url| ==> !IsUnsafe(url[k]) by {
      forall k | 0 <= k < |url| ensures !IsUnsafe(url[k]) {
        if k < |scheme| { assert url[k] == scheme[k]; }
        else if k < |scheme| + |host| { assert url[k] == host[k - |scheme|]; }
        else { assert url[k] == p[k - |scheme| - |host|]; }
      }
    }
    if scheme == "http://" {
      assert !StartsWith(url, "https://") by { assert url[4] == ':'; }
    }
    assert AfterScheme(url) == host + p;
    var rest := host + p;
    assert NetlocLength(rest) == |host| by {
      assert IsNetlocEnd(rest[|host|]);
    }
    assert rest[..|host|] == host && rest[|host|..] == p;
    assert '#' !in p && '?' !in p && ';' !in p;
  }

  lemma HostChars(host: string)
    requires IsHuggingFaceHost(host)
    ensures forall k :: 0 <= k < |host| ==> !IsUnsafe(host[k]) && !IsNetlocEnd(host[k])
  {
  }

  lemma PlainAppend(x: string, y: string)
    requires PlainPath(x) && PlainPath(y)
    ensures PlainPath(x + y)
  {
    forall k | 0 <= k < |x + y| ensures (x + y)[k] == if k < |x| then x[k] else y[k - |x|] {
    }
  }

  /** A web URL on a HuggingFace host whose cleaned path has the shape `a/m...` gives `a/m`. */
  lemma ShapedWebUrl(url: string, host: string, p: string, a: string, m: string)
    requires IsWebUrl(url) && '/' in url && NetlocAndPath(url) == (host, p) && IsHuggingFaceHost(host)
    requires IsSegment(a) && IsSegment(m) && RepoShaped(CutMarker(Trim(p, IsSlash)), a, m)
    ensures ParseHuggingFaceUrl(url) == Ok(a + "/" + m)
  {
    ShapedFirstTwo(CutMarker(Trim(p, IsSlash)), a, m);
  }

  lemma PlainRepoPath(a: string, m: string, tail: string)
    requires PlainPath(a) && PlainPath(m) && PlainPath(tail)
    ensures PlainPath("/" + a + "/" + m + tail)
  {
    assert PlainPath("/");
    PlainAppend("/", a);
    PlainAppend("/" + a, "/");
    PlainAppend("/" + a + "/", m);
    PlainAppend("/" + a + "/" + m, tail);
  }

  lemma HuggingFaceNetloc(scheme: string, host: string, p: string)
    requires scheme == "http://" || scheme == "https://"
    requires IsHuggingFaceHost(host)
    requires PlainPath(p) && p != [] && p[0] == '/'
    ensures IsWebUrl(scheme + host + p) && '/' in scheme + host + p
    ensures NetlocAndPath(scheme + host + p) == (host, p)
  {
    HostChars(host);
    SplitWebUrl(scheme, host, p);
    assert (scheme + host + p)[|scheme| - 1] == '/';
  }

  lemma CleanedPathShaped(x: string, a: string, m: string)
    requires IsSegment(a) && IsSegment(m) && !IsMarkerWord(m) && RepoShaped(x, a, m)
    ensures RepoShaped(CutMarker(Trim("/" + x, IsSlash)), a, m)
  {
    TrimShaped("/", x, a, m);
    CutShaped(Trim("/" + x, IsSlash), a, m);
  }

  /**
   * A model page URL, with or without a revision path such as `/tree/main` after it, parses to
   * its `author/model` repo id.
   */
  lemma UrlRoundTrip(scheme: string, host: string, a: string, m: string, tail: string)
    requires scheme == "http://" || scheme == "https://"
    requires IsHuggingFaceHost(host)
    requires IsSegment(a) && IsSegment(m) && !IsMarkerWord(m)
    requires PlainPath(a) && PlainPath(m) && PlainPath(tail) && (tail == [] || tail[0] == '/')
    ensures ParseHuggingFaceUrl(scheme + host + "/" + a + "/" + m + tail) == Ok(a + "/" + m)
  {
    var x := a + "/" + m + tail;
    var p := "/" + x;
    var url := scheme + host + p;
    assert p == "/" + a + "/" + m + tail;
    assert url == scheme + host + "/" + a + "/" + m + tail;
    RepoIdShaped(a, m, tail);
    PlainRepoPath(a, m, tail);
    HuggingFaceNetloc(scheme, host, p);
    CleanedPathShaped(x, a, m);
    ShapedWebUrl(url, host, p, a, m);
  }

  /** A URL naming any other host is rejected, whatever its path. */
  lemma ForeignHostRejected(scheme: string, host: string, p: string)
    requires scheme == "http://" || scheme == "https://"
    requires forall k :: 0 <= k < |host| ==> !IsUnsafe(host[k]) && !IsNetlocEnd(host[k])
    requires PlainPath(p) && p != [] && p[0] == '/'
    requires !IsHuggingFaceHost(host)
    ensures ParseHuggingFaceUrl(scheme + host + p) == Failure(NotHuggingFaceUrl(scheme + host + p))
  {
    SplitWebUrl(scheme, host, p);
    assert (scheme + host + p)[|scheme| - 1] == '/';
  }

  /**
   * A string with a '/' that is no web URL is rejected exactly when `strip('/')` leaves a
   * single part, and then as an invalid repo id.
   */
  lemma ShorthandRejectedIff(url: string)
    requires '/' in url && !IsWebUrl(url)
    ensures ParseHuggingFaceUrl(url).Failure? <==> '/' !in Trim(url, IsSlash)
    ensures ParseHuggingFaceUrl(url).Failure? ==> ParseHuggingFaceUrl(url) == Failure(InvalidRepoId(url))
  {
    SplitCount(Trim(url, IsSlash), '/');
  }

  /** Without a '/' no marker can start, so nothing is cut. */
  lemma {:induction false} CutWithoutSlash(s: string)
    requires '/' !in s
    ensures CutMarker(s) == s
    decreases |s|
  {
    if s != [] {
      NoSlashNoMarker(s);
      CutWithoutSlash(s[1..]);
      assert s == [s[0]] + s[1..];
    }
  }

  /** A web URL on a HuggingFace host whose cleaned path has no '/' is rejected with that path. */
  lemma UnsplitPathRejected(url: string, host: string, p: string)
    requires IsWebUrl(url) && '/' in url && NetlocAndPath(url) == (host, p) && IsHuggingFaceHost(host)
    requires '/' !in CutMarker(Trim(p, IsSlash))
    ensures ParseHuggingFaceUrl(url) == Failure(InvalidRepoPath(CutMarker(Trim(p, IsSlash))))
  {
  }

  /** `strip('/')` of `/m` is `m` when `m` holds no '/'. */
  lemma TrimLeadingSlash(m: string)
    requires '/' !in m
    ensures Trim("/" + m, IsSlash) == m
  {
    TrimStartLead("/", m, IsSlash);
  }

  lemma SlashJoin(x: string, m: string)
    ensures x + "/" + m == x + ("/" + m)
  {
  }

  /** A model URL whose path holds a single part (or none) is rejected as an invalid repo path. */
  lemma SinglePartPathRejected(scheme: string, host: string, m: string)
    requires scheme == "http://" || scheme == "https://"
    requires IsHuggingFaceHost(host)
    requires '/' !in m && PlainPath(m)
    ensures ParseHuggingFaceUrl(scheme + host + "/" + m) == Failure(InvalidRepoPath(m))
  {
    var p := "/" + m;
    var url := scheme + host + p;
    assert PlainPath("/");
    PlainAppend("/", m);
    HuggingFaceNetloc(scheme, host, p);
    SlashJoin(scheme + host, m);
    TrimLeadingSlash(m);
    CutWithoutSlash(m);
    UnsplitPathRejected(url, host, p);
  }

  // ---------------------------------------------------------------------------------------
  // select_model_file
  // ---------------------------------------------------------------------------------------

  /**
   * A file of a model repository: its name (`rfilename`, or `str(file)` for a plain value) and
   * the date of its last commit when it has a truthy `last_commit` with a truthy `date`.
   * Dates are ordered as their integers are.
   */
  datatype RepoFile = RepoFile(filename: string, commitDate: Option<int>)

  /** The weight-file extensions, most preferred first. */
  const ExtensionPriority: seq<string> := [".safetensors", ".bin", ".pth", ".ckpt", ".h5"]

  /** The first extension from position `k` on that `name` ends with. */
  function RankFrom(name: string, k: nat): (r: Option<nat>)
    requires k <= |ExtensionPriority|
    ensures r.Some? ==> k <= r.value < |ExtensionPriority| && EndsWith(name, ExtensionPriority[r.value])
    ensures forall q :: k <= q < |ExtensionPriority| && (r.None? || q < r.value) ==> !EndsWith(name, ExtensionPriority[q])
    decreases |ExtensionPriority| - k
  {
    if k == |ExtensionPriority| then None
    else if EndsWith(name, ExtensionPriority[k]) then Some(k)
    else RankFrom(name, k + 1)
  }

  /** The group a file joins: the position of the first extension in priority order its name ends with. */
  function ExtensionRank(name: string): (r: Option<nat>)
    ensures r.Some? ==> r.value < |ExtensionPriority| && EndsWith(name, ExtensionPriority[r.value])
    ensures forall q :: 0 <= q < |ExtensionPriority| && (r.None? || q < r.value) ==> !EndsWith(name, ExtensionPriority[q])
  {
    RankFrom(name, 0)
  }

  /** `files_by_ext[ext]` after the grouping loop: the files of group `k`, in input order. */
  function Group(files: seq<RepoFile>, k: nat): seq<RepoFile>
  {
    if files == [] then []
    else
      var last := files[|files| - 1];
      Group(files[..|files| - 1], k) + (if ExtensionRank(last.filename) == Some(k) then [last] else [])
  }

  /** Group `k` holds exactly the files whose rank is `k`. */
  lemma {:induction false} GroupMembers(files: seq<RepoFile>, k: nat)
    ensures forall f :: f in Group(files, k) <==> f in files && ExtensionRank(f.filename) == Some(k)
  {
    if files != [] {
      var last := files[|files| - 1];
      assert files == files[..|files| - 1] + [last];
      GroupMembers(files[..|files| - 1], k);
    }
  }

  /** A file whose name carries a priority extension makes its group non-empty. */
  lemma RankedInGroup(files: seq<RepoFile>, f: RepoFile)
    requires f in files && ExtensionRank(f.filename).Some?
    ensures Groups(files)[ExtensionRank(f.filename).value] != []
  {
    GroupMembers(files, ExtensionRank(f.filename).value);
  }

  /** `with_dates`: the candidates that have a commit date, in order. */
  function Dated(files: seq<RepoFile>): (d: seq<RepoFile>)
    ensures forall f :: f in d <==> f in files && f.commitDate.Some?
  {
    if files == [] then []
    else (if files[0].commitDate.Some? then [files[0]] else []) + Dated(files[1..])
  }

  /**
   * `with_dates.sort(key=get_commit_date, reverse=True)[0]`: the sort is stable, so its head is
   * the first file with the latest date.
   */
  function FirstLatest(files: seq<RepoFile>): (r: RepoFile)
    requires files != [] && forall f :: f in files ==> f.commitDate.Some?
    ensures r in files
    ensures forall f :: f in files ==> f.commitDate.value <= r.commitDate.value
  {
    if |files| == 1 then files[0]
    else
      var best := FirstLatest(files[1..]);
      if files[0].commitDate.value >= best.commitDate.value then files[0] else best
  }

  /** The choice within one non-empty extension group. */
  function ChooseFrom(candidates: seq<RepoFile>): (r: RepoFile)
    requires candidates != []
    ensures r in candidates
  {
    if |candidates| > 1 && Dated(candidates) != [] then FirstLatest(Dated(candidates)) else candidates[0]
  }

  /** `files_by_ext` after the grouping loop, one group per extension in priority order. */
  function Groups(files: seq<RepoFile>): (g: seq<seq<RepoFile>>)
    ensures |g| == |ExtensionPriority|
    ensures forall k :: 0 <= k < |g| ==> g[k] == Group(files, k)
  {
    seq(|ExtensionPriority|, k requires 0 <= k => Group(files, k))
  }

  /** The first non-empty group at position `k` or later (`|groups|` when there is none). */
  function FirstNonEmpty(groups: seq<seq<RepoFile>>, k: nat): (q: nat)
    requires k <= |groups|
    ensures k <= q <= |groups|
    ensures q < |groups| ==> groups[q] != []
    ensures forall p :: k <= p < q ==> groups[p] == []
    decreases |groups| - k
  {
    if k == |groups| || groups[k] != [] then k else FirstNonEmpty(groups, k + 1)
  }

  /** What `select_model_file` returns, as a function of the file list. */
  function ModelFileChoice(files: seq<RepoFile>): Option<RepoFile>
  {
    var groups := Groups(files);
    var q := FirstNonEmpty(groups, 0);
    if q == |groups| then None else Some(ChooseFrom(groups[q]))
  }

  /**
   * `select_model_file`: files are grouped by the first priority extension their names end with,
   * then the first non-empty group gives its file with the latest commit date, the first such
   * when dates tie, or its first file when none has a date (or the group has just one file).
   */
  method SelectModelFile(files: seq<RepoFile>) returns (r: Option<RepoFile>)
    ensures r == ModelFileChoice(files)
  {
    var groups: seq<seq<RepoFile>> := [[], [], [], [], []];
    for i := 0 to |files|
      invariant |groups| == |ExtensionPriority|
      invariant forall k :: 0 <= k < |ExtensionPriority| ==> groups[k] == Group(files[..i], k)
    {
      var f := files[i];
      assert files[..i + 1][..i] == files[..i] && files[..i + 1][i] == f;
      var j := 0;
      while j < |ExtensionPriority|
        invariant j <= |ExtensionPriority|
        invariant forall q :: 0 <= q < j ==> !EndsWith(f.filename, ExtensionPriority[q])
        invariant forall k :: 0 <= k < |ExtensionPriority| ==> groups[k] == Group(files[..i], k)
      {
        if EndsWith(f.filename, ExtensionPriority[j]) {
          assert ExtensionRank(f.filename) == Some(j);
          groups := groups[j := groups[j] + [f]];
          break;
        }
        j := j + 1;
      }
    }
    assert files[..|files|] == files;
    assert groups == Groups(files);
    var k := 0;
    while k < |ExtensionPriority|
      invariant k <= |ExtensionPriority|
      invariant FirstNonEmpty(groups, k) == FirstNonEmpty(groups, 0)
    {
      if groups[k] != [] {
        var candidates := groups[k];
        if |candidates| > 1 {
          var withDates := Dated(candidates);
          if withDates != [] {
            return Some(FirstLatest(withDates));
          }
        }
        return Some(candidates[0]);
      }
      k := k + 1;
    }
    return None;
  }

  /** Within a group, the choice has the latest date of any dated file. */
  lemma ChooseFromLatest(candidates: seq<RepoFile>)
    requires candidates != []
    ensures forall f :: f in candidates && f.commitDate.Some? ==>
      ChooseFrom(candidates).commitDate.Some? && f.commitDate.value <= ChooseFrom(candidates).commitDate.value
  {
    if |candidates| == 1 {
      assert forall f :: f in candidates ==> f == candidates[0];
    }
  }

  /** `select_model_file` returns `None` exactly when no file name ends with a priority extension. */
  lemma SelectNoneIff(files: seq<RepoFile>)
    ensures ModelFileChoice(files).None? <==> forall f :: f in files ==> ExtensionRank(f.filename).None?
  {
    var q := FirstNonEmpty(Groups(files), 0);
    if q < |ExtensionPriority| {
      var g := Group(files, q);
      GroupMembers(files, q);
      assert g[0] in g;
    } else {
      forall f | f in files ensures ExtensionRank(f.filename).None? {
        if ExtensionRank(f.filename).Some? {
          RankedInGroup(files, f);
          assert false;
        }
      }
    }
  }

  /**
   * The chosen file is one of the inputs, its extension is the most preferred among the input
   * files, and no file of that extension has a later commit date.
   */
  lemma SelectBest(files: seq<RepoFile>)
    ensures ModelFileChoice(files).Some? ==>
      var c := ModelFileChoice(files).value;
      c in files && ExtensionRank(c.filename).Some?
      && (forall f :: f in files && ExtensionRank(f.filename).Some? ==>
            ExtensionRank(c.filename).value <= ExtensionRank(f.filename).value)
      && (forall f :: f in files && ExtensionRank(f.filename) == ExtensionRank(c.filename) && f.commitDate.Some? ==>
            c.commitDate.Some? && f.commitDate.value <= c.commitDate.value)
  {
    var q := FirstNonEmpty(Groups(files), 0);
    if q < |ExtensionPriority| {
      var g := Group(files, q);
      var c := ChooseFrom(g);
      GroupMembers(files, q);
      assert c in g;
      assert ExtensionRank(c.filename) == Some(q);
      forall f | f in files && ExtensionRank(f.filename).Some?
        ensures q <= ExtensionRank(f.filename).value
      {
        RankedInGroup(files, f);
      }
      ChooseFromLatest(g);
    }
  }

  // ---------------------------------------------------------------------------------------
  // extract_section_from_markdown
  // ---------------------------------------------------------------------------------------

  predicate IsHash(c: char)
  {
    c == '#'
  }

  /** A markdown heading: its level (the number of leading '#') and its stripped title. */
  datatype HeadingInfo = HeadingInfo(level: nat, title: string)

  /** A line is a heading when its stripped form is one. */
  function Heading(line: string): Option<HeadingInfo>
  {
    StrippedHeading(Trim(line, IsPySpace))
  }

  /**
   * A stripped line starting with '#' is a heading: the level counts the run of leading '#'
   * and the title is what follows, stripped again.
   */
  function StrippedHeading(h: string): Option<HeadingInfo>
  {
    if StartsWith(h, "#") then
      var rest := TrimStart(h, IsHash);
      Some(HeadingInfo(|h| - |rest|, Trim(rest, IsPySpace)))
    else None
  }

  /** `h` starts with a run of exactly `level` '#', at least one. */
  predicate HashRun(h: string, level: nat)
  {
    1 <= level <= |h| && (forall k :: 0 <= k < level ==> h[k] == '#') && (level == |h| || h[level] != '#')
  }

  /** Dropping the leading '#' of a string that starts with one removes exactly its run of '#'. */
  lemma DropHashes(h: string)
    requires StartsWith(h, "#")
    ensures HashRun(h, |h| - |TrimStart(h, IsHash)|)
  {
    var rest := TrimStart(h, IsHash);
    var level := |h| - |rest|;
    assert IsHash(h[0]);
    forall k | 0 <= k < level ensures h[k] == '#' {
      assert IsHash(h[k]);
    }
    assert level == |h| || !IsHash(h[level]) by {
      assert rest == [] || rest[0] == h[level];
    }
  }

  /** The level counts exactly the run of leading '#' and the title is the rest, stripped. */
  lemma HeadingShape(h: string)
    ensures StrippedHeading(h).Some? <==> StartsWith(h, "#")
    ensures StrippedHeading(h).Some? ==>
      HashRun(h, StrippedHeading(h).value.level)
      && StrippedHeading(h).value.title == Trim(h[StrippedHeading(h).value.level..], IsPySpace)
  {
    if StartsWith(h, "#") {
      var rest := TrimStart(h, IsHash);
      var level := |h| - |rest|;
      assert StrippedHeading(h) == Some(HeadingInfo(level, Trim(rest, IsPySpace)));
      assert rest == h[level..];
      DropHashes(h);
    }
  }

  /** The line is a heading, as recognised by `head`, whose title equals `target` ignoring ASCII case. */
  predicate Opens(head: string -> Option<HeadingInfo>, line: string, target: string)
  {
    head(line).Some? && LowerAscii(head(line).value.title) == LowerAscii(target)
  }

  /** The line is a heading, as recognised by `head`, of level `level` or higher (a level number at most `level`). */
  predicate Closes(head: string -> Option<HeadingInfo>, line: string, level: nat)
  {
    head(line).Some? && head(line).value.level <= level
  }

  /**
   * The loop over the lines, from a state (`in_section`, `section_level`, `section_content`) to
   * the collected lines: a matching heading (re)opens the section at its level and is not
   * collected; inside the section a heading of the same or a higher level ends the scan; any
   * other line is collected while the section is open. The scan is stated for any heading
   * recogniser `head`; `extract_section_from_markdown` uses `Heading`.
   */
  function Scan(head: string -> Option<HeadingInfo>, lines: seq<string>, target: string,
                inSection: bool, level: nat, content: seq<string>): seq<string>
  {
    if lines == [] then content
    else if Opens(head, lines[0], target) then Scan(head, lines[1..], target, true, head(lines[0]).value.level, content)
    else if inSection && Closes(head, lines[0], level) then content
    else Scan(head, lines[1..], target, inSection, level, if inSection then content + [lines[0]] else content)
  }

  /** What `extract_section_from_markdown` returns. */
  function ExtractSection(markdownText: string, sectionHeading: string): Option<string>
  {
    if markdownText == [] then None
    else
      var content := Scan(Heading, Split(markdownText, '\n'), sectionHeading, false, 0, []);
      if content == [] then None else Some(Trim(Join(content, "\n"), IsPySpace))
  }

  /** `extract_section_from_markdown`, as the loop over the lines with its early exit. */
  method ExtractSectionFromMarkdown(markdownText: string, sectionHeading: string) returns (r: Option<string>)
    ensures r == ExtractSection(markdownText, sectionHeading)
  {
    if markdownText == [] {
      return None;
    }
    var lines := Split(markdownText, '\n');
    var content: seq<string> := [];
    var inSection := false;
    var level: nat := 0;
    var i := 0;
    while i < |lines|
      invariant 0 <= i <= |lines|
      invariant Scan(Heading, lines, sectionHeading, false, 0, []) == Scan(Heading, lines[i..], sectionHeading, inSection, level, content)
    {
      var line := lines[i];
      ScanStep(Heading, lines, i, sectionHeading, inSection, level, content);
      var h := Heading(line);
      if h.Some? {
        if LowerAscii(h.value.title) == LowerAscii(sectionHeading) {
          inSection := true;
          level := h.value.level;
          i := i + 1;
          continue;
        }
        if inSection && h.value.level <= level {
          break;
        }
      }
      if inSection {
        content := content + [line];
      }
      i := i + 1;
    }
    if content != [] {
      r := Some(Trim(Join(content, "\n"), IsPySpace));
    } else {
      r := None;
    }
  }

  /** One step of the scan at position `i` of the lines. */
  lemma ScanStep(head: string -> Option<HeadingInfo>, lines: seq<string>, i: nat, target: string,
                 inSection: bool, level: nat, content: seq<string>)
    requires i < |lines|
    ensures Scan(head, lines[i..], target, inSection, level, content) ==
      if Opens(head, lines[i], target) then Scan(head, lines[i + 1..], target, true, head(lines[i]).value.level, content)
      else if inSection && Closes(head, lines[i], level) then content
      else Scan(head, lines[i + 1..], target, inSection, level, if inSection then content + [lines[i]] else content)
  {
    assert lines[i..][0] == lines[i] && lines[i..][1..] == lines[i + 1..];
  }

  /** Before the section opens nothing is collected. */
  lemma {:induction false} ScanBefore(head: string -> Option<HeadingInfo>, pre: seq<string>, rest: seq<string>,
                                      target: string, level: nat)
    requires forall k :: 0 <= k < |pre| ==> !Opens(head, pre[k], target)
    ensures Scan(head, pre + rest, target, false, level, []) == Scan(head, rest, target, false, level, [])
  {
    if pre != [] {
      var lines := pre + rest;
      assert lines[0] == pre[0] && lines[1..] == pre[1..] + rest;
      assert !Opens(head, lines[0], target);
      assert Scan(head, lines, target, false, level, []) == Scan(head, lines[1..], target, false, level, []);
      ScanBefore(head, pre[1..], rest, target, level);
    } else {
      assert pre + rest == rest;
    }
  }

  /** Inside the section every line that neither matches nor closes it is collected. */
  lemma {:induction false} ScanBody(head: string -> Option<HeadingInfo>, body: seq<string>, rest: seq<string>,
                                    target: string, level: nat, content: seq<string>)
    requires forall k :: 0 <= k < |body| ==> !Opens(head, body[k], target) && !Closes(head, body[k], level)
    ensures Scan(head, body + rest, target, true, level, content) == Scan(head, rest, target, true, level, content + body)
  {
    if body != [] {
      var lines := body + rest;
      assert lines[0] == body[0] && lines[1..] == body[1..] + rest;
      assert !Opens(head, lines[0], target) && !Closes(head, lines[0], level);
      assert Scan(head, lines, target, true, level, content) == Scan(head, lines[1..], target, true, level, content + [body[0]]);
      assert content + body == (content + [body[0]]) + body[1..];
      ScanBody(head, body[1..], rest, target, level, content + [body[0]]);
    } else {
      assert body + rest == rest && content + body == content;
    }
  }

  /**
   * A scan of `pre + [heading] + body + rest`, where `heading` is the first opening heading,
   * `body` neither reopens nor closes the section and `rest` is empty or starts with a closing
   * heading, collects exactly `body`.
   */
  lemma ScanSection(head: string -> Option<HeadingInfo>, target: string,
                    pre: seq<string>, heading: string, body: seq<string>, rest: seq<string>)
    requires forall k :: 0 <= k < |pre| ==> !Opens(head, pre[k], target)
    requires Opens(head, heading, target)
    requires forall k :: 0 <= k < |body| ==>
      !Opens(head, body[k], target) && !Closes(head, body[k], head(heading).value.level)
    requires rest == [] || (!Opens(head, rest[0], target) && Closes(head, rest[0], head(heading).value.level))
    ensures Scan(head, pre + [heading] + body + rest, target, false, 0, []) == body
  {
    var level := head(heading).value.level;
    var tail := body + rest;
    var after := [heading] + tail;
    assert pre + [heading] + body + rest == pre + after;
    ScanBefore(head, pre, after, target, 0);
    assert after[0] == heading && after[1..] == tail;
    assert Scan(head, after, target, false, 0, []) == Scan(head, body + rest, target, true, level, []);
    ScanBody(head, body, rest, target, level, []);
    assert [] + body == body;
    assert Scan(head, rest, target, true, level, body) == body;
  }

  /** Text without any heading matching the sought title has no such section. */
  lemma NoMatchingHeading(markdownText: string, sectionHeading: string)
    requires forall line :: line in Split(markdownText, '\n') ==> !Opens(Heading, line, sectionHeading)
    ensures ExtractSection(markdownText, sectionHeading) == None
  {
    var lines := Split(markdownText, '\n');
    assert lines + [] == lines;
    ScanBefore(Heading, lines, [], sectionHeading, 0);
  }

  /**
   * When the first matching heading is at level `level`, the section is exactly the lines after
   * it up to the next heading of the same or a higher level (or the end of the text), joined
   * and stripped; `None` when there are no such lines.
   */
  lemma SectionContent(markdownText: string, sectionHeading: string,
                       pre: seq<string>, heading: string, body: seq<string>, rest: seq<string>)
    requires Split(markdownText, '\n') == pre + [heading] + body + rest
    requires forall k :: 0 <= k < |pre| ==> !Opens(Heading, pre[k], sectionHeading)
    requires Opens(Heading, heading, sectionHeading)
    requires forall k :: 0 <= k < |body| ==>
      !Opens(Heading, body[k], sectionHeading) && !Closes(Heading, body[k], Heading(heading).value.level)
    requires rest == [] || (!Opens(Heading, rest[0], sectionHeading) && Closes(Heading, rest[0], Heading(heading).value.level))
    ensures ExtractSection(markdownText, sectionHeading) ==
      if body == [] then None else Some(Trim(Join(body, "\n"), IsPySpace))
  {
    ScanSection(Heading, sectionHeading, pre, heading, body, rest);
    assert |Split(markdownText, '\n')| >= 1 + |pre|;
    assert markdownText != [] by {
      assert Split([], '\n') == [[]];
    }
  }
}
