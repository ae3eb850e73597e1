/** Source classification and raw-URL normalisation (`toSourceURL` in
    modules/Snippet.js). URL parsing is reduced to two string-level helpers:
    the hostname is the text after `https://` up to the first `/`, `?` or `#`,
    and the pathname is what follows it up to the first `?` or `#`. */
module SourceUrl {
  import opened Optional
  import opened Text
  import JsArray

  const Scheme: string := "https://"
  const GitHubHost: string := "github.com"
  const GitLabHost: string := "gitlab.com"
  const GitHubRawHost: string := "raw.githubusercontent.com"
  /** `https://github.com/` and `https://raw.githubusercontent.com/`. */
  const GitHubPage: string := Scheme + GitHubHost + "/"
  const GitHubRaw: string := Scheme + GitHubRawHost + "/"
  const GitLabBlob: string := "/-/blob/"
  const GitLabRaw: string := "/-/raw/"

  /** Characters that end the host part and the path part of a URL. */
  const HostEnd: set<char> := {'/', '?', '#'}
  const PathEnd: set<char> := {'?', '#'}

  /** A source is fetched rather than shown as it is exactly when it starts
      with `https://` and is a single line. */
  predicate IsUrlSource(source: string) {
    StartsWith(source, Scheme) && '\n' !in source
  }

  /** `new URL(url).hostname`, simplified. */
  function Hostname(url: string): (host: string)
    requires StartsWith(url, Scheme)
    ensures |Scheme| + |host| <= |url| && url[|Scheme|..|Scheme| + |host|] == host
    ensures forall i :: 0 <= i < |host| ==> host[i] !in HostEnd
    ensures |Scheme| + |host| < |url| ==> url[|Scheme| + |host|] in HostEnd
  {
    TakeUntil(url[|Scheme|..], HostEnd)
  }

  /** `new URL(url).pathname`, simplified (an empty path stays empty). */
  function Pathname(url: string): (path: string)
    requires StartsWith(url, Scheme)
  {
    TakeUntil(url[|Scheme| + |Hostname(url)|..], PathEnd)
  }

  /** The raw-content URL of `file` on branch `branch` of `repo` (`owner/name`). */
  function GitHubRawUrl(repo: string, branch: string, file: string): string {
    GitHubRaw + repo + "/refs/heads/" + branch + "/" + file
  }

  /** `toSourceURL`: a GitHub page URL is rebuilt as a raw-content URL from
      the `/`-separated parts of the original string (parts 3 and 4 are the
      repository, part 6 the branch, parts 7 on the file path); in a GitLab URL
      whose path has `/-/blob/` the first `/-/blob/` of the whole string
      becomes `/-/raw/`; every other URL is kept. */
  function Normalise(source: string): (url: string)
    requires StartsWith(source, Scheme)
    ensures StartsWith(url, Scheme)
    ensures Hostname(source) != GitHubHost && Hostname(source) != GitLabHost ==> url == source
    ensures Hostname(source) == GitLabHost && !Contains(Pathname(source), GitLabBlob) ==> url == source
  {
    if Hostname(source) == GitHubHost then
      var parts := Split(source, '/');
      var repo := Join(JsArray.Slice(parts, 3, 5), "/");
      var head := JsArray.ElementText(parts, 6);
      var file := Join(JsArray.Slice(parts, 7, |parts|), "/");
      GitHubRawUrl(repo, head, file)
    else if Hostname(source) == GitLabHost && Contains(Pathname(source), GitLabBlob) then
      NoBlobInGitLabScheme(source);
      ReplaceKeepsPrefix(source, GitLabBlob, GitLabRaw, |Scheme|);
      ReplaceFirst(source, GitLabBlob, GitLabRaw)
    else
      source
  }

  /** A pattern cannot match where its first or second character is missing. */
  lemma NoMatchAt(s: string, pat: string, j: int)
    requires |pat| >= 2 && 0 <= j && j + 1 < |s|
    requires s[j] != pat[0] || s[j + 1] != pat[1]
    ensures !MatchesAt(s, pat, j)
  {
    if j + |pat| <= |s| {
      assert s[j..j + |pat|][0] == s[j];
      assert s[j..j + |pat|][1] == s[j + 1];
    }
  }

  /** `/-/blob/` cannot start inside the `https://` of a GitLab URL. */
  lemma NoBlobInGitLabScheme(s: string)
    requires StartsWith(s, Scheme) && Hostname(s) == GitLabHost
    ensures forall j :: 0 <= j < |Scheme| ==> !MatchesAt(s, GitLabBlob, j)
  {
    assert s[..|Scheme|] == Scheme;
    assert s[|Scheme|] == GitLabHost[0];
    forall j | 0 <= j < |Scheme|
      ensures !MatchesAt(s, GitLabBlob, j)
    {
      assert s[j] == Scheme[j];
      NoMatchAt(s, GitLabBlob, j);
    }
  }

  /** Replacing the first match keeps every character before the first possible
      match position. */
  lemma ReplaceKeepsPrefix(s: string, pat: string, rep: string, k: nat)
    requires k <= |s|
    requires forall j :: 0 <= j < k ==> !MatchesAt(s, pat, j)
    ensures |ReplaceFirst(s, pat, rep)| >= k
    ensures ReplaceFirst(s, pat, rep)[..k] == s[..k]
  {
    match FindFrom(s, pat, 0)
    case None =>
    case Some(i) =>
      assert FirstMatchAt(s, pat, i);
      assert i >= k;
      var r := s[..i] + rep + s[i + |pat|..];
      assert r[..k] == s[..k];
  }

  /** The hostname of `https://` + `host` + `rest` is `host` when `rest` is
      empty or starts a path, query or fragment. */
  lemma HostnameOf(host: string, rest: string)
    requires forall i :: 0 <= i < |host| ==> host[i] !in HostEnd
    requires rest == [] || rest[0] in HostEnd
    ensures StartsWith(Scheme + host + rest, Scheme)
    ensures Hostname(Scheme + host + rest) == host
  {
    var url := Scheme + host + rest;
    assert url[..|Scheme|] == Scheme;
    assert url[|Scheme|..] == host + rest;
    TakeUntilConcat(host, rest, HostEnd);
  }

  /** The body of `Normalise` on a GitHub URL, for use in proofs. */
  lemma GitHubRewrite(source: string)
    requires StartsWith(source, Scheme) && Hostname(source) == GitHubHost
    ensures var parts := Split(source, '/');
      Normalise(source)
      == GitHubRawUrl(Join(JsArray.Slice(parts, 3, 5), "/"), JsArray.ElementText(parts, 6),
                      Join(JsArray.Slice(parts, 7, |parts|), "/"))
  {
  }

  /** The first three `/`-parts of a GitHub page URL are `https:`, the empty
      part and the host; the parts of what follows the host come after them. */
  lemma GitHubPageSplit(rest: string)
    ensures StartsWith(GitHubPage + rest, Scheme) && Hostname(GitHubPage + rest) == GitHubHost
    ensures var parts := Split(GitHubPage + rest, '/'); |parts| >= 4 && parts[3..] == Split(rest, '/')
  {
    GitHubPageHost(rest);
    GitHubPageShape(rest);
    SchemeParts();
    HostChars();
    SplitThreeThen("https:", "", GitHubHost, rest);
  }

  lemma GitHubPageShape(rest: string)
    ensures GitHubPage + rest == "https:" + "/" + ("" + "/" + (GitHubHost + "/" + rest))
  {
    SchemeParts();
  }

  /** The `/`-parts of three separator-free parts followed by a rest. */
  lemma SplitThreeThen(a0: string, a1: string, a2: string, rest: string)
    requires '/' !in a0 && '/' !in a1 && '/' !in a2
    ensures var parts := Split(a0 + "/" + (a1 + "/" + (a2 + "/" + rest)), '/');
      |parts| >= 4 && parts[3..] == Split(rest, '/')
  {
    var t2 := a2 + "/" + rest;
    var t1 := a1 + "/" + t2;
    SplitCons(a2, rest, '/');
    SplitCons(a1, t2, '/');
    SplitCons(a0, t1, '/');
  }

  lemma GitHubPageHost(rest: string)
    ensures StartsWith(GitHubPage + rest, Scheme) && Hostname(GitHubPage + rest) == GitHubHost
  {
    HostChars();
    assert GitHubPage + rest == Scheme + GitHubHost + ("/" + rest);
    HostnameOf(GitHubHost, "/" + rest);
  }

  lemma SchemeParts()
    ensures Scheme == "https:" + "/" + "" + "/"
    ensures '/' !in "https:" && '/' !in ""
  {
  }

  lemma HostChars()
    ensures '/' !in GitHubHost
    ensures forall i :: 0 <= i < |GitHubHost| ==> GitHubHost[i] !in HostEnd
    ensures forall i :: 0 <= i < |GitHubRawHost| ==> GitHubRawHost[i] !in HostEnd
    ensures GitHubRawHost != GitHubHost && GitHubRawHost != GitLabHost
  {
  }

  /** A GitHub page URL as a host and `/`-separated parts. */
  lemma GitHubPageParts(source: string, owner: string, repo: string, kind: string, ref: string, path: string)
    requires '/' !in owner && '/' !in repo && '/' !in kind && '/' !in ref
    requires source == GitHubPage + owner + "/" + repo + "/" + kind + "/" + ref + "/" + path
    ensures StartsWith(source, Scheme) && Hostname(source) == GitHubHost
    ensures var parts := Split(source, '/');
      |parts| >= 7 && parts[3] == owner && parts[4] == repo && parts[6] == ref && parts[7..] == Split(path, '/')
  {
    var rest := owner + "/" + (repo + "/" + (kind + "/" + (ref + "/" + path)));
    Regroup(GitHubPage, owner, repo, kind, ref, path);
    GitHubPageSplit(rest);
    SplitFourPartsThen(owner, repo, kind, ref, path);
    PartsAfterThree(Split(source, '/'), Split(rest, '/'), Split(path, '/'));
  }

  lemma Regroup(p: string, a: string, b: string, c: string, d: string, e: string)
    ensures p + a + "/" + b + "/" + c + "/" + d + "/" + e == p + (a + "/" + (b + "/" + (c + "/" + (d + "/" + e))))
  {
  }

  lemma RegroupTwo(p: string, a: string, b: string)
    ensures p + a + "/" + b == p + (a + "/" + b)
  {
  }

  lemma PartsAfterThree(parts: seq<string>, r: seq<string>, tail: seq<string>)
    requires |parts| >= 4 && parts[3..] == r && |r| >= 4 && r[4..] == tail
    ensures |parts| >= 7 && parts[3] == r[0] && parts[4] == r[1] && parts[6] == r[3] && parts[7..] == tail
  {
    assert parts[7..] == r[4..];
  }

  /** What `Normalise` builds from the parts of a GitHub URL. */
  lemma GitHubRewriteOfParts(source: string, owner: string, repo: string, ref: string, path: string)
    requires StartsWith(source, Scheme) && Hostname(source) == GitHubHost
    requires var parts := Split(source, '/');
      |parts| >= 7 && parts[3] == owner && parts[4] == repo && parts[6] == ref && parts[7..] == Split(path, '/')
    ensures Normalise(source) == GitHubRawUrl(owner + "/" + repo, ref, path)
  {
    var parts := Split(source, '/');
    GitHubRewrite(source);
    assert JsArray.Slice(parts, 3, 5) == [owner, repo];
    assert JsArray.Slice(parts, 7, |parts|) == Split(path, '/');
    JoinSplit(path, '/');
    assert Join([owner, repo], "/") == owner + "/" + repo;
  }

  /** Canonical GitHub page URLs become raw-content URLs on the branch:
      `https://github.com/o/r/blob/ref/path` becomes
      `https://raw.githubusercontent.com/o/r/refs/heads/ref/path`. The path is
      carried over character for character, and the fifth part (`blob`,
      `tree`, anything) is not checked. */
  lemma GitHubBlobBecomesRaw(owner: string, repo: string, kind: string, ref: string, path: string)
    requires '/' !in owner && '/' !in repo && '/' !in kind && '/' !in ref
    ensures StartsWith(GitHubPage + owner + "/" + repo + "/" + kind + "/" + ref + "/" + path, Scheme)
    ensures Normalise(GitHubPage + owner + "/" + repo + "/" + kind + "/" + ref + "/" + path)
         == GitHubRawUrl(owner + "/" + repo, ref, path)
  {
    var source := GitHubPage + owner + "/" + repo + "/" + kind + "/" + ref + "/" + path;
    GitHubPageParts(source, owner, repo, kind, ref, path);
    GitHubRewriteOfParts(source, owner, repo, ref, path);
  }

  /** A GitHub repository URL as a host and five `/`-separated parts. */
  lemma GitHubRepositoryParts(source: string, owner: string, repo: string)
    requires '/' !in owner && '/' !in repo
    requires source == GitHubPage + owner + "/" + repo
    ensures StartsWith(source, Scheme) && Hostname(source) == GitHubHost
    ensures var parts := Split(source, '/'); |parts| == 5 && parts[3] == owner && parts[4] == repo
  {
    var rest := owner + "/" + repo;
    RegroupTwo(GitHubPage, owner, repo);
    GitHubPageSplit(rest);
    SplitCons(owner, repo, '/');
    SplitSingle(repo, '/');
    PartsOfRepository(Split(source, '/'), Split(rest, '/'), owner, repo);
  }

  lemma PartsOfRepository(parts: seq<string>, r: seq<string>, owner: string, repo: string)
    requires |parts| >= 4 && parts[3..] == r && |r| >= 1 && r[0] == owner && r[1..] == [repo]
    ensures |parts| == 5 && parts[3] == owner && parts[4] == repo
  {
    assert r[1..][0] == repo;
  }

  /** The `/`-parts of four separator-free parts followed by a rest. */
  lemma {:induction false} SplitFourPartsThen(a0: string, a1: string, a2: string, a3: string, rest: string)
    requires '/' !in a0 && '/' !in a1 && '/' !in a2 && '/' !in a3
    ensures var parts := Split(a0 + "/" + (a1 + "/" + (a2 + "/" + (a3 + "/" + rest))), '/');
      |parts| >= 4 && parts[0] == a0 && parts[1] == a1 && parts[3] == a3 && parts[4..] == Split(rest, '/')
  {
    var t3 := a3 + "/" + rest;
    var t2 := a2 + "/" + t3;
    var t1 := a1 + "/" + t2;
    SplitCons(a3, rest, '/');
    SplitCons(a2, t3, '/');
    SplitCons(a1, t2, '/');
    SplitCons(a0, t1, '/');
  }

  /** Nothing is validated: a GitHub URL that names only a repository gives a
      raw URL on a branch called `undefined` with an empty file path. */
  lemma GitHubRepositoryUrlIsNotValidated(owner: string, repo: string)
    requires '/' !in owner && '/' !in repo
    ensures StartsWith(GitHubPage + owner + "/" + repo, Scheme)
    ensures Normalise(GitHubPage + owner + "/" + repo)
         == GitHubRawUrl(owner + "/" + repo, "undefined", "")
  {
    var source := GitHubPage + owner + "/" + repo;
    GitHubRepositoryParts(source, owner, repo);
    GitHubRewriteOfRepository(source, owner, repo);
  }

  /** What `Normalise` builds from the five parts of a repository URL. */
  lemma GitHubRewriteOfRepository(source: string, owner: string, repo: string)
    requires StartsWith(source, Scheme) && Hostname(source) == GitHubHost
    requires var parts := Split(source, '/'); |parts| == 5 && parts[3] == owner && parts[4] == repo
    ensures Normalise(source) == GitHubRawUrl(owner + "/" + repo, "undefined", "")
  {
    var parts := Split(source, '/');
    GitHubRewrite(source);
    assert JsArray.Slice(parts, 3, 5) == [owner, repo];
    assert JsArray.Slice(parts, 7, |parts|) == [];
    assert Join([owner, repo], "/") == owner + "/" + repo;
  }

  /** The host and the path of a GitLab URL with `/-/blob/` after `head`. */
  lemma GitLabHostAndPath(source: string, head: string, tail: string)
    requires source == Scheme + GitLabHost + head + GitLabBlob + tail
    requires head == [] || head[0] == '/'
    requires '?' !in head && '#' !in head
    ensures StartsWith(source, Scheme) && Hostname(source) == GitLabHost
    ensures Contains(Pathname(source), GitLabBlob)
  {
    var rest := head + GitLabBlob + tail;
    assert source == Scheme + GitLabHost + rest;
    assert rest[0] == '/';
    HostnameOf(GitLabHost, rest);
    assert source[|Scheme| + |GitLabHost|..] == (head + GitLabBlob) + tail;
    forall i | 0 <= i < |head + GitLabBlob|
      ensures (head + GitLabBlob)[i] !in PathEnd
    {
      if i >= |head| {
        assert (head + GitLabBlob)[i] == GitLabBlob[i - |head|];
      } else {
        assert (head + GitLabBlob)[i] == head[i];
      }
    }
    TakeUntilConcat(head + GitLabBlob, tail, PathEnd);
    var path := Pathname(source);
    assert path[|head|..|head| + |GitLabBlob|] == GitLabBlob;
    assert MatchesAt(path, GitLabBlob, |head|);
  }

  /** The `/-/blob/` after `head` is the first one in the whole URL. */
  lemma GitLabFirstBlob(source: string, head: string, tail: string)
    requires source == Scheme + GitLabHost + head + GitLabBlob + tail
    requires StartsWith(source, Scheme) && Hostname(source) == GitLabHost
    requires forall j :: 0 <= j < |head| ==> !MatchesAt(head + GitLabBlob, GitLabBlob, j)
    ensures FirstMatchAt(source, GitLabBlob, |Scheme| + |GitLabHost| + |head|)
  {
    var k := |Scheme| + |GitLabHost| + |head|;
    assert source[k..k + |GitLabBlob|] == GitLabBlob;
    NoBlobInGitLabScheme(source);
    forall j | |Scheme| <= j < k
      ensures !MatchesAt(source, GitLabBlob, j)
    {
      if |Scheme| + |GitLabHost| <= j {
        NoBlobInHead(source, head, tail, j);
      } else {
        NoBlobInGitLabHost(source, j);
      }
    }
  }

  lemma NoBlobInHead(source: string, head: string, tail: string, j: int)
    requires source == Scheme + GitLabHost + head + GitLabBlob + tail
    requires forall j :: 0 <= j < |head| ==> !MatchesAt(head + GitLabBlob, GitLabBlob, j)
    requires |Scheme| + |GitLabHost| <= j < |Scheme| + |GitLabHost| + |head|
    ensures !MatchesAt(source, GitLabBlob, j)
  {
    var j' := j - |Scheme| - |GitLabHost|;
    assert source[j..j + |GitLabBlob|] == (head + GitLabBlob)[j'..j' + |GitLabBlob|];
    assert !MatchesAt(head + GitLabBlob, GitLabBlob, j');
  }

  lemma NoBlobInGitLabHost(source: string, j: int)
    requires StartsWith(source, Scheme) && Hostname(source) == GitLabHost
    requires |Scheme| <= j < |Scheme| + |GitLabHost|
    ensures !MatchesAt(source, GitLabBlob, j)
  {
    assert source[j] == GitLabHost[j - |Scheme|];
    if j + 1 < |source| {
      NoMatchAt(source, GitLabBlob, j);
    }
  }

  /** In a GitLab URL whose path holds `/-/blob/`, the first `/-/blob/` becomes
      `/-/raw/` and every other character, later `/-/blob/`s included, is kept.
      `head` is the path before that first match (it starts the path and has
      no query or fragment), `tail` is everything after it. */
  lemma GitLabBlobBecomesRaw(head: string, tail: string)
    requires head == [] || head[0] == '/'
    requires '?' !in head && '#' !in head
    requires forall j :: 0 <= j < |head| ==> !MatchesAt(head + GitLabBlob, GitLabBlob, j)
    ensures StartsWith(Scheme + GitLabHost + head + GitLabBlob + tail, Scheme)
    ensures Normalise(Scheme + GitLabHost + head + GitLabBlob + tail)
         == Scheme + GitLabHost + head + GitLabRaw + tail
  {
    var source := Scheme + GitLabHost + head + GitLabBlob + tail;
    GitLabHostAndPath(source, head, tail);
    GitLabFirstBlob(source, head, tail);
    var k := |Scheme| + |GitLabHost| + |head|;
    assert source[..k] == Scheme + GitLabHost + head;
    assert source[k + |GitLabBlob|..] == tail;
  }

  /** Normalising twice changes nothing more, except for GitLab URLs (whose
      later `/-/blob/`s are rewritten one per call). A raw GitHub URL is on
      another host and is kept. */
  lemma NormaliseIdempotentOffGitLab(source: string)
    requires StartsWith(source, Scheme) && Hostname(source) != GitLabHost
    ensures Normalise(Normalise(source)) == Normalise(source)
  {
    if Hostname(source) == GitHubHost {
      var parts := Split(source, '/');
      var repo := Join(JsArray.Slice(parts, 3, 5), "/");
      var branch := JsArray.ElementText(parts, 6);
      var file := Join(JsArray.Slice(parts, 7, |parts|), "/");
      GitHubRewrite(source);
      RawUrlHost(repo, branch, file);
      HostChars();
      HostnameOf(GitHubRawHost, "/" + repo + "/refs/heads/" + branch + "/" + file);
    }
  }

  /** A raw GitHub URL is on the raw-content host. */
  lemma RawUrlHost(repo: string, branch: string, file: string)
    ensures GitHubRawUrl(repo, branch, file)
         == Scheme + GitHubRawHost + ("/" + repo + "/refs/heads/" + branch + "/" + file)
  {
    RegroupAfter(Scheme + GitHubRawHost, "/", repo, "/refs/heads/", branch, "/", file);
  }

  lemma RegroupAfter(p: string, a: string, b: string, c: string, d: string, e: string, f: string)
    ensures p + a + b + c + d + e + f == p + (a + b + c + d + e + f)
  {
  }
}
