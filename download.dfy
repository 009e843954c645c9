/**
 * The download side of cmd/download.go: how a DESCRIPTION URL on GitHub or
 * GitLab is taken apart into git coordinates, which API URLs are built from
 * them, where a repository's PACKAGES index lives, and the two loops that fetch
 * DESCRIPTION and PACKAGES files.
 *
 * The HTTP client is the `download` parameter: it maps a URL and the request
 * headers to the fetched body or to a failure. Decoding a JSON API response is
 * the `jsonField` parameter, which picks one named field out of a body.
 * The command-line token flags are the `gitHubToken` and `gitLabToken` parameters.
 */
module Download {
  import opened Strings
  import opened Structs

  /** What the download function returns: the body, or an error. */
  datatype Fetch = Fetched(content: string) | FetchFailed

  /** The prefix that marks a DESCRIPTION URL as GitHub raw content. */
  const GitHubRawPrefix: string := "https://raw.githubusercontent.com"

  /** The scheme put back in front of GitLab hosts (the `https` constant). */
  const Scheme: string := "https://"

  // ---------------------------------------------------------------------
  // Tag or branch

  /**
   * The unanchored tag regexp `v\d+(\.\d+)*` matches somewhere in `ref`; since
   * the optional group can match empty, that is a 'v' directly followed by a digit.
   */
  predicate IsTagRef(ref: string)
    decreases |ref|
  {
    |ref| >= 2 && ((ref[0] == 'v' && IsDigit(ref[1])) || IsTagRef(ref[1..]))
  }

  /** The scan finds a 'v' followed by a digit exactly when there is one. */
  lemma {:induction false} TagRefMeaning(ref: string)
    decreases |ref|
    ensures IsTagRef(ref) <==> exists i :: 0 <= i && i + 1 < |ref| && ref[i] == 'v' && IsDigit(ref[i + 1])
  {
    if |ref| >= 2 {
      var tail := ref[1..];
      TagRefMeaning(tail);
      if IsTagRef(tail) {
        var i :| 0 <= i && i + 1 < |tail| && tail[i] == 'v' && IsDigit(tail[i + 1]);
        assert ref[i + 1] == 'v' && IsDigit(ref[i + 2]);
      }
      if !(ref[0] == 'v' && IsDigit(ref[1])) && exists i :: 0 <= i && i + 1 < |ref| && ref[i] == 'v' && IsDigit(ref[i + 1]) {
        var i :| 0 <= i && i + 1 < |ref| && ref[i] == 'v' && IsDigit(ref[i + 1]);
        assert tail[i - 1] == 'v' && IsDigit(tail[i]);
      }
    }
  }

  /** The GitLab API path for a ref: tags for a tag name, branches otherwise. */
  function GitLabRefKind(remoteRef: string): string {
    if IsTagRef(remoteRef) then "tags" else "branches"
  }

  /** The GitHub API path for a ref: tags for a tag name, heads otherwise. */
  function GitHubRefKind(remoteRef: string): string {
    if IsTagRef(remoteRef) then "tags" else "heads"
  }

  /** Both hosts make the same tag-or-branch decision, and it is the 'v'-then-digit test. */
  lemma RefKinds(remoteRef: string)
    ensures GitLabRefKind(remoteRef) == "tags" <==> GitHubRefKind(remoteRef) == "tags"
    ensures GitHubRefKind(remoteRef) == "tags" <==>
      exists i :: 0 <= i && i + 1 < |remoteRef| && remoteRef[i] == 'v' && IsDigit(remoteRef[i + 1])
    ensures GitLabRefKind(remoteRef) in {"tags", "branches"} && GitHubRefKind(remoteRef) in {"tags", "heads"}
  {
    TagRefMeaning(remoteRef);
  }

  // ---------------------------------------------------------------------
  // Splitting off the last '/'-segment

  /** The pieces of `s` on `c` except the last, joined back with `c`, and the last piece. */
  function SplitLast(s: string, c: char): (string, string) {
    var parts := Split(s, [c]);
    (Join(parts[..|parts| - 1], [c]), parts[|parts| - 1])
  }

  /** The last piece holds no `c`, and the two halves put back together around `c` give `s`. */
  lemma SplitLastMeaning(s: string, c: char)
    ensures c !in SplitLast(s, c).1
    ensures c in s ==> s == SplitLast(s, c).0 + [c] + SplitLast(s, c).1
    ensures c !in s ==> SplitLast(s, c) == ("", s)
  {
    var parts := Split(s, [c]);
    var n := |parts|;
    SplitPiecesFree(s, [c]);
    assert parts[n - 1] in parts;
    ContainsChar(parts[n - 1], c);
    if c in s {
      SplitLastRejoin(s, c);
    } else {
      IndexAbsent(s, c);
      SplitUnfold(s, [c]);
    }
  }

  lemma SplitLastRejoin(s: string, c: char)
    requires c in s
    ensures s == SplitLast(s, c).0 + [c] + SplitLast(s, c).1
  {
    var parts := Split(s, [c]);
    SplitCount(s, c);
    var init, last := parts[..|parts| - 1], parts[|parts| - 1];
    FrontLast(parts);
    JoinSplit(s, [c]);
    JoinSnoc(init, last, [c]);
  }

  /** A character that occurs splits the string into at least two pieces. */
  lemma SplitCount(s: string, c: char)
    requires c in s
    ensures |Split(s, [c])| >= 2
  {
    IndexChar(s, c);
    SplitUnfold(s, [c]);
  }

  lemma FrontLast<T>(xs: seq<T>)
    requires |xs| >= 1
    ensures xs == xs[..|xs| - 1] + [xs[|xs| - 1]]
  {
  }

  /** Splitting a join of `c`-free pieces gives back the leading pieces' join and the last piece. */
  lemma SplitLastOfJoin(init: seq<string>, last: string, c: char)
    requires |init| >= 1
    requires forall k :: 0 <= k < |init| ==> c !in init[k]
    requires c !in last
    ensures SplitLast(Join(init, [c]) + [c] + last, c) == (Join(init, [c]), last)
  {
    var parts := init + [last];
    SplitJoin(parts, c);
    JoinSnoc(init, last, [c]);
    assert parts[..|parts| - 1] == init;
  }

  // ---------------------------------------------------------------------
  // GitLab project data and GitHub commit SHA

  /** What GetGitLabProjectAndSha returns. */
  datatype GitLabProject = GitLabProject(remoteUsername: string, remoteRepo: string, remoteSha: string)

  /** The GitLab API URL of a tag or branch of the project. */
  function GitLabRefURL(projectURL: string, remoteRef: string): string {
    projectURL + "/repository/" + GitLabRefKind(remoteRef) + "/" + remoteRef
  }

  /**
   * GetGitLabProjectAndSha: user and repo from the project's path_with_namespace
   * (all segments but the last, and the last), the SHA from the tag or branch
   * record; a failed download leaves the corresponding fields "".
   */
  function GitLabProjectAndSha(projectURL: string, remoteRef: string, token: map<string, string>,
                               download: (string, map<string, string>) -> Fetch,
                               jsonField: (string, string) -> string): GitLabProject
  {
    var names := match download(projectURL, token)
      case Fetched(body) => SplitLast(jsonField(body, "path_with_namespace"), '/')
      case FetchFailed => ("", "");
    var sha := match download(GitLabRefURL(projectURL, remoteRef), token)
      case Fetched(body) => jsonField(body, "commit.id")
      case FetchFailed => "";
    GitLabProject(names.0, names.1, sha)
  }

  /**
   * The SHA of GetGitLabProjectAndSha is the commit id of the project's tag record
   * when the ref has a 'v' followed by a digit and of its branch record otherwise,
   * or "" when that record cannot be downloaded.
   */
  lemma GitLabShaOf(projectURL: string, remoteRef: string, token: map<string, string>,
                    download: (string, map<string, string>) -> Fetch,
                    jsonField: (string, string) -> string)
    ensures var tagged := exists i :: 0 <= i && i + 1 < |remoteRef| && remoteRef[i] == 'v' && IsDigit(remoteRef[i + 1]);
      var url := projectURL + "/repository/" + (if tagged then "tags" else "branches") + "/" + remoteRef;
      var sha := GitLabProjectAndSha(projectURL, remoteRef, token, download, jsonField).remoteSha;
      && (download(url, token).FetchFailed? ==> sha == "")
      && (download(url, token).Fetched? ==> sha == jsonField(download(url, token).content, "commit.id"))
  {
    TagRefMeaning(remoteRef);
  }

  /**
   * The namespace split: `group/.../project` gives user `group/...` and repo
   * `project`; a namespace without '/' is all repo; a failed download gives "" for both.
   */
  lemma GitLabNamespace(projectURL: string, remoteRef: string, token: map<string, string>,
                        download: (string, map<string, string>) -> Fetch,
                        jsonField: (string, string) -> string)
    ensures var p := GitLabProjectAndSha(projectURL, remoteRef, token, download, jsonField);
      match download(projectURL, token)
      case FetchFailed => p.remoteUsername == "" && p.remoteRepo == ""
      case Fetched(body) =>
        var ns := jsonField(body, "path_with_namespace");
        && '/' !in p.remoteRepo
        && ('/' in ns ==> ns == p.remoteUsername + "/" + p.remoteRepo)
        && ('/' !in ns ==> p.remoteUsername == "" && p.remoteRepo == ns)
  {
    match download(projectURL, token)
    case FetchFailed =>
    case Fetched(body) => SplitLastMeaning(jsonField(body, "path_with_namespace"), '/');
  }

  /** A namespace made of '/'-free groups and a project name is taken apart into exactly those. */
  lemma GitLabNamespaceOfGroups(groups: seq<string>, project: string)
    requires |groups| >= 1
    requires forall k :: 0 <= k < |groups| ==> '/' !in groups[k]
    requires '/' !in project
    ensures SplitLast(Join(groups, "/") + "/" + project, '/') == (Join(groups, "/"), project)
  {
    SplitLastOfJoin(groups, project, '/');
  }

  /** The GitHub API URL of a tag or branch reference. */
  function GitHubRefURL(remoteUsername: string, remoteRepo: string, remoteRef: string): string {
    "https://api.github.com/repos/" + remoteUsername + "/" + remoteRepo + "/git/ref/" + GitHubRefKind(remoteRef) + "/" + remoteRef
  }

  /** GetGitHubSha: the object SHA of the reference record, or "" when the download fails. */
  function GitHubSha(remoteUsername: string, remoteRepo: string, remoteRef: string, token: map<string, string>,
                     download: (string, map<string, string>) -> Fetch,
                     jsonField: (string, string) -> string): string
  {
    match download(GitHubRefURL(remoteUsername, remoteRepo, remoteRef), token)
    case Fetched(body) => jsonField(body, "object.sha")
    case FetchFailed => ""
  }

  /**
   * GetGitHubSha reads the object SHA of the repository's tag reference when the
   * ref has a 'v' followed by a digit and of its head reference otherwise, and
   * gives "" when that reference cannot be downloaded.
   */
  lemma GitHubShaOf(remoteUsername: string, remoteRepo: string, remoteRef: string, token: map<string, string>,
                    download: (string, map<string, string>) -> Fetch,
                    jsonField: (string, string) -> string)
    ensures var tagged := exists i :: 0 <= i && i + 1 < |remoteRef| && remoteRef[i] == 'v' && IsDigit(remoteRef[i + 1]);
      var url := "https://api.github.com/repos/" + remoteUsername + "/" + remoteRepo + "/git/ref/"
                 + (if tagged then "tags" else "heads") + "/" + remoteRef;
      var sha := GitHubSha(remoteUsername, remoteRepo, remoteRef, token, download, jsonField);
      && (download(url, token).FetchFailed? ==> sha == "")
      && (download(url, token).Fetched? ==> sha == jsonField(download(url, token).content, "object.sha"))
  {
    TagRefMeaning(remoteRef);
  }

  // ---------------------------------------------------------------------
  // ProcessDescriptionURL

  /** Everything ProcessDescriptionURL returns. */
  datatype RemoteInfo = RemoteInfo(
    token: map<string, string>,
    remoteType: string,
    packageSource: string,
    remoteHost: string,
    remoteUsername: string,
    remoteRepo: string,
    remoteSubdir: string,
    remoteRef: string,
    remoteSha: string)

  predicate IsGitHubURL(descriptionURL: string) {
    HasPrefix(descriptionURL, GitHubRawPrefix)
  }

  /** The '/'-segments of a GitHub raw URL after the host. */
  function GitHubSegments(descriptionURL: string): seq<string> {
    Split(TrimPrefix(descriptionURL, GitHubRawPrefix + "/"), "/")
  }

  /** No segment before the ref's end is called DESCRIPTION (the subdir slice would start after its end). */
  predicate NoEarlyDescription(segments: seq<string>) {
    forall k :: 0 <= k < |segments| && k < 3 ==> segments[k] != "DESCRIPTION"
  }

  /** The index of the last segment equal to `name`, or -1. */
  function LastIndexOf(segments: seq<string>, name: string): (d: int)
    decreases |segments|
    ensures -1 <= d < |segments|
    ensures d >= 0 ==> segments[d] == name
  {
    if segments == [] then -1
    else if segments[|segments| - 1] == name then |segments| - 1
    else LastIndexOf(segments[..|segments| - 1], name)
  }

  /** No later segment carries the name, and -1 means none does. */
  lemma {:induction false} LastIndexOfIsLast(segments: seq<string>, name: string)
    decreases |segments|
    ensures forall j :: LastIndexOf(segments, name) < j < |segments| ==> segments[j] != name
  {
    if segments != [] && segments[|segments| - 1] != name {
      var front := segments[..|segments| - 1];
      LastIndexOfIsLast(front, name);
      assert forall j :: 0 <= j < |front| ==> front[j] == segments[j];
    }
  }

  /** LastIndexOf over one more segment. */
  lemma LastIndexOfStep(segments: seq<string>, name: string, i: nat)
    requires i < |segments|
    ensures LastIndexOf(segments[..i + 1], name) == if segments[i] == name then i else LastIndexOf(segments[..i], name)
  {
    assert segments[..i + 1][..i] == segments[..i];
  }

  /** The GitHub subdirectory: the segments between the ref and the last DESCRIPTION, or "" without one. */
  function GitHubSubdir(segments: seq<string>): string
    requires NoEarlyDescription(segments)
  {
    var d := LastIndexOf(segments, "DESCRIPTION");
    if d < 0 then "" else Join(segments[3..d], "/")
  }

  /** The '/'-segments of a GitLab API URL after the scheme. */
  function GitLabSegments(descriptionURL: string): seq<string> {
    Split(TrimPrefix(descriptionURL, Scheme), "/")
  }

  /**
   * The leftmost start at or after `from` where `ref=.*$` matches: "ref=" with no
   * newline after it (Go's `.` does not match a newline and `$` is the end of text).
   */
  function RefFrom(s: string, from: nat): (i: int)
    decreases |s| - from
    ensures i == -1 || (from <= i && OccursAt(s, "ref=", i) && '\n' !in s[i + 4..])
  {
    if from + 4 > |s| then -1
    else if OccursAt(s, "ref=", from) && '\n' !in s[from + 4..] then from
    else RefFrom(s, from + 1)
  }

  /** FindString of `ref=.*$`: from the match to the end, or "". */
  function RefMatch(s: string): string {
    var i := RefFrom(s, 0);
    if i < 0 then "" else s[i..]
  }

  /** On a single line the regexp match starts at the leftmost "ref=". */
  lemma {:induction false} RefFromSingleLine(s: string, from: nat)
    requires '\n' !in s
    decreases |s| - from
    ensures RefFrom(s, from) == IndexFrom(s, "ref=", from)
  {
    if from + 4 <= |s| {
      assert '\n' !in s[from + 4..] by {
        forall k | from + 4 <= k < |s| ensures s[k] != '\n' {
          assert s[k] in s;
        }
      }
      if s[from..from + 4] != "ref=" {
        RefFromSingleLine(s, from + 1);
      }
    }
  }

  /** The GitLab ref of a one-line URL is everything after its leftmost "ref=", or "" without one. */
  lemma GitLabRef(descriptionURL: string)
    requires '\n' !in descriptionURL
    ensures var i := Index(descriptionURL, "ref=");
      TrimPrefix(RefMatch(descriptionURL), "ref=") == if i < 0 then "" else descriptionURL[i + 4..]
  {
    RefFromSingleLine(descriptionURL, 0);
    var i := Index(descriptionURL, "ref=");
    if i >= 0 {
      var m := descriptionURL[i..];
      assert m[..4] == descriptionURL[i..i + 4];
      assert m[4..] == descriptionURL[i + 4..];
    }
  }

  /** The GitLab subdirectory: the "%2F"-encoded path decoded, without its last segment; "" when nothing is encoded. */
  function GitLabSubdir(descriptionPath: string): string {
    if Contains(descriptionPath, "%2F") then SplitLast(ReplaceAll(descriptionPath, "%2F", "/"), '/').0 else ""
  }

  /** The pattern, if present, leaves the replacement character in the result. */
  lemma ReplaceAllInserts(s: string, pattern: string, c: char)
    requires |pattern| > 0 && Contains(s, pattern)
    ensures c in ReplaceAll(s, pattern, [c])
  {
    var i := Index(s, pattern);
    SplitUnfold(s, pattern);
    var rest := Split(s[i + |pattern|..], pattern);
    JoinCons(s[..i], rest, [c]);
    var r := s[..i] + [c] + Join(rest, [c]);
    assert r[i] == c;
  }

  /**
   * When segment 7 encodes a path, the subdirectory followed by '/' and a
   * '/'-free last part is the decoded path; otherwise the subdirectory is "".
   */
  lemma GitLabSubdirMeaning(descriptionPath: string)
    ensures var decoded := ReplaceAll(descriptionPath, "%2F", "/");
      Contains(descriptionPath, "%2F") ==>
        && decoded == GitLabSubdir(descriptionPath) + "/" + SplitLast(decoded, '/').1
        && '/' !in SplitLast(decoded, '/').1
    ensures !Contains(descriptionPath, "%2F") ==> GitLabSubdir(descriptionPath) == ""
  {
    if Contains(descriptionPath, "%2F") {
      var decoded := ReplaceAll(descriptionPath, "%2F", "/");
      ReplaceAllInserts(descriptionPath, "%2F", '/');
      SplitLastMeaning(decoded, '/');
    }
  }

  /**
   * The inputs ProcessDescriptionURL does not panic on: a GitHub URL with at
   * least user, repo and ref and no DESCRIPTION among them, a GitLab URL with at
   * least eight segments.
   */
  predicate DescriptionURLAccepted(descriptionURL: string) {
    if IsGitHubURL(descriptionURL) then
      var segments := GitHubSegments(descriptionURL);
      |segments| >= 3 && NoEarlyDescription(segments)
    else |GitLabSegments(descriptionURL)| >= 8
  }

  /** The request headers for GitHub: the token, when one is set. */
  function GitHubToken(gitHubToken: string): map<string, string> {
    if gitHubToken != "" then map["Authorization" := "token " + gitHubToken] else map[]
  }

  /** The request headers for GitLab: the token, when one is set. */
  function GitLabToken(gitLabToken: string): map<string, string> {
    if gitLabToken != "" then map["Private-Token" := gitLabToken] else map[]
  }

  /** What ProcessDescriptionURL returns for a GitHub raw URL. */
  function GitHubRemote(descriptionURL: string, gitHubToken: string,
                        download: (string, map<string, string>) -> Fetch,
                        jsonField: (string, string) -> string): RemoteInfo
    requires IsGitHubURL(descriptionURL) && DescriptionURLAccepted(descriptionURL)
  {
    var token := GitHubToken(gitHubToken);
    var segments := GitHubSegments(descriptionURL);
    RemoteInfo(token, "github", "GitHub", "api.github.com", segments[0], segments[1],
               GitHubSubdir(segments), segments[2],
               GitHubSha(segments[0], segments[1], segments[2], token, download, jsonField))
  }

  /** What ProcessDescriptionURL returns for a GitLab API URL. */
  function GitLabRemote(descriptionURL: string, gitLabToken: string,
                        download: (string, map<string, string>) -> Fetch,
                        jsonField: (string, string) -> string): RemoteInfo
    requires !IsGitHubURL(descriptionURL) && DescriptionURLAccepted(descriptionURL)
  {
    var token := GitLabToken(gitLabToken);
    var segments := GitLabSegments(descriptionURL);
    var remoteRef := TrimPrefix(RefMatch(descriptionURL), "ref=");
    var projectURL := Scheme + Join(segments[..5], "/");
    var project := GitLabProjectAndSha(projectURL, remoteRef, token, download, jsonField);
    RemoteInfo(token, "gitlab", "GitLab", Scheme + segments[0], project.remoteUsername, project.remoteRepo,
               GitLabSubdir(segments[7]), remoteRef, project.remoteSha)
  }

  /** What ProcessDescriptionURL returns. */
  function RemoteOf(descriptionURL: string, gitHubToken: string, gitLabToken: string,
                    download: (string, map<string, string>) -> Fetch,
                    jsonField: (string, string) -> string): RemoteInfo
    requires DescriptionURLAccepted(descriptionURL)
  {
    if IsGitHubURL(descriptionURL) then GitHubRemote(descriptionURL, gitHubToken, download, jsonField)
    else GitLabRemote(descriptionURL, gitLabToken, download, jsonField)
  }

  /** The subdirectory loop of ProcessDescriptionURL: each DESCRIPTION segment resets the subdirectory, so the last one wins. */
  method GitHubSubdirectory(segments: seq<string>) returns (remoteSubdir: string)
    requires NoEarlyDescription(segments)
    ensures remoteSubdir == GitHubSubdir(segments)
  {
    remoteSubdir := "";
    var i := 0;
    while i < |segments|
      invariant 0 <= i <= |segments|
      invariant remoteSubdir == GitHubSubdir(segments[..i])
    {
      LastIndexOfStep(segments, "DESCRIPTION", i);
      ghost var d := LastIndexOf(segments[..i], "DESCRIPTION");
      if segments[i] == "DESCRIPTION" {
        remoteSubdir := Join(segments[3..i], "/");
        assert segments[..i + 1][3..i] == segments[3..i];
      } else if d >= 0 {
        assert segments[..i + 1][3..d] == segments[..i][3..d];
      }
      i := i + 1;
    }
    assert segments[..i] == segments;
  }

  /** ProcessDescriptionURL */
  method ProcessDescriptionURL(descriptionURL: string, gitHubToken: string, gitLabToken: string,
                               download: (string, map<string, string>) -> Fetch,
                               jsonField: (string, string) -> string)
    returns (info: RemoteInfo)
    requires DescriptionURLAccepted(descriptionURL)
    ensures info == RemoteOf(descriptionURL, gitHubToken, gitLabToken, download, jsonField)
  {
    if HasPrefix(descriptionURL, GitHubRawPrefix) {
      info := ProcessGitHubURL(descriptionURL, gitHubToken, download, jsonField);
    } else {
      info := ProcessGitLabURL(descriptionURL, gitLabToken, download, jsonField);
    }
  }

  /** The GitHub branch of ProcessDescriptionURL. */
  method ProcessGitHubURL(descriptionURL: string, gitHubToken: string,
                          download: (string, map<string, string>) -> Fetch,
                          jsonField: (string, string) -> string)
    returns (info: RemoteInfo)
    requires IsGitHubURL(descriptionURL) && DescriptionURLAccepted(descriptionURL)
    ensures info == GitHubRemote(descriptionURL, gitHubToken, download, jsonField)
  {
    var token := GitHubToken(gitHubToken);
    var shorterURL := TrimPrefix(descriptionURL, GitHubRawPrefix + "/");
    var segments := Split(shorterURL, "/");
    var remoteUsername := segments[0];
    var remoteRepo := segments[1];
    var remoteRef := segments[2];
    var remoteSha := GitHubSha(remoteUsername, remoteRepo, remoteRef, token, download, jsonField);
    var remoteSubdir := GitHubSubdirectory(segments);
    info := RemoteInfo(token, "github", "GitHub", "api.github.com", remoteUsername, remoteRepo,
                       remoteSubdir, remoteRef, remoteSha);
  }

  /** The GitLab branch of ProcessDescriptionURL. */
  method ProcessGitLabURL(descriptionURL: string, gitLabToken: string,
                          download: (string, map<string, string>) -> Fetch,
                          jsonField: (string, string) -> string)
    returns (info: RemoteInfo)
    requires !IsGitHubURL(descriptionURL) && DescriptionURLAccepted(descriptionURL)
    ensures info == GitLabRemote(descriptionURL, gitLabToken, download, jsonField)
  {
    var token := GitLabToken(gitLabToken);
    var shorterURL := TrimPrefix(descriptionURL, Scheme);
    var segments := Split(shorterURL, "/");
    var remoteHost := Scheme + segments[0];
    var remoteRef := TrimPrefix(RefMatch(descriptionURL), "ref=");
    var projectURL := Scheme + Join(segments[..5], "/");
    var descriptionPath := segments[7];
    var remoteSubdir := "";
    if Contains(descriptionPath, "%2F") {
      var decoded := Split(ReplaceAll(descriptionPath, "%2F", "/"), "/");
      remoteSubdir := Join(decoded[..|decoded| - 1], "/");
    }
    var project := GitLabProjectAndSha(projectURL, remoteRef, token, download, jsonField);
    info := RemoteInfo(token, "gitlab", "GitLab", remoteHost, project.remoteUsername, project.remoteRepo,
                       remoteSubdir, remoteRef, project.remoteSha);
  }

  /** An accepted URL with the GitHub prefix is processed as GitHub, any other as GitLab. */
  lemma RemoteOfBranch(descriptionURL: string, gitHubToken: string, gitLabToken: string,
                       download: (string, map<string, string>) -> Fetch,
                       jsonField: (string, string) -> string)
    requires DescriptionURLAccepted(descriptionURL)
    ensures IsGitHubURL(descriptionURL) ==>
      RemoteOf(descriptionURL, gitHubToken, gitLabToken, download, jsonField) == GitHubRemote(descriptionURL, gitHubToken, download, jsonField)
    ensures !IsGitHubURL(descriptionURL) ==>
      RemoteOf(descriptionURL, gitHubToken, gitLabToken, download, jsonField) == GitLabRemote(descriptionURL, gitLabToken, download, jsonField)
  {
  }

  /** A GitHub raw URL is recognised by its prefix and gets GitHub's type, source and host; any other URL is GitLab. */
  lemma RemoteKind(descriptionURL: string, gitHubToken: string, gitLabToken: string,
                   download: (string, map<string, string>) -> Fetch,
                   jsonField: (string, string) -> string)
    requires DescriptionURLAccepted(descriptionURL)
    ensures var info := RemoteOf(descriptionURL, gitHubToken, gitLabToken, download, jsonField);
      && (info.remoteType == "github" <==> HasPrefix(descriptionURL, GitHubRawPrefix))
      && (info.remoteType == "github" ==> info.packageSource == "GitHub" && info.remoteHost == "api.github.com")
      && (info.remoteType != "github" ==> info.remoteType == "gitlab" && info.packageSource == "GitLab"
                                          && HasPrefix(info.remoteHost, Scheme))
  {
  }

  /** Two lists of `c`-free pieces make one. */
  lemma PiecesFreeAppend(a: seq<string>, b: seq<string>, c: char)
    requires forall k :: 0 <= k < |a| ==> c !in a[k]
    requires forall k :: 0 <= k < |b| ==> c !in b[k]
    ensures forall k :: 0 <= k < |a + b| ==> c !in (a + b)[k]
  {
  }

  /** The segments of a GitHub raw URL built from '/'-free parts are those parts. */
  lemma GitHubSegmentsOfJoin(parts: seq<string>)
    requires |parts| >= 1
    requires forall k :: 0 <= k < |parts| ==> '/' !in parts[k]
    ensures IsGitHubURL(GitHubRawPrefix + "/" + Join(parts, "/"))
    ensures GitHubSegments(GitHubRawPrefix + "/" + Join(parts, "/")) == parts
  {
    var prefix := GitHubRawPrefix + "/";
    var url := prefix + Join(parts, "/");
    assert url[..|GitHubRawPrefix|] == GitHubRawPrefix;
    assert url[..|prefix|] == prefix;
    assert TrimPrefix(url, prefix) == Join(parts, "/");
    SplitJoin(parts, '/');
  }

  /** With DESCRIPTION only at the end, the subdirectory is what lies between the ref and it. */
  lemma GitHubSubdirOfParts(user: string, repo: string, ref: string, dirs: seq<string>)
    requires user != "DESCRIPTION" && repo != "DESCRIPTION" && ref != "DESCRIPTION"
    ensures var parts := [user, repo, ref] + dirs + ["DESCRIPTION"];
      NoEarlyDescription(parts) && GitHubSubdir(parts) == Join(dirs, "/")
  {
    var parts := [user, repo, ref] + dirs + ["DESCRIPTION"];
    assert LastIndexOf(parts, "DESCRIPTION") == |parts| - 1;
    assert parts[3..|parts| - 1] == dirs;
  }

  /**
   * A GitHub raw URL built from user, repo, ref, subdirectories and DESCRIPTION
   * is taken apart into exactly those, the subdirectories joined by '/'.
   */
  lemma GitHubURLRoundTrip(user: string, repo: string, ref: string, dirs: seq<string>,
                           gitHubToken: string,
                           download: (string, map<string, string>) -> Fetch,
                           jsonField: (string, string) -> string)
    requires '/' !in user && '/' !in repo && '/' !in ref
    requires user != "DESCRIPTION" && repo != "DESCRIPTION" && ref != "DESCRIPTION"
    requires forall k :: 0 <= k < |dirs| ==> '/' !in dirs[k]
    ensures var url := GitHubRawPrefix + "/" + Join([user, repo, ref] + dirs + ["DESCRIPTION"], "/");
      && IsGitHubURL(url) && |GitHubSegments(url)| >= 3 && NoEarlyDescription(GitHubSegments(url))
      && var info := GitHubRemote(url, gitHubToken, download, jsonField);
      && info.remoteUsername == user && info.remoteRepo == repo && info.remoteRef == ref
      && info.remoteSubdir == Join(dirs, "/")
  {
    var parts := [user, repo, ref] + dirs + ["DESCRIPTION"];
    PiecesFreeAppend([user, repo, ref], dirs, '/');
    PiecesFreeAppend([user, repo, ref] + dirs, ["DESCRIPTION"], '/');
    GitHubSegmentsOfJoin(parts);
    GitHubSubdirOfParts(user, repo, ref, dirs);
  }

  // ---------------------------------------------------------------------
  // DescriptionFiles

  /** Every URL of the list is one ProcessDescriptionURL accepts. */
  predicate AllAccepted(urls: seq<string>)
    decreases |urls|
  {
    urls != [] ==> AllAccepted(urls[..|urls| - 1]) && DescriptionURLAccepted(urls[|urls| - 1])
  }

  lemma AllAcceptedPrefix(urls: seq<string>, k: nat)
    requires k <= |urls| && AllAccepted(urls)
    decreases |urls|
    ensures AllAccepted(urls[..k])
  {
    if k < |urls| {
      AllAcceptedPrefix(urls[..|urls| - 1], k);
      assert urls[..|urls| - 1][..k] == urls[..k];
    } else {
      assert urls[..k] == urls;
    }
  }

  /** The DESCRIPTION file downloaded from one URL with its coordinates, or nothing when the download fails. */
  function DescriptionFileOf(descriptionURL: string, gitHubToken: string, gitLabToken: string,
                             download: (string, map<string, string>) -> Fetch,
                             jsonField: (string, string) -> string): seq<DescriptionFile>
    requires DescriptionURLAccepted(descriptionURL)
  {
    var info := RemoteOf(descriptionURL, gitHubToken, gitLabToken, download, jsonField);
    match download(descriptionURL, info.token)
    case Fetched(content) =>
      [DescriptionFile(content, info.packageSource, info.remoteType, info.remoteHost,
                       info.remoteUsername, info.remoteRepo, info.remoteSubdir, info.remoteRef, info.remoteSha)]
    case FetchFailed => []
  }

  /** The files of the whole list: each URL's file, in list order. */
  function DescriptionFilesOf(urls: seq<string>, gitHubToken: string, gitLabToken: string,
                              download: (string, map<string, string>) -> Fetch,
                              jsonField: (string, string) -> string): seq<DescriptionFile>
    requires AllAccepted(urls)
    decreases |urls|
  {
    if urls == [] then []
    else DescriptionFilesOf(urls[..|urls| - 1], gitHubToken, gitLabToken, download, jsonField)
         + DescriptionFileOf(urls[|urls| - 1], gitHubToken, gitLabToken, download, jsonField)
  }

  /** The files of one more URL of the list. */
  lemma DescriptionFilesStep(urls: seq<string>, i: nat, gitHubToken: string, gitLabToken: string,
                             download: (string, map<string, string>) -> Fetch,
                             jsonField: (string, string) -> string)
    requires i < |urls| && AllAccepted(urls)
    ensures AllAccepted(urls[..i]) && AllAccepted(urls[..i + 1]) && DescriptionURLAccepted(urls[i])
    ensures DescriptionFilesOf(urls[..i + 1], gitHubToken, gitLabToken, download, jsonField)
         == DescriptionFilesOf(urls[..i], gitHubToken, gitLabToken, download, jsonField)
          + DescriptionFileOf(urls[i], gitHubToken, gitLabToken, download, jsonField)
  {
    AllAcceptedPrefix(urls, i);
    AllAcceptedPrefix(urls, i + 1);
    assert urls[..i + 1][..i] == urls[..i];
  }

  /** The body of DownloadDescriptionFiles' loop: the file of one URL, or nothing when its download fails. */
  method DownloadDescriptionFile(packageDescriptionURL: string, gitHubToken: string, gitLabToken: string,
                                 download: (string, map<string, string>) -> Fetch,
                                 jsonField: (string, string) -> string)
    returns (files: seq<DescriptionFile>)
    requires DescriptionURLAccepted(packageDescriptionURL)
    ensures files == DescriptionFileOf(packageDescriptionURL, gitHubToken, gitLabToken, download, jsonField)
  {
    var info := ProcessDescriptionURL(packageDescriptionURL, gitHubToken, gitLabToken, download, jsonField);
    var fetched := download(packageDescriptionURL, info.token);
    if fetched.Fetched? {
      files := [DescriptionFile(
        fetched.content, info.packageSource, info.remoteType, info.remoteHost,
        info.remoteUsername, info.remoteRepo, info.remoteSubdir, info.remoteRef, info.remoteSha)];
    } else {
      files := [];
    }
  }

  /** DownloadDescriptionFiles */
  method DownloadDescriptionFiles(packageDescriptionList: seq<string>, gitHubToken: string, gitLabToken: string,
                                  download: (string, map<string, string>) -> Fetch,
                                  jsonField: (string, string) -> string)
    returns (inputDescriptionFiles: seq<DescriptionFile>)
    requires AllAccepted(packageDescriptionList)
    ensures inputDescriptionFiles == DescriptionFilesOf(packageDescriptionList, gitHubToken, gitLabToken, download, jsonField)
  {
    inputDescriptionFiles := [];
    var i := 0;
    while i < |packageDescriptionList|
      invariant 0 <= i <= |packageDescriptionList|
      invariant AllAccepted(packageDescriptionList[..i])
      invariant inputDescriptionFiles == DescriptionFilesOf(packageDescriptionList[..i], gitHubToken, gitLabToken, download, jsonField)
    {
      DescriptionFilesStep(packageDescriptionList, i, gitHubToken, gitLabToken, download, jsonField);
      var files := DownloadDescriptionFile(packageDescriptionList[i], gitHubToken, gitLabToken, download, jsonField);
      inputDescriptionFiles := inputDescriptionFiles + files;
      i := i + 1;
    }
    assert packageDescriptionList[..i] == packageDescriptionList;
  }

  lemma AllAcceptedAppend(a: seq<string>, b: seq<string>)
    requires AllAccepted(a + b)
    decreases |b|
    ensures AllAccepted(a) && AllAccepted(b)
  {
    if b == [] {
      assert a + b == a;
    } else {
      AppendFront(a, b);
      AllAcceptedAppend(a, b[..|b| - 1]);
    }
  }

  /**
   * The files come in list order, one list's files before the next's: each URL
   * contributes its own file, or nothing when its download fails.
   */
  lemma {:induction false} DescriptionFilesAppend(a: seq<string>, b: seq<string>, gitHubToken: string, gitLabToken: string,
                                                  download: (string, map<string, string>) -> Fetch,
                                                  jsonField: (string, string) -> string)
    requires AllAccepted(a + b)
    decreases |b|
    ensures AllAccepted(a) && AllAccepted(b)
    ensures DescriptionFilesOf(a + b, gitHubToken, gitLabToken, download, jsonField)
         == DescriptionFilesOf(a, gitHubToken, gitLabToken, download, jsonField)
          + DescriptionFilesOf(b, gitHubToken, gitLabToken, download, jsonField)
  {
    AllAcceptedAppend(a, b);
    if b == [] {
      assert a + b == a;
    } else {
      var front, last := b[..|b| - 1], b[|b| - 1];
      AppendFront(a, b);
      DescriptionFilesAppend(a, front, gitHubToken, gitLabToken, download, jsonField);
      ghost var lastFiles := DescriptionFileOf(last, gitHubToken, gitLabToken, download, jsonField);
      assert DescriptionFilesOf(a + b, gitHubToken, gitLabToken, download, jsonField)
          == DescriptionFilesOf(a + front, gitHubToken, gitLabToken, download, jsonField) + lastFiles;
      assert DescriptionFilesOf(b, gitHubToken, gitLabToken, download, jsonField)
          == DescriptionFilesOf(front, gitHubToken, gitLabToken, download, jsonField) + lastFiles;
    }
  }

  /** Every URL's DESCRIPTION download succeeds. */
  predicate AllFetched(urls: seq<string>, gitHubToken: string, gitLabToken: string,
                       download: (string, map<string, string>) -> Fetch,
                       jsonField: (string, string) -> string)
    requires AllAccepted(urls)
    decreases |urls|
  {
    urls != [] ==>
      var last := urls[|urls| - 1];
      && AllFetched(urls[..|urls| - 1], gitHubToken, gitLabToken, download, jsonField)
      && download(last, RemoteOf(last, gitHubToken, gitLabToken, download, jsonField).token).Fetched?
  }

  /** At most one file per URL, and exactly one per URL when no download fails. */
  lemma {:induction false} DescriptionFilesCount(urls: seq<string>, gitHubToken: string, gitLabToken: string,
                                                 download: (string, map<string, string>) -> Fetch,
                                                 jsonField: (string, string) -> string)
    requires AllAccepted(urls)
    decreases |urls|
    ensures |DescriptionFilesOf(urls, gitHubToken, gitLabToken, download, jsonField)| <= |urls|
    ensures AllFetched(urls, gitHubToken, gitLabToken, download, jsonField)
            ==> |DescriptionFilesOf(urls, gitHubToken, gitLabToken, download, jsonField)| == |urls|
  {
    if urls != [] {
      DescriptionFilesCount(urls[..|urls| - 1], gitHubToken, gitLabToken, download, jsonField);
    }
  }

  // ---------------------------------------------------------------------
  // PACKAGES files

  /** Where a repository keeps its PACKAGES index: at its root for binary repositories, under src/contrib otherwise. */
  function PackagesURL(repositoryURL: string): string {
    if Contains(repositoryURL, "/bin/windows/") || Contains(repositoryURL, "/bin/macosx") then repositoryURL + "/PACKAGES"
    else repositoryURL + "/src/contrib/PACKAGES"
  }

  /** The index is at the repository root exactly for Windows and macOS binary repositories. */
  lemma PackagesURLChoice(repositoryURL: string)
    ensures PackagesURL(repositoryURL) == repositoryURL + "/PACKAGES"
      <==> Contains(repositoryURL, "/bin/windows/") || Contains(repositoryURL, "/bin/macosx")
    ensures PackagesURL(repositoryURL) == repositoryURL + "/src/contrib/PACKAGES"
      <==> !(Contains(repositoryURL, "/bin/windows/") || Contains(repositoryURL, "/bin/macosx"))
  {
    assert |repositoryURL + "/PACKAGES"| != |repositoryURL + "/src/contrib/PACKAGES"|;
  }

  /** GetPackagesFileContent: the downloaded index, or "" when the download fails. */
  function PackagesFileContent(repositoryURL: string, download: (string, map<string, string>) -> Fetch): string {
    match download(PackagesURL(repositoryURL), map[])
    case Fetched(content) => content
    case FetchFailed => ""
  }

  /**
   * GetPackagesFileContent fetches, without headers, "/PACKAGES" under a Windows or
   * macOS binary repository and "/src/contrib/PACKAGES" under any other, and gives
   * the fetched text, or "" when the download fails.
   */
  lemma PackagesFileContentOf(repositoryURL: string, download: (string, map<string, string>) -> Fetch)
    ensures var binary := Contains(repositoryURL, "/bin/windows/") || Contains(repositoryURL, "/bin/macosx");
      var url := repositoryURL + (if binary then "/PACKAGES" else "/src/contrib/PACKAGES");
      var content := PackagesFileContent(repositoryURL, download);
      && (download(url, map[]).FetchFailed? ==> content == "")
      && (download(url, map[]).Fetched? ==> content == download(url, map[]).content)
  {
  }

  /** DownloadPackagesFiles: one index per listed repository, keyed by its URL. */
  method DownloadPackagesFiles(repositoryList: seq<string>, download: (string, map<string, string>) -> Fetch)
    returns (inputPackagesFiles: map<string, string>)
    ensures inputPackagesFiles.Keys == set r | r in repositoryList
    ensures forall r :: r in inputPackagesFiles ==> inputPackagesFiles[r] == PackagesFileContent(r, download)
  {
    inputPackagesFiles := map[];
    var i := 0;
    while i < |repositoryList|
      invariant 0 <= i <= |repositoryList|
      invariant inputPackagesFiles.Keys == set r | r in repositoryList[..i]
      invariant forall r :: r in inputPackagesFiles ==> inputPackagesFiles[r] == PackagesFileContent(r, download)
    {
      var repository := repositoryList[i];
      assert repositoryList[..i + 1] == repositoryList[..i] + [repository];
      inputPackagesFiles := inputPackagesFiles[repository := PackagesFileContent(repository, download)];
      i := i + 1;
    }
    assert repositoryList[..i] == repositoryList;
  }
}
