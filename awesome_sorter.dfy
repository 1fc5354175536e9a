/**
 * The GitHub awesome-list sorter: look up the list's repository, read its
 * README, harvest the linked repositories, look each of them up, drop the
 * ones that do not exist, and order the rest by stars, most first.
 *
 * The GitHub API and the raw-content host are oracles from a request URL to
 * the outcome of `requests.get` on it.
 */
module AwesomeSorter {
  import opened Wrappers
  import opened Text
  import opened AwesomeLinks

  const GitHubApiBaseUrl: string := "https://api.github.com/repos/"
  const GitHubRawContentBaseUrl: string := "https://raw.githubusercontent.com/"
  const GitHubUrlPrefix: string := "https://github.com/"
  const ReadmeSuffix: string := "/README.md"

  /** The fields kept from the API's JSON description of a repository. */
  datatype Repo = Repo(
    htmlUrl: string,
    fullName: string,
    description: Option<string>,
    homepage: Option<string>,
    stars: int,
    defaultBranch: string)

  /** The outcome of one `requests.get`: the transport failed (connection
      error, timeout, ...), or the server replied with a status and a body. */
  datatype Response<T> = TransportFailure(reason: string) | Reply(status: int, body: T)

  /** A repository lookup replies with a body that `Repo(**response.json())`
      either turns into a `Repo` or rejects (`None`). */
  type RepoApi = string -> Response<Option<Repo>>

  /** The raw-content host replies with the file's text. */
  type RawApi = string -> Response<string>

  /** The exceptions that leave the sorter. */
  datatype Error =
    | RepositoryNotFound(repoFullName: string)
    | AwesomeReadmeNotFound
    | HttpError(status: int)
    | TransportError(reason: string)
    | MalformedRepo

  /** `raise_for_status()` raises for client and server errors. */
  predicate RaisesForStatus(status: int) {
    400 <= status < 600
  }

  predicate StartsWith(s: string, prefix: string) {
    |prefix| <= |s| && s[..|prefix|] == prefix
  }

  /** The argument of the sorter with `https://github.com/` removed once, if present. */
  function RepoFullName(repo: string): (r: string)
    ensures StartsWith(repo, GitHubUrlPrefix) ==> GitHubUrlPrefix + r == repo
    ensures !StartsWith(repo, GitHubUrlPrefix) ==> r == repo
  {
    if StartsWith(repo, GitHubUrlPrefix) then repo[|GitHubUrlPrefix|..] else repo
  }

  function RepoApiUrl(fullName: string): string {
    GitHubApiBaseUrl + fullName
  }

  /** `get_repo`: one API lookup; 404 becomes `RepositoryNotFound` naming the
      queried repository, every other failure is raised unchanged. */
  function GetRepo(fullName: string, response: Response<Option<Repo>>): (r: Result<Repo, Error>)
    ensures r.Ok? <==> response.Reply? && !RaisesForStatus(response.status) && response.body.Some?
    ensures r.Ok? ==> r.value == response.body.value
    ensures r.Err? && r.error.RepositoryNotFound? <==> response.Reply? && response.status == 404
    ensures r.Err? && r.error.RepositoryNotFound? ==> r.error.repoFullName == fullName
    ensures response.TransportFailure? ==> r == Err(TransportError(response.reason))
    ensures response.Reply? && RaisesForStatus(response.status) && response.status != 404 ==>
      r == Err(HttpError(response.status))
    ensures response.Reply? && !RaisesForStatus(response.status) && response.body.None? ==>
      r == Err(MalformedRepo)
  {
    match response
    case TransportFailure(reason) => Err(TransportError(reason))
    case Reply(status, body) =>
      if RaisesForStatus(status) then
        if status == 404 then Err(RepositoryNotFound(fullName)) else Err(HttpError(status))
      else
        match body
        case None => Err(MalformedRepo)
        case Some(repo) => Ok(repo)
  }

  /** The URL of the raw README on the repository's default branch. */
  function ReadmeUrl(repo: Repo): (url: string)
    ensures StartsWith(url, GitHubRawContentBaseUrl)
    ensures |url| >= |GitHubRawContentBaseUrl| + |ReadmeSuffix|
    ensures url[|url| - |ReadmeSuffix|..] == ReadmeSuffix
    ensures url[|GitHubRawContentBaseUrl|..|url| - |ReadmeSuffix|] == repo.fullName + "/" + repo.defaultBranch
  {
    var url := GitHubRawContentBaseUrl + repo.fullName + "/" + repo.defaultBranch + ReadmeSuffix;
    assert url == GitHubRawContentBaseUrl + (repo.fullName + "/" + repo.defaultBranch) + ReadmeSuffix;
    url
  }

  /** `get_readme`: 404 becomes `AwesomeReadmeNotFound`, every other failure
      is raised unchanged. */
  function GetReadme(response: Response<string>): (r: Result<string, Error>)
    ensures r.Ok? <==> response.Reply? && !RaisesForStatus(response.status)
    ensures r.Ok? ==> r.value == response.body
    ensures r == Err(AwesomeReadmeNotFound) <==> response.Reply? && response.status == 404
    ensures response.TransportFailure? ==> r == Err(TransportError(response.reason))
    ensures response.Reply? && RaisesForStatus(response.status) && response.status != 404 ==>
      r == Err(HttpError(response.status))
  {
    match response
    case TransportFailure(reason) => Err(TransportError(reason))
    case Reply(status, text) =>
      if RaisesForStatus(status) then
        if status == 404 then Err(AwesomeReadmeNotFound) else Err(HttpError(status))
      else Ok(text)
  }

  // ---------------------------------------------------------------------
  // the fetch loop

  /** A failure that aborts the harvest: anything but "repository not found". */
  predicate IsFatal(outcome: Result<Repo, Error>) {
    outcome.Err? && !outcome.error.RepositoryNotFound?
  }

  /** The outcome of looking up each name, in order. */
  function Outcomes(names: seq<string>, api: RepoApi): seq<Result<Repo, Error>> {
    seq(|names|, i requires 0 <= i < |names| => GetRepo(names[i], api(RepoApiUrl(names[i]))))
  }

  /** The index of the first fatal outcome, or `|outs|` when there is none. */
  function FirstFatal(outs: seq<Result<Repo, Error>>): (k: nat)
    ensures k <= |outs|
    ensures forall j :: 0 <= j < k ==> !IsFatal(outs[j])
    ensures k < |outs| ==> IsFatal(outs[k])
  {
    if outs == [] then 0
    else if IsFatal(outs[0]) then 0
    else 1 + FirstFatal(outs[1..])
  }

  /** The repositories of the successful outcomes, in order. */
  function Successes(outs: seq<Result<Repo, Error>>): seq<Repo> {
    if outs == [] then []
    else (if outs[0].Ok? then [outs[0].value] else []) + Successes(outs[1..])
  }

  /** The number of failed outcomes. */
  function Failures(outs: seq<Result<Repo, Error>>): nat {
    if outs == [] then 0
    else (if outs[0].Err? then 1 else 0) + Failures(outs[1..])
  }

  lemma {:induction false} SuccessesAppend(outs: seq<Result<Repo, Error>>, o: Result<Repo, Error>)
    ensures Successes(outs + [o]) == Successes(outs) + (if o.Ok? then [o.value] else [])
  {
    if outs == [] {
      assert outs + [o] == [o];
    } else {
      var head := if outs[0].Ok? then [outs[0].value] else [];
      assert (outs + [o])[0] == outs[0];
      assert (outs + [o])[1..] == outs[1..] + [o];
      assert Successes(outs + [o]) == head + Successes(outs[1..] + [o]);
      SuccessesAppend(outs[1..], o);
      assert Successes(outs) == head + Successes(outs[1..]);
    }
  }

  /** Every outcome is either kept or counted as a failure. */
  lemma {:induction false} SuccessesCount(outs: seq<Result<Repo, Error>>)
    ensures |Successes(outs)| + Failures(outs) == |outs|
  {
    if outs != [] {
      SuccessesCount(outs[1..]);
    }
  }

  /** A repository is kept exactly when some lookup found it. */
  lemma {:induction false} SuccessesMembers(outs: seq<Result<Repo, Error>>, repo: Repo)
    ensures repo in Successes(outs) <==> Ok(repo) in outs
  {
    if outs != [] {
      SuccessesMembers(outs[1..], repo);
      assert outs == [outs[0]] + outs[1..];
    }
  }

  /** The loop of `get_sorted_awesome_list_repos` over the names to process:
      each name is looked up in order; a repository that is not found is
      skipped, any other failure ends the loop and is raised. `requested`
      lists the names looked up, in order. */
  method FetchRepos(names: seq<string>, api: RepoApi) returns (r: Result<seq<Repo>, Error>, requested: seq<string>)
    ensures var outs := Outcomes(names, api);
      var k := FirstFatal(outs);
      && requested == names[..if k < |names| then k + 1 else k]
      && (k < |names| ==> r == Err(outs[k].error))
      && (k == |names| ==> r == Ok(Successes(outs)))
  {
    ghost var outs := Outcomes(names, api);
    var repos: seq<Repo> := [];
    requested := [];
    for i := 0 to |names|
      invariant requested == names[..i]
      invariant FirstFatal(outs) >= i
      invariant repos == Successes(outs[..i])
    {
      requested := requested + [names[i]];
      var outcome := GetRepo(names[i], api(RepoApiUrl(names[i])));
      assert outcome == outs[i];
      assert outs[..i + 1] == outs[..i] + [outs[i]];
      SuccessesAppend(outs[..i], outs[i]);
      match outcome {
        case Ok(repo) =>
          repos := repos + [repo];
        case Err(RepositoryNotFound(_)) =>
        case Err(e) =>
          r := Err(e);
          return;
      }
    }
    assert outs[..|names|] == outs;
    r := Ok(repos);
  }

  // ---------------------------------------------------------------------
  // the sort

  /** Non-increasing by stars. */
  predicate SortedByStars(s: seq<Repo>) {
    forall i, j :: 0 <= i < j < |s| ==> s[i].stars >= s[j].stars
  }

  /** The repositories with `k` stars, in their order in `s`. */
  function WithStars(s: seq<Repo>, k: int): seq<Repo> {
    if s == [] then []
    else (if s[0].stars == k then [s[0]] else []) + WithStars(s[1..], k)
  }

  /** `x` placed after every repository with at least as many stars. */
  function Insert(s: seq<Repo>, x: Repo): seq<Repo> {
    if s == [] then [x]
    else if s[0].stars < x.stars then [x] + s
    else [s[0]] + Insert(s[1..], x)
  }

  /** `repos.sort(key=lambda r: r.stars, reverse=True)`: Python's sort is
      stable, and `reverse=True` keeps it stable, so repositories with equal
      stars keep their order. */
  function SortByStars(s: seq<Repo>): seq<Repo> {
    if s == [] then [] else Insert(SortByStars(s[..|s| - 1]), s[|s| - 1])
  }

  lemma {:induction false} InsertMultiset(s: seq<Repo>, x: Repo)
    ensures multiset(Insert(s, x)) == multiset(s) + multiset{x}
  {
    if s != [] && s[0].stars >= x.stars {
      InsertMultiset(s[1..], x);
      assert s == [s[0]] + s[1..];
    }
  }

  lemma {:induction false} InsertSorted(s: seq<Repo>, x: Repo)
    requires SortedByStars(s)
    ensures SortedByStars(Insert(s, x))
  {
    if s != [] && s[0].stars >= x.stars {
      InsertSorted(s[1..], x);
      var t := Insert(s[1..], x);
      InsertMultiset(s[1..], x);
      forall j | 0 <= j < |t| ensures s[0].stars >= t[j].stars {
        assert t[j] in multiset(t);
        assert t[j] in s[1..] || t[j] == x;
      }
    }
  }

  lemma {:induction false} WithStarsAppend(a: seq<Repo>, b: seq<Repo>, k: int)
    ensures WithStars(a + b, k) == WithStars(a, k) + WithStars(b, k)
  {
    if a == [] {
      assert a + b == b;
    } else {
      assert (a + b)[1..] == a[1..] + b;
      WithStarsAppend(a[1..], b, k);
    }
  }

  lemma WithStarsLast(s: seq<Repo>, k: int)
    requires s != []
    ensures WithStars(s, k) == WithStars(s[..|s| - 1], k) + (if s[|s| - 1].stars == k then [s[|s| - 1]] else [])
  {
    assert s == s[..|s| - 1] + [s[|s| - 1]];
    WithStarsAppend(s[..|s| - 1], [s[|s| - 1]], k);
    assert WithStars([s[|s| - 1]], k) == (if s[|s| - 1].stars == k then [s[|s| - 1]] else []) + WithStars([], k);
  }

  lemma {:induction false} WithStarsNone(s: seq<Repo>, k: int)
    requires forall i :: 0 <= i < |s| ==> s[i].stars < k
    ensures WithStars(s, k) == []
  {
    if s != [] {
      WithStarsNone(s[1..], k);
    }
  }

  lemma {:induction false} InsertWithStars(s: seq<Repo>, x: Repo, k: int)
    requires SortedByStars(s)
    ensures WithStars(Insert(s, x), k) == WithStars(s, k) + (if x.stars == k then [x] else [])
  {
    if s == [] {
    } else if s[0].stars < x.stars {
      assert ([x] + s)[1..] == s;
      if x.stars == k {
        WithStarsNone(s, k);
      }
    } else {
      InsertWithStars(s[1..], x, k);
      assert ([s[0]] + Insert(s[1..], x))[1..] == Insert(s[1..], x);
    }
  }

  /** The sorted list is non-increasing by stars. */
  lemma {:induction false} SortByStarsSorted(s: seq<Repo>)
    ensures SortedByStars(SortByStars(s))
  {
    if s != [] {
      SortByStarsSorted(s[..|s| - 1]);
      InsertSorted(SortByStars(s[..|s| - 1]), s[|s| - 1]);
    }
  }

  /** The sorted list is a permutation of the input. */
  lemma {:induction false} SortByStarsPermutation(s: seq<Repo>)
    ensures multiset(SortByStars(s)) == multiset(s)
  {
    if s != [] {
      SortByStarsPermutation(s[..|s| - 1]);
      InsertMultiset(SortByStars(s[..|s| - 1]), s[|s| - 1]);
      assert s == s[..|s| - 1] + [s[|s| - 1]];
    }
  }

  /** The sort is stable: for every star count, the repositories with that
      count appear in the same order as in the input. */
  lemma {:induction false} SortByStarsStable(s: seq<Repo>, k: int)
    ensures WithStars(SortByStars(s), k) == WithStars(s, k)
  {
    if s != [] {
      var init, last := s[..|s| - 1], s[|s| - 1];
      SortByStarsStable(init, k);
      SortByStarsSorted(init);
      InsertWithStars(SortByStars(init), last, k);
      WithStarsLast(s, k);
    }
  }

  // ---------------------------------------------------------------------
  // the whole harvest

  /** What `get_sorted_awesome_list_repos(repo, process_count)` returns or raises. */
  function AwesomeListResult(repo: string, processCount: int, api: RepoApi, raw: RawApi): Result<seq<Repo>, Error> {
    var fullName := RepoFullName(repo);
    match GetRepo(fullName, api(RepoApiUrl(fullName)))
    case Err(e) => Err(e)
    case Ok(listRepo) =>
      match GetReadme(raw(ReadmeUrl(listRepo)))
      case Err(e) => Err(e)
      case Ok(text) =>
        var outs := Outcomes(SliceTo(ExtractFullNames(text), processCount), api);
        var k := FirstFatal(outs);
        if k < |outs| then Err(outs[k].error) else Ok(SortByStars(Successes(outs)))
  }

  /** The identifiers the harvest processes: the first `processCount` of
      those the list's README links to, or `None` when the list or its README
      cannot be read. */
  function HarvestNames(repo: string, processCount: int, api: RepoApi, raw: RawApi): Option<seq<string>> {
    var fullName := RepoFullName(repo);
    match GetRepo(fullName, api(RepoApiUrl(fullName)))
    case Err(_) => None
    case Ok(listRepo) =>
      match GetReadme(raw(ReadmeUrl(listRepo)))
      case Err(_) => None
      case Ok(text) => Some(SliceTo(ExtractFullNames(text), processCount))
  }

  /** `get_sorted_awesome_list_repos`: `fetched` lists the repositories looked
      up by the fetch loop, in order. */
  method GetSortedAwesomeListRepos(repo: string, processCount: int, api: RepoApi, raw: RawApi)
    returns (r: Result<seq<Repo>, Error>, fetched: seq<string>)
    ensures r == AwesomeListResult(repo, processCount, api, raw)
    ensures r.Ok? ==> SortedByStars(r.value)
    ensures HarvestNames(repo, processCount, api, raw).None? ==> r.Err? && fetched == []
    ensures HarvestNames(repo, processCount, api, raw).Some? ==>
      var names := HarvestNames(repo, processCount, api, raw).value;
      var k := FirstFatal(Outcomes(names, api));
      fetched == names[..if k < |names| then k + 1 else k]
    ensures r.Ok? ==> HarvestNames(repo, processCount, api, raw) == Some(fetched)
  {
    var fullName := RepoFullName(repo);
    var listRepo := GetRepo(fullName, api(RepoApiUrl(fullName)));
    if listRepo.Err? {
      assert HarvestNames(repo, processCount, api, raw).None?;
      return Err(listRepo.error), [];
    }
    var readme := GetReadme(raw(ReadmeUrl(listRepo.value)));
    if readme.Err? {
      assert HarvestNames(repo, processCount, api, raw).None?;
      return Err(readme.error), [];
    }
    var names := ExtractFullNames(readme.value);
    ghost var processed := SliceTo(names, processCount);
    assert HarvestNames(repo, processCount, api, raw) == Some(processed);
    var repos;
    repos, fetched := FetchRepos(SliceTo(names, processCount), api);
    if repos.Err? {
      return Err(repos.error), fetched;
    }
    assert processed[..|processed|] == processed;
    SortByStarsSorted(repos.value);
    r := Ok(SortByStars(repos.value));
  }

  /** A successful harvest is the found repositories among those looked up,
      non-increasing by stars, stable for equal stars, and one fewer than the
      number looked up for each repository that was not found. */
  lemma AwesomeListSorted(repo: string, processCount: int, api: RepoApi, raw: RawApi)
    requires AwesomeListResult(repo, processCount, api, raw).Ok?
    ensures var r := AwesomeListResult(repo, processCount, api, raw).value;
      var fullName := RepoFullName(repo);
      var listRepo := GetRepo(fullName, api(RepoApiUrl(fullName))).value;
      var text := GetReadme(raw(ReadmeUrl(listRepo))).value;
      var outs := Outcomes(SliceTo(ExtractFullNames(text), processCount), api);
      && SortedByStars(r)
      && multiset(r) == multiset(Successes(outs))
      && (forall k :: WithStars(r, k) == WithStars(Successes(outs), k))
      && |r| == |outs| - Failures(outs)
      && (forall x :: x in r <==> Ok(x) in outs)
  {
    var fullName := RepoFullName(repo);
    var listRepo := GetRepo(fullName, api(RepoApiUrl(fullName))).value;
    var text := GetReadme(raw(ReadmeUrl(listRepo))).value;
    var outs := Outcomes(SliceTo(ExtractFullNames(text), processCount), api);
    var found := Successes(outs);
    SortByStarsSorted(found);
    SortByStarsPermutation(found);
    forall k ensures WithStars(SortByStars(found), k) == WithStars(found, k) {
      SortByStarsStable(found, k);
    }
    SuccessesCount(outs);
    forall x ensures x in SortByStars(found) <==> Ok(x) in outs {
      SuccessesMembers(outs, x);
      assert x in SortByStars(found) <==> x in multiset(SortByStars(found));
    }
  }

  /** A failed harvest names the first failure: that of the list's own
      lookup, of its README, or the first fatal lookup of the loop. */
  lemma AwesomeListFailure(repo: string, processCount: int, api: RepoApi, raw: RawApi)
    requires AwesomeListResult(repo, processCount, api, raw).Err?
    ensures var e := AwesomeListResult(repo, processCount, api, raw).error;
      var fullName := RepoFullName(repo);
      var listRepo := GetRepo(fullName, api(RepoApiUrl(fullName)));
      || listRepo == Err(e)
      || (listRepo.Ok? && GetReadme(raw(ReadmeUrl(listRepo.value))) == Err(e))
      || (listRepo.Ok? && GetReadme(raw(ReadmeUrl(listRepo.value))).Ok? &&
          var outs := Outcomes(SliceTo(ExtractFullNames(GetReadme(raw(ReadmeUrl(listRepo.value))).value), processCount), api);
          exists i :: 0 <= i < |outs| && outs[i] == Err(e) && IsFatal(outs[i]) &&
            forall j :: 0 <= j < i ==> !IsFatal(outs[j]))
  {
  }

  // ---------------------------------------------------------------------
  // the command line

  /** What `main` shows: the first `count` ranked repositories, or one of
      the two apology messages; any other error escapes. */
  datatype Report =
    | Ranked(repos: seq<Repo>)
    | RepositoryNotFoundMessage(repoFullName: string)
    | ReadmeNotFoundMessage
    | Crash(error: Error)

  function MainReport(r: Result<seq<Repo>, Error>, count: int): (report: Report)
    ensures r.Ok? ==> report.Ranked? && report.repos <= r.value
    ensures r.Ok? ==> |report.repos| == |SliceTo(r.value, count)|
    ensures r.Err? && r.error.RepositoryNotFound? ==> report == RepositoryNotFoundMessage(r.error.repoFullName)
    ensures r == Err(AwesomeReadmeNotFound) ==> report == ReadmeNotFoundMessage
    ensures report.Crash? <==> r.Err? && !r.error.RepositoryNotFound? && !r.error.AwesomeReadmeNotFound?
    ensures report.Crash? ==> report.error == r.error
  {
    match r
    case Ok(repos) => Ranked(SliceTo(repos, count))
    case Err(RepositoryNotFound(name)) => RepositoryNotFoundMessage(name)
    case Err(AwesomeReadmeNotFound) => ReadmeNotFoundMessage
    case Err(e) => Crash(e)
  }
}
