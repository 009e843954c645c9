/**
 * The helpers of cmd/utils.go: membership in a string list, conversion of version
 * components to integers, and the parsing of the command-line / configuration
 * input into package and repository lists.
 */
module Utils {
  import opened Strings

  /** stringInSlice: a read-only search of the list. */
  function StringInSlice(a: string, list: seq<string>): (found: bool)
    ensures found <==> a in list
  {
    if list == [] then false
    else if list[0] == a then true
    else StringInSlice(a, list[1..])
  }

  /** The integer strconv.Atoi gives for each component (0 after a logged syntax error). */
  function IntsOf(input: seq<string>): (output: seq<int>)
    ensures |output| == |input|
  {
    if input == [] then [] else IntsOf(input[..|input| - 1]) + [Atoi(input[|input| - 1]).value]
  }

  lemma {:induction false} IntsOfAt(input: seq<string>)
    ensures forall i :: 0 <= i < |input| ==> IntsOf(input)[i] == Atoi(input[i]).value
  {
    if input != [] {
      var front := input[..|input| - 1];
      IntsOfAt(front);
      assert forall i :: 0 <= i < |front| ==> input[i] == front[i];
    }
  }

  /**
   * stringsToInts: one integer per input string, in order. A string on which
   * strconv.Atoi reports a syntax error yields 0 (the error is only logged); one
   * out of the 64-bit range is clamped.
   */
  method StringsToInts(input: seq<string>) returns (output: seq<int>)
    ensures |output| == |input|
    ensures forall i :: 0 <= i < |input| ==> output[i] == Atoi(input[i]).value
    ensures forall i :: 0 <= i < |input| && IsSyntaxError(input[i]) ==> output[i] == 0
    ensures output == IntsOf(input)
  {
    output := [];
    var k := 0;
    while k < |input|
      invariant 0 <= k <= |input|
      invariant output == IntsOf(input[..k])
    {
      output := output + [Atoi(input[k]).value];
      k := k + 1;
      assert input[..k][..k - 1] == input[..k - 1];
    }
    assert input[..k] == input;
    IntsOfAt(input);
  }

  datatype Result<T, E> = Success(value: T) | Failure(error: E)

  /** The three fatal conditions of ParseInput. */
  datatype InputError =
    | NoPackages
    | NoRepositories
    | MalformedRepository(item: string)

  /** The four results of ParseInput. */
  datatype Input = Input(
    packageList: seq<string>,
    repositoryList: seq<string>,
    repositoryMap: map<string, string>,
    allowedMissingDependencyTypes: seq<string>)

  /** A non-empty comma-separated CLI string takes precedence over the configuration list. */
  function Selected(cli: string, configured: seq<string>): seq<string> {
    if |cli| > 0 then Split(cli, ",") else configured
  }

  predicate WellFormedRepository(item: string) {
    Contains(item, "=")
  }

  /** The text before the first '='. */
  function AliasOf(item: string): string
    requires WellFormedRepository(item)
  {
    Split(item, "=")[0]
  }

  /** The text between the first and the second '=' (or the end). */
  function UrlOf(item: string): string
    requires WellFormedRepository(item)
  {
    Split(item, "=")[1]
  }

  /** The (alias, URL) pair of each item, in order. */
  function Entries(items: seq<string>): seq<(string, string)>
    requires forall k :: 0 <= k < |items| ==> WellFormedRepository(items[k])
  {
    seq(|items|, k requires 0 <= k < |items| => (AliasOf(items[k]), UrlOf(items[k])))
  }

  /** A map filled from the pairs in order, so that later pairs overwrite earlier ones. */
  function MapOf(entries: seq<(string, string)>): map<string, string> {
    if entries == [] then map[]
    else MapOf(entries[..|entries| - 1])[entries[|entries| - 1].0 := entries[|entries| - 1].1]
  }

  /** The alias map built by the loop. */
  function RepositoryMap(items: seq<string>): map<string, string>
    requires forall k :: 0 <= k < |items| ==> WellFormedRepository(items[k])
  {
    MapOf(Entries(items))
  }

  function Urls(items: seq<string>): seq<string>
    requires forall k :: 0 <= k < |items| ==> WellFormedRepository(items[k])
  {
    seq(|items|, k requires 0 <= k < |items| => UrlOf(items[k]))
  }

  /**
   * The loop of ParseInput over the repository items: every item must contain '=';
   * the URLs are collected in order and the aliases mapped to them.
   */
  method ParseRepositoryList(repositoryList: seq<string>)
    returns (r: Result<(seq<string>, map<string, string>), InputError>)
    ensures r.Failure? ==>
      r.error.MalformedRepository? && r.error.item in repositoryList && !WellFormedRepository(r.error.item)
    ensures r.Success? <==> forall item :: item in repositoryList ==> WellFormedRepository(item)
    ensures r.Success? ==> r.value == (Urls(repositoryList), RepositoryMap(repositoryList))
  {
    var outputRepositoryMap: map<string, string> := map[];
    var outputRepositoryList: seq<string> := [];
    var i := 0;
    while i < |repositoryList|
      invariant 0 <= i <= |repositoryList|
      invariant forall k :: 0 <= k < i ==> WellFormedRepository(repositoryList[k])
      invariant outputRepositoryMap == RepositoryMap(repositoryList[..i])
      invariant outputRepositoryList == Urls(repositoryList[..i])
    {
      var item := repositoryList[i];
      if !Contains(item, "=") {
        return Failure(MalformedRepository(item));
      }
      var repository := Split(item, "=");
      outputRepositoryMap := outputRepositoryMap[repository[0] := repository[1]];
      outputRepositoryList := outputRepositoryList + [repository[1]];
      assert Entries(repositoryList[..i + 1]) == Entries(repositoryList[..i]) + [(repository[0], repository[1])];
      assert repositoryList[..i + 1][..i] == repositoryList[..i];
      i := i + 1;
    }
    assert repositoryList[..i] == repositoryList;
    return Success((outputRepositoryList, outputRepositoryMap));
  }

  /**
   * ParseInput, with the globals it reads passed as parameters and
   * log.Fatal reported as a failure.
   */
  method ParseInput(
    inputPackageList: string, inputPackages: seq<string>,
    inputRepositoryList: string, inputRepositories: seq<string>,
    allowIncompleteRenvLock: string)
    returns (r: Result<Input, InputError>)
    ensures |inputPackageList| == 0 && |inputPackages| == 0 ==> r == Failure(NoPackages)
    ensures (|inputPackageList| > 0 || |inputPackages| > 0) && |inputRepositoryList| == 0 && |inputRepositories| == 0
      ==> r == Failure(NoRepositories)
    ensures r.Failure? && r.error.MalformedRepository? ==>
      r.error.item in Selected(inputRepositoryList, inputRepositories) && !WellFormedRepository(r.error.item)
    ensures r.Success? <==>
      && (|inputPackageList| > 0 || |inputPackages| > 0)
      && (|inputRepositoryList| > 0 || |inputRepositories| > 0)
      && forall item :: item in Selected(inputRepositoryList, inputRepositories) ==> WellFormedRepository(item)
    ensures r.Success? ==>
      var items := Selected(inputRepositoryList, inputRepositories);
      && r.value.packageList == Selected(inputPackageList, inputPackages)
      && r.value.repositoryList == Urls(items)
      && r.value.repositoryMap == RepositoryMap(items)
      && r.value.allowedMissingDependencyTypes == (if |allowIncompleteRenvLock| > 0 then Split(allowIncompleteRenvLock, ",") else [])
  {
    if |inputPackageList| < 1 && |inputPackages| == 0 {
      return Failure(NoPackages);
    }
    if |inputRepositoryList| < 1 && |inputRepositories| == 0 {
      return Failure(NoRepositories);
    }
    var packageList := Selected(inputPackageList, inputPackages);
    var repositoryList := Selected(inputRepositoryList, inputRepositories);
    var allowedMissingDependencyTypes: seq<string> := [];
    if |allowIncompleteRenvLock| > 0 {
      allowedMissingDependencyTypes := Split(allowIncompleteRenvLock, ",");
    }
    var repositories := ParseRepositoryList(repositoryList);
    if repositories.Failure? {
      return Failure(repositories.error);
    }
    var (outputRepositoryList, outputRepositoryMap) := repositories.value;
    return Success(Input(packageList, outputRepositoryList, outputRepositoryMap, allowedMissingDependencyTypes));
  }

  /**
   * A repository item is its alias, '=', its URL and possibly more text starting
   * with a further '='; neither alias nor URL contains '='.
   */
  lemma RepositoryItemShape(item: string)
    requires WellFormedRepository(item)
    ensures '=' !in AliasOf(item) && '=' !in UrlOf(item)
    ensures exists rest :: item == AliasOf(item) + "=" + UrlOf(item) + rest && (rest == "" || rest[0] == '=')
  {
    var i := Index(item, "=");
    IndexChar(item, '=');
    SplitUnfold(item, "=");
    var alias := item[..i];
    var tail := item[i + 1..];
    assert AliasOf(item) == alias && item == alias + "=" + tail;
    var i2 := Index(tail, "=");
    IndexChar(tail, '=');
    SplitUnfold(tail, "=");
    var url := if i2 < 0 then tail else tail[..i2];
    var rest := if i2 < 0 then "" else "=" + tail[i2 + 1..];
    assert UrlOf(item) == url;
    assert tail == url + rest;
    var front := alias + "=";
    assert item == front + (url + rest);
    assert front + (url + rest) == front + url + rest;
  }

  /** An item written as alias=URL, with no further '=', yields exactly that alias and URL. */
  lemma RepositoryItemOf(alias: string, url: string)
    requires '=' !in alias && '=' !in url
    ensures WellFormedRepository(alias + "=" + url)
    ensures AliasOf(alias + "=" + url) == alias && UrlOf(alias + "=" + url) == url
  {
    assert Join([alias, url], "=") == alias + "=" + url;
    SplitJoin([alias, url], '=');
    ContainsChar(alias + "=" + url, '=');
  }

  /** The position of the last pair with the given key, or -1 when there is none. */
  function LastIndexOf(entries: seq<(string, string)>, key: string): (k: int)
    ensures -1 <= k < |entries|
    ensures k >= 0 ==> entries[k].0 == key
    ensures forall j :: k < j < |entries| ==> entries[j].0 != key
  {
    if entries == [] then -1
    else if entries[|entries| - 1].0 == key then |entries| - 1
    else LastIndexOf(entries[..|entries| - 1], key)
  }

  /** In a map filled from pairs, a key is present iff some pair has it, and it holds the value of the last such pair. */
  lemma {:induction false} MapOfLastWins(entries: seq<(string, string)>, key: string)
    ensures key in MapOf(entries) <==> LastIndexOf(entries, key) >= 0
    ensures key in MapOf(entries) ==> MapOf(entries)[key] == entries[LastIndexOf(entries, key)].1
  {
    if entries != [] {
      var front := entries[..|entries| - 1];
      MapOfLastWins(front, key);
      if entries[|entries| - 1].0 != key && LastIndexOf(front, key) >= 0 {
        assert entries[LastIndexOf(front, key)] == front[LastIndexOf(front, key)];
      }
    }
  }

  /**
   * The alias map holds exactly the aliases of the items, each sent to the URL of the
   * LAST item with that alias.
   */
  lemma RepositoryMapLastWins(items: seq<string>, alias: string)
    requires forall k :: 0 <= k < |items| ==> WellFormedRepository(items[k])
    ensures alias in RepositoryMap(items) <==> exists k :: 0 <= k < |items| && AliasOf(items[k]) == alias
    ensures alias in RepositoryMap(items) ==>
      exists k :: && 0 <= k < |items| && AliasOf(items[k]) == alias
                  && RepositoryMap(items)[alias] == UrlOf(items[k])
                  && forall j :: k < j < |items| ==> AliasOf(items[j]) != alias
  {
    var entries := Entries(items);
    MapOfLastWins(entries, alias);
    var k := LastIndexOf(entries, alias);
    if k >= 0 {
      assert AliasOf(items[k]) == alias && RepositoryMap(items)[alias] == UrlOf(items[k]);
      forall j | k < j < |items| ensures AliasOf(items[j]) != alias {
        assert entries[j].0 != alias;
      }
    }
    forall j | 0 <= j < |items| && AliasOf(items[j]) == alias ensures alias in RepositoryMap(items) {
      assert entries[j].0 == alias;
    }
  }
}
