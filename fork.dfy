// `ensure_fork`: find the signed-in user's fork of an upstream repository,
// creating it when needed and polling until GitHub shows it.  GitHub's
// answers are inputs: the first lookup, whether `create_fork` succeeds, and
// the lookups the poll makes before its deadline.  The wall-clock deadline
// becomes the number of poll answers supplied.

module Fork {
  import opened Wrappers

  /** A repository as the workflow sees it: its owner's login and its name. */
  datatype Repo = Repo(owner: string, name: string)

  /** `full_name` of a repository. */
  function FullName(r: Repo): string {
    r.owner + "/" + r.name
  }

  /** One answer to `get_repo(fork_full)`: the repository, or the error raised. */
  datatype Lookup = Found(repo: Repo) | Missing(err: string)

  /** How `ensure_fork` ends: with the fork and whether it was created, or raising. */
  datatype ForkResult =
    | Forked(fork: Repo, created: bool)
    | CreateFailed(err: string)
    | NotVisible(lastErr: Option<string>)

  /** The name looked up: `<my_login>/<upstream name>`. */
  function ForkFullName(myLogin: string, upstream: Repo): (r: string)
    ensures r == FullName(Repo(myLogin, upstream.name))
  {
    myLogin + "/" + upstream.name
  }

  /** Index of the first poll that finds the fork. */
  function FirstFound(polls: seq<Lookup>): (r: Option<nat>)
    ensures r.Some? ==> (r.value < |polls| && polls[r.value].Found?
                         && forall j | 0 <= j < r.value :: polls[j].Missing?)
    ensures r.None? ==> forall j | 0 <= j < |polls| :: polls[j].Missing?
    decreases |polls|
  {
    if |polls| == 0 then None
    else if polls[0].Found? then Some(0)
    else match FirstFound(polls[1..])
      case None => None
      case Some(k) => Some(k + 1)
  }

  /** The error carried by the last poll, if the poll ran at all. */
  function LastError(polls: seq<Lookup>): Option<string>
    requires forall j | 0 <= j < |polls| :: polls[j].Missing?
  {
    if |polls| == 0 then None else Some(polls[|polls| - 1].err)
  }

  /**
   * What `ensure_fork` returns or raises, given the first lookup, the
   * outcome of `create_fork` (`None` when it succeeds) and the poll answers.
   */
  function EnsureForkSpec(existing: Lookup, createErr: Option<string>, polls: seq<Lookup>): ForkResult {
    if existing.Found? then Forked(existing.repo, false)
    else if createErr.Some? then CreateFailed(createErr.value)
    else match FirstFound(polls)
      case Some(k) => Forked(polls[k].repo, true)
      case None => NotVisible(LastError(polls))
  }

  /**
   * `ensure_fork` as the source runs it.  `createCalled` says whether
   * `create_fork` was called, `lookups` how many times `get_repo` was.
   */
  method EnsureFork(existing: Lookup, createErr: Option<string>, polls: seq<Lookup>)
    returns (r: ForkResult, createCalled: bool, lookups: nat)
    ensures r == EnsureForkSpec(existing, createErr, polls)
    ensures createCalled <==> existing.Missing?
    ensures lookups == 1 + PollsMade(existing, createErr, polls)
  {
    lookups := 1;
    if existing.Found? {
      return Forked(existing.repo, false), false, lookups;
    }
    createCalled := true;
    if createErr.Some? {
      return CreateFailed(createErr.value), createCalled, lookups;
    }
    var lastErr: Option<string> := None;
    var i := 0;
    while i < |polls|
      invariant 0 <= i <= |polls|
      invariant forall j | 0 <= j < i :: polls[j].Missing?
      invariant lastErr == LastError(polls[..i])
      invariant lookups == 1 + i
    {
      if polls[i].Found? {
        FirstFoundAt(polls, i);
        return Forked(polls[i].repo, true), createCalled, lookups + 1;
      }
      lastErr := Some(polls[i].err);
      i := i + 1;
      lookups := lookups + 1;
    }
    assert polls[..i] == polls;
    r := NotVisible(lastErr);
  }

  /** How many poll lookups `ensure_fork` makes. */
  function PollsMade(existing: Lookup, createErr: Option<string>, polls: seq<Lookup>): nat {
    if existing.Found? || createErr.Some? then 0
    else match FirstFound(polls)
      case Some(k) => k + 1
      case None => |polls|
  }

  /** A poll that finds the fork after only misses is the first to find it. */
  lemma FirstFoundAt(polls: seq<Lookup>, i: nat)
    requires i < |polls| && polls[i].Found?
    requires forall j | 0 <= j < i :: polls[j].Missing?
    ensures FirstFound(polls) == Some(i)
  {
  }

  /** An existing fork is returned as not created, and `create_fork` is never called. */
  lemma ExistingForkReused(existing: Lookup, createErr: Option<string>, polls: seq<Lookup>)
    requires existing.Found?
    ensures EnsureForkSpec(existing, createErr, polls) == Forked(existing.repo, false)
    ensures PollsMade(existing, createErr, polls) == 0
  {
  }

  /** A failing `create_fork` raises at once, before any poll. */
  lemma CreateFailureIsImmediate(existing: Lookup, createErr: Option<string>, polls: seq<Lookup>)
    requires existing.Missing? && createErr.Some?
    ensures EnsureForkSpec(existing, createErr, polls) == CreateFailed(createErr.value)
    ensures PollsMade(existing, createErr, polls) == 0
  {
  }

  /**
   * After a successful create, the fork returned is the one the first
   * successful poll saw, marked as created, and no poll follows it.
   */
  lemma FirstVisibleForkWins(createErr: Option<string>, polls: seq<Lookup>, err: string, k: nat)
    requires createErr.None? && k < |polls| && polls[k].Found?
    requires forall j | 0 <= j < k :: polls[j].Missing?
    ensures EnsureForkSpec(Missing(err), createErr, polls) == Forked(polls[k].repo, true)
    ensures PollsMade(Missing(err), createErr, polls) == k + 1
  {
    FirstFoundAt(polls, k);
  }

  /**
   * When no poll before the deadline finds the fork, `ensure_fork` raises
   * with the last poll's error, or with none when the deadline left no poll.
   */
  lemma NeverVisibleCarriesLastError(createErr: Option<string>, polls: seq<Lookup>, err: string)
    requires createErr.None?
    requires forall j | 0 <= j < |polls| :: polls[j].Missing?
    ensures |polls| > 0 ==> EnsureForkSpec(Missing(err), createErr, polls) == NotVisible(Some(polls[|polls| - 1].err))
    ensures |polls| == 0 ==> EnsureForkSpec(Missing(err), createErr, polls) == NotVisible(None)
  {
  }

  /** Any fork `ensure_fork` returns is one a lookup of GitHub actually answered with. */
  lemma ForkComesFromLookup(existing: Lookup, createErr: Option<string>, polls: seq<Lookup>)
    ensures var r := EnsureForkSpec(existing, createErr, polls);
      r.Forked? ==> ((existing == Found(r.fork) && !r.created)
                     || (existing.Missing? && r.created && Found(r.fork) in polls))
  {
  }
}
