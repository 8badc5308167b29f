/** Keeping the local mirror in step with the remote repository
    (`update_local_repository` and `clone_with_progress` in src/git_ops.rs,
    duplicated in src/main.rs). The repository is its references, its HEAD
    and the commit its working tree holds. The network, the fetch itself and
    the merge analysis are inputs. */
module Mirror {
  import opened Base

  type Oid = nat

  const MasterRef: string := "refs/heads/master"

  datatype Head = OnBranch(refName: string) | Detached(oid: Oid)

  /** `worktree` is the commit whose files the working directory holds. */
  datatype Repo = Repo(refs: map<string, Oid>, head: Head, worktree: Option<Oid>)

  /** What the mirror directory holds before the update. */
  datatype Disk = Missing | NotARepository | Present(repo: Repo)

  /** The FETCH_HEAD reference after the fetch. */
  datatype FetchHead = NoFetchHead | NoTarget | Target(oid: Oid)

  /** The flags of `merge_analysis`; more than one may be set. */
  datatype Analysis = Analysis(upToDate: bool, fastForward: bool, normal: bool)

  /** The remote as a clone sees it: its default branch and that branch's commit. */
  datatype Remote = Remote(defaultRef: string, headOid: Oid)

  datatype GitError = NotFound | UnbornBranch | Exists(refName: string) | Network

  /** src/git_ops.rs reports a FETCH_HEAD without target as an error;
      src/main.rs calls `unwrap` on it. */
  datatype Variant = Library | Binary

  datatype SyncError = Git(error: GitError) | Panicked

  /** `get_fetch_head`: the oid FETCH_HEAD points at. */
  function GetFetchHead(v: Variant, fh: FetchHead): (r: Result<Oid, SyncError>)
    ensures r.Ok? <==> fh.Target?
    ensures r.Ok? ==> r.value == fh.oid
    ensures fh == NoTarget ==> r == (if v == Library then Err(Git(NotFound)) else Err(Panicked))
    ensures fh == NoFetchHead ==> r == Err(Git(NotFound))
  {
    match fh
    case NoFetchHead => Err(Git(NotFound))
    case NoTarget => if v == Library then Err(Git(NotFound)) else Err(Panicked)
    case Target(oid) => Ok(oid)
  }

  /** `fast_forward` on the reference HEAD resolves to: that reference is
      moved to `oid`, HEAD is pointed at it, and a forced checkout makes the
      working tree hold `oid`. An unborn branch fails in `repo.head()`. */
  function FastForward(repo: Repo, oid: Oid): (r: Result<Repo, GitError>)
    ensures r.Err? <==> repo.head.OnBranch? && repo.head.refName !in repo.refs
    ensures r.Err? ==> r.error == UnbornBranch
    ensures r.Ok? ==> r.value.worktree == Some(oid)
    ensures r.Ok? && repo.head.OnBranch? ==>
      && r.value.head == repo.head
      && r.value.refs == repo.refs[repo.head.refName := oid]
    ensures r.Ok? && repo.head.Detached? ==> r.value.head == Detached(oid) && r.value.refs == repo.refs
  {
    match repo.head
    case OnBranch(name) =>
      if name !in repo.refs then Err(UnbornBranch)
      else Ok(Repo(repo.refs[name := oid], OnBranch(name), Some(oid)))
    case Detached(_) => Ok(Repo(repo.refs, Detached(oid), Some(oid)))
  }

  /** The commit HEAD names, if any. */
  function HeadCommit(repo: Repo): Option<Oid> {
    match repo.head
    case OnBranch(name) => if name in repo.refs then Some(repo.refs[name]) else None
    case Detached(oid) => Some(oid)
  }

  /** After a fast-forward, HEAD names the fetched commit and the working
      tree holds it. */
  lemma FastForwardReachesFetched(repo: Repo, oid: Oid)
    requires FastForward(repo, oid).Ok?
    ensures HeadCommit(FastForward(repo, oid).value) == Some(oid)
    ensures FastForward(repo, oid).value.worktree == HeadCommit(FastForward(repo, oid).value)
  {
  }

  /** Fetch, read FETCH_HEAD and act on the analysis, for a repository that
      opened. Only a fast-forward changes anything; a normal merge or any
      other state is left alone and still reported as success. */
  function UpdateExisting(v: Variant, repo: Repo, fetched: Result<FetchHead, GitError>, analysis: Analysis)
    : (r: Result<Repo, SyncError>)
    ensures fetched.Err? ==> r == Err(Git(fetched.error))
    ensures fetched.Ok? && !fetched.value.Target? ==> r.Err?
    ensures fetched.Ok? && fetched.value.Target? && analysis.upToDate ==> r == Ok(repo)
    ensures fetched.Ok? && fetched.value.Target? && !analysis.upToDate && analysis.fastForward ==>
      && (r.Ok? <==> FastForward(repo, fetched.value.oid).Ok?)
      && (r.Ok? ==> r.value == FastForward(repo, fetched.value.oid).value)
      && (r.Err? ==> r.error == Git(UnbornBranch))
    ensures fetched.Ok? && fetched.value.Target? && !analysis.upToDate && !analysis.fastForward ==>
      r == Ok(repo)
  {
    match fetched
    case Err(e) => Err(Git(e))
    case Ok(fh) =>
      var oid :- GetFetchHead(v, fh);
      if analysis.upToDate then Ok(repo)
      else if analysis.fastForward then
        match FastForward(repo, oid)
        case Ok(next) => Ok(next)
        case Err(e) => Err(Git(e))
      else Ok(repo)
  }

  /** Only a fast-forward analysis can change the repository. */
  lemma OnlyFastForwardChanges(v: Variant, repo: Repo, fetched: Result<FetchHead, GitError>, analysis: Analysis)
    requires UpdateExisting(v, repo, fetched, analysis).Ok?
    requires UpdateExisting(v, repo, fetched, analysis).value != repo
    ensures fetched.Ok? && fetched.value.Target?
    ensures analysis.fastForward && !analysis.upToDate
    ensures HeadCommit(UpdateExisting(v, repo, fetched, analysis).value) == Some(fetched.value.oid)
  {
    FastForwardReachesFetched(repo, fetched.value.oid);
  }

  /** The repository `RepoBuilder::clone` leaves behind: a local branch for
      the remote's default branch, HEAD on it, its files checked out. */
  function Cloned(remote: Remote): (r: Repo)
    ensures r.refs == map[remote.defaultRef := remote.headOid]
    ensures r.head == OnBranch(remote.defaultRef)
    ensures HeadCommit(r) == Some(remote.headOid) && r.worktree == Some(remote.headOid)
  {
    Repo(map[remote.defaultRef := remote.headOid], OnBranch(remote.defaultRef), Some(remote.headOid))
  }

  /** `repo.branch(name, commit, false)`: creating a branch that exists fails. */
  function CreateBranch(repo: Repo, refName: string, oid: Oid): (r: Result<Repo, GitError>)
    ensures r.Err? <==> refName in repo.refs
    ensures r.Err? ==> r.error == Exists(refName)
    ensures r.Ok? ==> r.value.refs == repo.refs[refName := oid] && r.value.head == repo.head
  {
    if refName in repo.refs then Err(Exists(refName))
    else Ok(repo.(refs := repo.refs[refName := oid]))
  }

  /** `clone_with_progress` as written: after the clone, create `master` at
      the HEAD commit without force and point HEAD at it. */
  function CloneAsWritten(remote: Remote): (r: Result<Repo, GitError>)
    ensures r.Err? <==> remote.defaultRef == MasterRef
    ensures r.Ok? ==>
      (r.value.head == OnBranch(MasterRef) && MasterRef in r.value.refs && r.value.refs[MasterRef] == remote.headOid)
  {
    var repo := Cloned(remote);
    var withMaster :- CreateBranch(repo, MasterRef, remote.headOid);
    Ok(withMaster.(head := OnBranch(MasterRef)))
  }

  /** A remote whose default branch is already `master` makes the clone
      fail, although the files are checked out. */
  lemma CloneOfMasterRemoteFails(oid: Oid)
    ensures CloneAsWritten(Remote(MasterRef, oid)) == Err(Exists(MasterRef))
  {
  }

  /** The clone as intended: `master` ends up at the remote's HEAD commit,
      whether or not the clone already created it. */
  function CloneWithProgress(remote: Remote): (r: Repo)
    ensures r.head == OnBranch(MasterRef) && MasterRef in r.refs
    ensures r.refs[MasterRef] == remote.headOid
    ensures HeadCommit(r) == r.worktree
    ensures remote.defaultRef in r.refs && r.refs[remote.defaultRef] == remote.headOid
  {
    var repo := Cloned(remote);
    var withMaster := if MasterRef in repo.refs then repo else repo.(refs := repo.refs[MasterRef := remote.headOid]);
    withMaster.(head := OnBranch(MasterRef))
  }

  /** Where the as-written clone succeeds, the corrected one gives the same repository. */
  lemma CloneAgreesWhenNoConflict(remote: Remote)
    requires remote.defaultRef != MasterRef
    ensures CloneAsWritten(remote) == Ok(CloneWithProgress(remote))
  {
  }

  /** `update_local_repository` as written: an existing directory is opened,
      fetched and analysed; a missing one is cloned with `clone_with_progress`
      as written, whose error propagates. */
  function UpdateLocalRepository(v: Variant, disk: Disk, fetched: Result<FetchHead, GitError>,
                                 analysis: Analysis, remote: Result<Remote, GitError>): (r: Result<Repo, SyncError>)
    ensures disk.Missing? && remote.Err? ==> r == Err(Git(remote.error))
    ensures disk.Missing? && remote.Ok? ==> (r.Ok? <==> remote.value.defaultRef != MasterRef)
    ensures disk.Missing? && remote.Ok? && r.Err? ==> r.error == Git(Exists(MasterRef))
    ensures disk.Missing? && r.Ok? ==>
      r.value.head == OnBranch(MasterRef) && HeadCommit(r.value) == Some(remote.value.headOid)
    ensures disk.NotARepository? ==> r == Err(Git(NotFound))
    ensures disk.Present? ==> r == UpdateExisting(v, disk.repo, fetched, analysis)
  {
    match disk
    case Missing =>
      (match remote
       case Err(e) => Err(Git(e))
       case Ok(rm) =>
         match CloneAsWritten(rm)
         case Err(e) => Err(Git(e))
         case Ok(repo) => Ok(repo))
    case NotARepository => Err(Git(NotFound))
    case Present(repo) => UpdateExisting(v, repo, fetched, analysis)
  }

  /** `update_local_repository` with the corrected clone: a missing mirror
      is cloned whatever the remote's default branch. */
  function UpdateLocalRepositoryIntended(v: Variant, disk: Disk, fetched: Result<FetchHead, GitError>,
                                         analysis: Analysis, remote: Result<Remote, GitError>): (r: Result<Repo, SyncError>)
    ensures disk.Missing? && remote.Err? ==> r == Err(Git(remote.error))
    ensures disk.Missing? && remote.Ok? ==>
      (r.Ok? && r.value.head == OnBranch(MasterRef) && HeadCommit(r.value) == Some(remote.value.headOid))
    ensures disk.NotARepository? ==> r == Err(Git(NotFound))
    ensures disk.Present? ==> r == UpdateExisting(v, disk.repo, fetched, analysis)
  {
    match disk
    case Missing =>
      (match remote
       case Err(e) => Err(Git(e))
       case Ok(rm) => Ok(CloneWithProgress(rm)))
    case NotARepository => Err(Git(NotFound))
    case Present(repo) => UpdateExisting(v, repo, fetched, analysis)
  }

  /** The two updates differ only where the as-written clone fails: a
      missing mirror of a remote whose default branch is `master`. */
  lemma UpdateAgreesExceptMasterClone(v: Variant, disk: Disk, fetched: Result<FetchHead, GitError>,
                                      analysis: Analysis, remote: Result<Remote, GitError>)
    ensures UpdateLocalRepository(v, disk, fetched, analysis, remote)
         != UpdateLocalRepositoryIntended(v, disk, fetched, analysis, remote)
      <==> disk.Missing? && remote.Ok? && remote.value.defaultRef == MasterRef
  {
    if disk.Missing? && remote.Ok? && remote.value.defaultRef != MasterRef {
      CloneAgreesWhenNoConflict(remote.value);
    }
  }
}
