/** The repository walk (`download_and_process`): normalise the app id, then
    try the repositories in priority order, and stop at the first one whose
    key files give any depot. */
module Walk {
  import opened Common
  import opened Fetch
  import opened KeyFile
  import opened Artifacts

  /** The repositories, highest priority first. */
  const Repos: seq<Repo> := [
    "ManifestHub/ManifestHub",
    "ikun0014/ManifestHub",
    "Auiowu/ManifestAutoUpdate",
    "tymolu233/ManifestAutoUpdate"
  ]

  /** A branch head: its commit and the paths of its (depth-1) tree. */
  datatype Commit = Commit(sha: Sha, tree: seq<Path>)

  /** The hosting API as an oracle: the head of branch `b` of repository
      `r`, or nothing when the answer has no `commit`. */
  type Branches = (Repo, string) -> Option<Commit>

  /** Everything outside the program: the hosting API, the mirrors and the
      VDF parser. */
  datatype World = World(branches: Branches, respond: Responder, parse: Parser)

  /** The result of a walk that did not raise. */
  datatype Found = Found(depots: seq<Depot>, saveDir: string)

  /** What the whole of `download_and_process` did. */
  datatype Outcome = Outcome(result: Result<Found>, disk: Disk, trace: seq<Request>)

  // ---------------------------------------------------------------------
  // App id and save directory

  /** The first decimal string among `parts`. */
  function FirstDecimal(parts: seq<string>): (r: Option<string>)
    ensures r.None? <==> forall i :: 0 <= i < |parts| ==> !IsDecimal(parts[i])
    ensures r.Some? ==> exists i :: 0 <= i < |parts| && parts[i] == r.value && IsDecimal(r.value)
                                   && forall j :: 0 <= j < i ==> !IsDecimal(parts[j])
  {
    if parts == [] then None
    else if IsDecimal(parts[0]) then Some(parts[0])
    else
      var r := FirstDecimal(parts[1..]);
      assert r.Some? ==> exists i :: 1 <= i < |parts| && parts[i] == r.value && IsDecimal(r.value)
                                    && forall j :: 0 <= j < i ==> !IsDecimal(parts[j]) by {
        if r.Some? {
          var i :| 0 <= i < |parts| - 1 && parts[1..][i] == r.value && IsDecimal(r.value)
                   && forall j :: 0 <= j < i ==> !IsDecimal(parts[1..][j]);
          assert parts[i + 1] == r.value;
          forall j | 0 <= j < i + 1 ensures !IsDecimal(parts[j]) {
            if j > 0 { assert parts[j] == parts[1..][j - 1]; }
          }
        }
      }
      r
  }

  /** `list(filter(str.isdecimal, app_id.strip().split('-')))[0]`; nothing
      stands for the IndexError raised when no segment is decimal. */
  function NormaliseAppId(input: string): (r: Option<string>)
    ensures var parts := Split(Strip(input), '-');
      && (r.None? ==> forall k :: 0 <= k < |parts| ==> !IsDecimal(parts[k]))
      && (r.Some? ==> IsDecimal(r.value) && r.value in parts)
  {
    var parts := Split(Strip(input), '-');
    var r := FirstDecimal(parts);
    assert r.Some? ==> r.value in parts;
    r
  }

  /** The working directory `[{app_id}]{game}`. */
  function SaveDir(appId: string, game: string): (dir: string)
    ensures StartsWith(dir, "[" + appId + "]") && EndsWith(dir, game)
  {
    StartsWithAppend("[" + appId + "]", game);
    EndsWithAppend("[" + appId + "]", game);
    "[" + appId + "]" + game
  }

  // ---------------------------------------------------------------------
  // Specification of the walk

  function PrependStep(t: seq<Request>, s: Step): Step {
    Step(s.result, s.disk, t + s.trace)
  }

  /** `ds` and the requests `t`, followed by step `s`. */
  function Combine(ds: seq<Depot>, t: seq<Request>, s: Step): Step {
    Step(Then(ds, s.result), s.disk, t + s.trace)
  }

  /** The key-file loop: try each name in turn, stop at the first that gives
      depots (or raises). */
  function KeyStage(w: World, repo: Repo, sha: Sha, keys: seq<Path>, saveDir: string, disk: Disk): Step
    decreases |keys|
  {
    if keys == [] then Step(Ok([]), disk, [])
    else
      var s := ManifestStep(w.respond, w.parse, sha, keys[0], saveDir, repo, disk);
      if s.result.Err? || s.result.value != [] then s
      else PrependStep(s.trace, KeyStage(w, repo, sha, keys[1..], saveDir, s.disk))
  }

  /** The tree loop: every `.manifest` entry goes through `get_manifest`. */
  function TreeStage(w: World, repo: Repo, sha: Sha, tree: seq<Path>, saveDir: string, disk: Disk): Step
    decreases |tree|
  {
    if tree == [] then Step(Ok([]), disk, [])
    else if !IsManifest(tree[0]) then TreeStage(w, repo, sha, tree[1..], saveDir, disk)
    else
      var s := ManifestStep(w.respond, w.parse, sha, tree[0], saveDir, repo, disk);
      if s.result.Err? then s
      else Combine(s.result.value, s.trace, TreeStage(w, repo, sha, tree[1..], saveDir, s.disk))
  }

  /** A commit of a repository: the key files, then (unless they raised) the
      manifests of its tree. */
  function CommitStep(w: World, repo: Repo, c: Commit, saveDir: string, disk: Disk): Step {
    var k := KeyStage(w, repo, c.sha, KeyFileNames, saveDir, disk);
    if k.result.Err? then k
    else Combine(k.result.value, k.trace, TreeStage(w, repo, c.sha, c.tree, saveDir, k.disk))
  }

  /** One repository: the branch query, then, if the branch exists, the tree
      query and its commit. */
  function RepoStep(w: World, appId: string, saveDir: string, repo: Repo, disk: Disk): Step {
    match w.branches(repo, appId)
    case None => Step(Ok([]), disk, [Branch(repo, appId)])
    case Some(c) => PrependStep([Branch(repo, appId), Tree(repo, c.sha)], CommitStep(w, repo, c, saveDir, disk))
  }

  /** What is done for one repository, given the disk. */
  type RepoRunner = (Repo, Disk) -> Step

  /** `RepoStep` for the walk of app id `appId` into `saveDir`. */
  function Runner(w: World, appId: string, saveDir: string): RepoRunner {
    (repo, disk) => RepoStep(w, appId, saveDir, repo, disk)
  }

  /** The repositories in order, up to the first that gives depots or raises. */
  function WalkFrom(step: RepoRunner, repos: seq<Repo>, disk: Disk): Step
    decreases |repos|
  {
    if repos == [] then Step(Ok([]), disk, [])
    else
      var s := step(repos[0], disk);
      if s.result.Err? || s.result.value != [] then s
      else PrependStep(s.trace, WalkFrom(step, repos[1..], s.disk))
  }

  /** What `download_and_process` does: the specification of method
      DownloadAndProcess. */
  function Process(w: World, input: string, game: string, disk: Disk): Outcome {
    match NormaliseAppId(input)
    case None => Outcome(Err(NoDecimalSegment), disk, [])
    case Some(appId) =>
      var saveDir := SaveDir(appId, game);
      var s := WalkFrom(Runner(w, appId, saveDir), Repos, disk);
      Outcome(if s.result.Ok? then Ok(Found(s.result.value, saveDir)) else Err(s.result.fault),
              s.disk, s.trace)
  }

  // ---------------------------------------------------------------------
  // The program

  /** The loop `for key in ['Key.vdf', 'config.vdf']` with its `break`. */
  method FetchKeyFiles(w: World, repo: Repo, sha: Sha, saveDir: string, disk: Disk)
    returns (result: Result<seq<Depot>>, disk': Disk, trace: seq<Request>)
    ensures Step(result, disk', trace) == KeyStage(w, repo, sha, KeyFileNames, saveDir, disk)
  {
    var depots: seq<Depot> := [];
    disk', trace := disk, [];
    ghost var goal := KeyStage(w, repo, sha, KeyFileNames, saveDir, disk);
    assert goal == PrependStep(trace, goal);
    assert KeyFileNames[0..] == KeyFileNames;
    for i := 0 to |KeyFileNames|
      invariant depots == []
      invariant goal == PrependStep(trace, KeyStage(w, repo, sha, KeyFileNames[i..], saveDir, disk'))
    {
      var res, d, t := GetManifest(sha, KeyFileNames[i], saveDir, repo, w.respond, w.parse, disk');
      assert KeyFileNames[i..][0] == KeyFileNames[i] && KeyFileNames[i..][1..] == KeyFileNames[i + 1..];
      if res.Err? {
        return res, d, trace + t;
      }
      PrependStepTwice(trace, t, KeyStage(w, repo, sha, KeyFileNames[i + 1..], saveDir, d));
      disk', trace := d, trace + t;
      if res.value != [] {
        depots := depots + res.value;
        assert depots == res.value;
        break;
      }
    }
    assert trace + [] == trace;
    result := Ok(depots);
  }

  /** One turn of the repository loop: a repository that gives depots or
      raises ends the walk, any other hands on to the next. */
  lemma WalkStep(step: RepoRunner, repos: seq<Repo>, i: nat, disk: Disk, trace: seq<Request>, goal: Step)
    requires i < |repos|
    requires goal == PrependStep(trace, WalkFrom(step, repos[i..], disk))
    ensures var s := step(repos[i], disk);
      if s.result.Err? || s.result.value != [] then goal == PrependStep(trace, s)
      else goal == PrependStep(trace + s.trace, WalkFrom(step, repos[i + 1..], s.disk))
  {
    assert repos[i..][0] == repos[i] && repos[i..][1..] == repos[i + 1..];
    var s := step(repos[i], disk);
    PrependStepTwice(trace, s.trace, WalkFrom(step, repos[i + 1..], s.disk));
  }

  lemma PrependStepTwice(t: seq<Request>, u: seq<Request>, s: Step)
    ensures PrependStep(t, PrependStep(u, s)) == PrependStep(t + u, s)
  {
    assert t + (u + s.trace) == (t + u) + s.trace;
  }

  lemma CombineTwice(ds: seq<Depot>, t: seq<Request>, es: seq<Depot>, u: seq<Request>, s: Step)
    ensures Combine(ds, t, Combine(es, u, s)) == Combine(ds + es, t + u, s)
  {
    assert t + (u + s.trace) == (t + u) + s.trace;
    if s.result.Ok? { assert ds + (es + s.result.value) == (ds + es) + s.result.value; }
  }

  /** The loop `for item in tree` over the `.manifest` entries. */
  method FetchTreeManifests(w: World, repo: Repo, sha: Sha, tree: seq<Path>, saveDir: string, disk: Disk)
    returns (result: Result<seq<Depot>>, disk': Disk, trace: seq<Request>)
    ensures Step(result, disk', trace) == TreeStage(w, repo, sha, tree, saveDir, disk)
  {
    var depots: seq<Depot> := [];
    disk', trace := disk, [];
    ghost var goal := TreeStage(w, repo, sha, tree, saveDir, disk);
    assert goal == Combine(depots, trace, goal) by {
      if goal.result.Ok? { assert [] + goal.result.value == goal.result.value; }
    }
    assert tree[0..] == tree;
    for i := 0 to |tree|
      invariant goal == Combine(depots, trace, TreeStage(w, repo, sha, tree[i..], saveDir, disk'))
    {
      assert tree[i..][0] == tree[i] && tree[i..][1..] == tree[i + 1..];
      if EndsWith(tree[i], ManifestSuffix) {
        var res, d, t := GetManifest(sha, tree[i], saveDir, repo, w.respond, w.parse, disk');
        if res.Err? {
          return res, d, trace + t;
        }
        CombineTwice(depots, trace, res.value, t, TreeStage(w, repo, sha, tree[i + 1..], saveDir, d));
        depots, disk', trace := depots + res.value, d, trace + t;
      }
    }
    assert depots + [] == depots && trace + [] == trace;
    result := Ok(depots);
  }

  /** The key files and then the tree entries of a commit. */
  method ProcessCommit(w: World, repo: Repo, c: Commit, saveDir: string, disk: Disk)
    returns (result: Result<seq<Depot>>, disk': Disk, trace: seq<Request>)
    ensures Step(result, disk', trace) == CommitStep(w, repo, c, saveDir, disk)
  {
    var keys, d1, t1 := FetchKeyFiles(w, repo, c.sha, saveDir, disk);
    if keys.Err? {
      return keys, d1, t1;
    }
    var more, d2, t2 := FetchTreeManifests(w, repo, c.sha, c.tree, saveDir, d1);
    result, disk', trace := if more.Ok? then Ok(keys.value + more.value) else more, d2, t1 + t2;
  }

  /** The body of `for repo in repos`: the branch query, and for an existing
      branch the tree query and the commit. */
  method TryRepo(w: World, appId: string, saveDir: string, repo: Repo, disk: Disk)
    returns (result: Result<seq<Depot>>, disk': Disk, trace: seq<Request>)
    ensures Step(result, disk', trace) == RepoStep(w, appId, saveDir, repo, disk)
  {
    trace := [Branch(repo, appId)];
    var data := w.branches(repo, appId);
    if data.None? {
      return Ok([]), disk, trace;
    }
    trace := trace + [Tree(repo, data.value.sha)];
    var t;
    result, disk', t := ProcessCommit(w, repo, data.value, saveDir, disk);
    trace := trace + t;
  }

  /** The loop `for repo in repos` of `download_and_process`. */
  method WalkRepos(w: World, appId: string, saveDir: string, disk: Disk)
    returns (result: Result<seq<Depot>>, disk': Disk, trace: seq<Request>)
    ensures Step(result, disk', trace) == WalkFrom(Runner(w, appId, saveDir), Repos, disk)
  {
    disk', trace := disk, [];
    var run := Runner(w, appId, saveDir);
    ghost var goal := WalkFrom(run, Repos, disk);
    assert goal == PrependStep(trace, goal);
    assert Repos[0..] == Repos;
    for i := 0 to |Repos|
      invariant goal == PrependStep(trace, WalkFrom(run, Repos[i..], disk'))
    {
      var res, d, t := TryRepo(w, appId, saveDir, Repos[i], disk');
      WalkStep(run, Repos, i, disk', trace, goal);
      if res.Err? || res.value != [] {
        return res, d, trace + t;
      }
      disk', trace := d, trace + t;
    }
    assert trace + [] == trace;
    result := Ok([]);
  }

  /** `download_and_process`: normalise the app id, then walk the
      repositories in order; the first that yields depots ends the walk. */
  method DownloadAndProcess(w: World, input: string, game: string, disk: Disk)
    returns (result: Result<Found>, disk': Disk, trace: seq<Request>)
    ensures Outcome(result, disk', trace) == Process(w, input, game, disk)
  {
    var appId := NormaliseAppId(input);
    if appId.None? {
      return Err(NoDecimalSegment), disk, [];
    }
    var saveDir := SaveDir(appId.value, game);
    var depots;
    depots, disk', trace := WalkRepos(w, appId.value, saveDir, disk);
    if depots.Err? {
      return Err(depots.fault), disk', trace;
    }
    result := Ok(Found(depots.value, saveDir));
  }

  // ---------------------------------------------------------------------
  // What the walk does, repository by repository

  /** What one key file of a commit yields, whatever the disk holds. */
  function KeyOutcome(w: World, repo: Repo, sha: Sha, path: Path): Result<seq<Depot>> {
    KeyFileDepots(path, FetchOutcome(repo, sha, path, w.respond).content, w.parse)
  }

  /** The depots a repository contributes: none without the branch; else
      those of `Key.vdf` (or its fault), and those of `config.vdf` only when
      `Key.vdf` gave none. Never the union of the two. */
  function RepoYield(w: World, appId: string, repo: Repo): Result<seq<Depot>> {
    match w.branches(repo, appId)
    case None => Ok([])
    case Some(c) =>
      var first := KeyOutcome(w, repo, c.sha, "Key.vdf");
      if first != Ok([]) then first else KeyOutcome(w, repo, c.sha, "config.vdf")
  }

  /** The requests the walk for `appId` may send, given the disk at its
      start: branch queries for `appId`; a tree query only for an existing
      branch, at its head commit; mirror requests only at that commit, for a
      key file or for a `.manifest` entry of the tree that was not already on
      disk; and `config.vdf` only when `Key.vdf` gave no depots. */
  ghost predicate Licensed(w: World, appId: string, saveDir: string, disk: Disk, req: Request) {
    match req
    case Branch(_, branch) => branch == appId
    case Tree(repo, sha) => w.branches(repo, appId).Some? && sha == w.branches(repo, appId).value.sha
    case Mirror(repo, sha, path, _, _) =>
      match w.branches(repo, appId)
      case None => false
      case Some(c) =>
        && sha == c.sha
        && (IsKeyFile(path) || (path in c.tree && IsManifest(path) && InDir(saveDir, path) !in disk))
        && (path == "config.vdf" ==> KeyOutcome(w, repo, sha, "Key.vdf") == Ok([]))
  }

  /** New files only: manifests inside the save directory. */
  ghost predicate OnlyManifestsAdded(disk: Disk, disk': Disk, saveDir: string) {
    forall p :: p in disk' && p !in disk ==> StartsWith(p, saveDir + "/") && IsManifest(p)
  }

  /** File `p` holding `body` is a `.manifest` entry of `tree` joined to the
      save directory, and `body` is the non-empty content the mirrors gave
      for that entry at commit `sha`. */
  ghost predicate HoldsDownload(w: World, repo: Repo, sha: Sha, tree: seq<Path>, saveDir: string,
                                p: Path, body: Bytes) {
    exists q :: q in tree && IsManifest(q) && p == InDir(saveDir, q)
      && body != [] && FetchOutcome(repo, sha, q, w.respond).content == Some(body)
  }

  /** The same, for the head commit of the branch `appId` of `repo`. */
  ghost predicate Downloaded(w: World, appId: string, saveDir: string, repo: Repo, p: Path, body: Bytes) {
    match w.branches(repo, appId)
    case None => false
    case Some(c) => HoldsDownload(w, repo, c.sha, c.tree, saveDir, p, body)
  }

  /** Every file added between `disk` and `disk'` is a download of one of
      the repositories `repos`. */
  ghost predicate AddedFrom(w: World, appId: string, saveDir: string, repos: seq<Repo>, disk: Disk, disk': Disk) {
    forall p :: p in disk' && p !in disk ==>
      exists repo :: repo in repos && Downloaded(w, appId, saveDir, repo, p, disk'[p])
  }

  /** Additions by one repository, then by later ones, are additions by
      all of them. */
  lemma AddedFromThen(w: World, appId: string, saveDir: string, first: seq<Repo>, later: seq<Repo>,
                      disk: Disk, mid: Disk, disk': Disk)
    requires Keeps(mid, disk')
    requires AddedFrom(w, appId, saveDir, first, disk, mid)
    requires AddedFrom(w, appId, saveDir, later, mid, disk')
    ensures AddedFrom(w, appId, saveDir, first + later, disk, disk')
  {
    forall p | p in disk' && p !in disk
      ensures exists repo :: repo in first + later && Downloaded(w, appId, saveDir, repo, p, disk'[p])
    {
      if p in mid {
        var repo :| repo in first && Downloaded(w, appId, saveDir, repo, p, mid[p]);
        assert repo in first + later && disk'[p] == mid[p];
      } else {
        var repo :| repo in later && Downloaded(w, appId, saveDir, repo, p, disk'[p]);
        assert repo in first + later;
      }
    }
  }

  /** The key-file loop: `Key.vdf` first; `config.vdf` is requested only
      when `Key.vdf` gave no depots, and the result is the one file's. Key
      files never touch the disk. */
  lemma KeyStageSpec(w: World, repo: Repo, sha: Sha, saveDir: string, disk: Disk)
    ensures var k := KeyStage(w, repo, sha, KeyFileNames, saveDir, disk);
      var first := KeyOutcome(w, repo, sha, "Key.vdf");
      && k.disk == disk
      && k.result == (if first != Ok([]) then first else KeyOutcome(w, repo, sha, "config.vdf"))
      && k.trace == FetchOutcome(repo, sha, "Key.vdf", w.respond).trace
                    + (if first == Ok([]) then FetchOutcome(repo, sha, "config.vdf", w.respond).trace else [])
  {
    assert "config.vdf"[1..] != ManifestSuffix;
    assert KeyFileNames[1..] == ["config.vdf"] && KeyFileNames[1..][1..] == [];
    var t := FetchOutcome(repo, sha, "Key.vdf", w.respond).trace;
    assert t + [] == t;
    var u := FetchOutcome(repo, sha, "config.vdf", w.respond).trace;
    assert u + [] == u;
  }

  /** The key-file loop asks the mirrors for the key files of this commit
      only, and for `config.vdf` only after `Key.vdf` gave no depots. */
  lemma KeyStageRequests(w: World, repo: Repo, sha: Sha, saveDir: string, disk: Disk)
    ensures forall req :: req in KeyStage(w, repo, sha, KeyFileNames, saveDir, disk).trace ==>
      && req.Mirror? && req.repo == repo && req.sha == sha && IsKeyFile(req.path)
      && (req.path == "config.vdf" ==> KeyOutcome(w, repo, sha, "Key.vdf") == Ok([]))
  {
    KeyStageSpec(w, repo, sha, saveDir, disk);
    var keyTrace := FetchOutcome(repo, sha, "Key.vdf", w.respond).trace;
    var cfgTrace := FetchOutcome(repo, sha, "config.vdf", w.respond).trace;
    FetchSchedule(repo, sha, "Key.vdf", w.respond);
    FetchSchedule(repo, sha, "config.vdf", w.respond);
    forall req | req in KeyStage(w, repo, sha, KeyFileNames, saveDir, disk).trace
      ensures req.Mirror? && req.repo == repo && req.sha == sha && IsKeyFile(req.path)
      ensures req.path == "config.vdf" ==> KeyOutcome(w, repo, sha, "Key.vdf") == Ok([])
    {
      if req in keyTrace {
        var i :| 0 <= i < |keyTrace| && keyTrace[i] == req;
      } else {
        assert req in cfgTrace && KeyOutcome(w, repo, sha, "Key.vdf") == Ok([]);
        var i :| 0 <= i < |cfgTrace| && cfgTrace[i] == req;
      }
    }
  }

  /** The tree loop yields no depots; it only adds manifests inside the save
      directory, each a `.manifest` entry of this tree holding the non-empty
      body downloaded for it; it overwrites nothing, and requests only
      `.manifest` entries of this tree, at this commit, that were not on
      disk. */
  lemma {:induction false} TreeStageSpec(w: World, repo: Repo, sha: Sha, tree: seq<Path>,
                                         saveDir: string, disk: Disk)
    ensures var m := TreeStage(w, repo, sha, tree, saveDir, disk);
      && m.result == Ok([])
      && Keeps(disk, m.disk)
      && OnlyManifestsAdded(disk, m.disk, saveDir)
      && (forall p :: p in m.disk && p !in disk ==> HoldsDownload(w, repo, sha, tree, saveDir, p, m.disk[p]))
      && forall req :: req in m.trace ==>
           && req.Mirror? && req.repo == repo && req.sha == sha
           && req.path in tree && IsManifest(req.path) && InDir(saveDir, req.path) !in disk
    decreases |tree|
  {
    if tree != [] {
      var rest := tree[1..];
      assert forall p :: p in rest ==> p in tree;
      if !IsManifest(tree[0]) {
        TreeStageSpec(w, repo, sha, rest, saveDir, disk);
      } else {
        var s := ManifestStep(w.respond, w.parse, sha, tree[0], saveDir, repo, disk);
        ManifestStepEffects(w.respond, w.parse, sha, tree[0], saveDir, repo, disk);
        TreeStageSpec(w, repo, sha, rest, saveDir, s.disk);
        var m := TreeStage(w, repo, sha, rest, saveDir, s.disk);
        var none: seq<Depot> := [];
        assert none + none == none;
        forall p | p in m.disk && p !in disk
          ensures StartsWith(p, saveDir + "/") && IsManifest(p)
        {
          if p in s.disk {
            assert p == InDir(saveDir, tree[0]);
          }
        }
      }
    }
    TreeStageDownloads(w, repo, sha, tree, saveDir, disk);
  }

  /** Every file the tree loop adds is a `.manifest` entry of the tree,
      joined to the save directory, holding the non-empty body downloaded
      for it at this commit; nothing on disk is changed. */
  lemma {:induction false} TreeStageDownloads(w: World, repo: Repo, sha: Sha, tree: seq<Path>,
                                              saveDir: string, disk: Disk)
    ensures var m := TreeStage(w, repo, sha, tree, saveDir, disk);
      && Keeps(disk, m.disk)
      && forall p :: p in m.disk && p !in disk ==> HoldsDownload(w, repo, sha, tree, saveDir, p, m.disk[p])
    decreases |tree|
  {
    if tree != [] {
      var rest := tree[1..];
      assert forall q :: q in rest ==> q in tree;
      if !IsManifest(tree[0]) {
        TreeStageDownloads(w, repo, sha, rest, saveDir, disk);
      } else {
        var s := ManifestStep(w.respond, w.parse, sha, tree[0], saveDir, repo, disk);
        ManifestStepEffects(w.respond, w.parse, sha, tree[0], saveDir, repo, disk);
        TreeStageDownloads(w, repo, sha, rest, saveDir, s.disk);
        var m := TreeStage(w, repo, sha, rest, saveDir, s.disk);
        forall p | p in m.disk && p !in disk
          ensures HoldsDownload(w, repo, sha, tree, saveDir, p, m.disk[p])
        {
          if p in s.disk {
            assert p == InDir(saveDir, tree[0]) && m.disk[p] == s.disk[p];
          } else {
            var q :| q in rest && IsManifest(q) && p == InDir(saveDir, q)
              && m.disk[p] != [] && FetchOutcome(repo, sha, q, w.respond).content == Some(m.disk[p]);
          }
        }
      }
    }
  }

  /** The tree loop does its work: every `.manifest` entry of the tree that
      was not on disk is fetched, and when the download gave a non-empty
      body the manifest is in the save directory afterwards, holding that
      body. */
  lemma {:induction false} TreeStageFetches(w: World, repo: Repo, sha: Sha, tree: seq<Path>,
                                            saveDir: string, disk: Disk)
    ensures var m := TreeStage(w, repo, sha, tree, saveDir, disk);
      forall p :: p in tree && IsManifest(p) && InDir(saveDir, p) !in disk ==>
        var f := FetchOutcome(repo, sha, p, w.respond);
        && (forall req :: req in f.trace ==> req in m.trace)
        && (f.content.Some? && f.content.value != [] ==>
              InDir(saveDir, p) in m.disk && m.disk[InDir(saveDir, p)] == f.content.value)
    decreases |tree|
  {
    if tree != [] {
      var rest := tree[1..];
      assert forall p :: p in tree && p != tree[0] ==> p in rest;
      if !IsManifest(tree[0]) {
        TreeStageFetches(w, repo, sha, rest, saveDir, disk);
      } else {
        var s := ManifestStep(w.respond, w.parse, sha, tree[0], saveDir, repo, disk);
        ManifestStepEffects(w.respond, w.parse, sha, tree[0], saveDir, repo, disk);
        ManifestStepFetches(w.respond, w.parse, sha, tree[0], saveDir, repo, disk);
        TreeStageFetches(w, repo, sha, rest, saveDir, s.disk);
        TreeStageSpec(w, repo, sha, rest, saveDir, s.disk);
        var m := TreeStage(w, repo, sha, rest, saveDir, s.disk);
        forall p | p in tree && IsManifest(p) && InDir(saveDir, p) !in disk
          ensures var f := FetchOutcome(repo, sha, p, w.respond);
            && (forall req :: req in f.trace ==> req in s.trace + m.trace)
            && (f.content.Some? && f.content.value != [] ==>
                  InDir(saveDir, p) in m.disk && m.disk[InDir(saveDir, p)] == f.content.value)
        {
          if p != tree[0] && InDir(saveDir, p) in s.disk {
            InDirInjective(saveDir, p, tree[0]);
          }
        }
      }
    }
  }

  /** A repository whose key files raise nothing has every `.manifest` entry
      of its tree that was not on disk fetched, and written with its body
      when that is not empty, whether or not it yields depots. */
  lemma RepoStepFetches(w: World, appId: string, saveDir: string, repo: Repo, disk: Disk)
    requires w.branches(repo, appId).Some?
    requires RepoYield(w, appId, repo).Ok?
    ensures var s := RepoStep(w, appId, saveDir, repo, disk);
      var c := w.branches(repo, appId).value;
      forall p :: p in c.tree && IsManifest(p) && InDir(saveDir, p) !in disk ==>
        var f := FetchOutcome(repo, c.sha, p, w.respond);
        && (forall req :: req in f.trace ==> req in s.trace)
        && (f.content.Some? && f.content.value != [] ==>
              InDir(saveDir, p) in s.disk && s.disk[InDir(saveDir, p)] == f.content.value)
  {
    var c := w.branches(repo, appId).value;
    KeyStageSpec(w, repo, c.sha, saveDir, disk);
    TreeStageFetches(w, repo, c.sha, c.tree, saveDir, disk);
  }

  lemma LicensedShrink(w: World, appId: string, saveDir: string, disk: Disk, disk': Disk, req: Request)
    requires Keeps(disk, disk')
    requires Licensed(w, appId, saveDir, disk', req)
    ensures Licensed(w, appId, saveDir, disk, req)
  {
    if req.Mirror? && req.path !in KeyFileNames {
      assert InDir(saveDir, req.path) !in disk';
    }
  }

  /** One repository: its depots (or fault) are what `RepoYield` says. */
  lemma RepoStepYield(w: World, appId: string, saveDir: string, repo: Repo, disk: Disk)
    ensures RepoStep(w, appId, saveDir, repo, disk).result == RepoYield(w, appId, repo)
  {
    match w.branches(repo, appId)
    case None =>
    case Some(c) =>
      KeyStageSpec(w, repo, c.sha, saveDir, disk);
      var k := KeyStage(w, repo, c.sha, KeyFileNames, saveDir, disk);
      if k.result.Ok? {
        TreeStageSpec(w, repo, c.sha, c.tree, saveDir, disk);
        assert k.result.value + [] == k.result.value;
      }
  }

  /** One repository: without a branch only the branch query is sent and
      the disk is unchanged; the disk only gains manifests inside the save
      directory, each a `.manifest` entry of the branch's tree holding the
      non-empty body downloaded for it at the head commit, and loses or
      changes nothing. */
  lemma RepoStepDisk(w: World, appId: string, saveDir: string, repo: Repo, disk: Disk)
    ensures var s := RepoStep(w, appId, saveDir, repo, disk);
      && Keeps(disk, s.disk)
      && OnlyManifestsAdded(disk, s.disk, saveDir)
      && AddedFrom(w, appId, saveDir, [repo], disk, s.disk)
      && (w.branches(repo, appId).None? ==> s.trace == [Branch(repo, appId)] && s.disk == disk)
  {
    match w.branches(repo, appId)
    case None =>
    case Some(c) =>
      KeyStageSpec(w, repo, c.sha, saveDir, disk);
      var k := KeyStage(w, repo, c.sha, KeyFileNames, saveDir, disk);
      if k.result.Ok? {
        TreeStageSpec(w, repo, c.sha, c.tree, saveDir, disk);
      }
      assert repo in [repo];
  }

  /** One repository: exactly one branch query, sent first. */
  lemma RepoStepQueried(w: World, appId: string, saveDir: string, repo: Repo, disk: Disk)
    ensures var s := RepoStep(w, appId, saveDir, repo, disk);
      && |s.trace| > 0 && s.trace[0] == Branch(repo, appId)
      && Queried(s.trace) == [repo]
  {
    match w.branches(repo, appId)
    case None =>
      assert Queried([Branch(repo, appId)]) == [repo] by {
        assert [Branch(repo, appId)][1..] == [];
      }
    case Some(c) =>
      var head := [Branch(repo, appId), Tree(repo, c.sha)];
      var tail := RepoTail(w, appId, saveDir, repo, disk);
      assert RepoStep(w, appId, saveDir, repo, disk).trace == head + tail by {
        KeyStageSpec(w, repo, c.sha, saveDir, disk);
      }
      QueriedNone(tail);
      QueriedAppend(head, tail);
      assert Queried(head) == [repo] by {
        assert head[1..] == [Tree(repo, c.sha)] && head[1..][1..] == [];
      }
  }

  /** One repository: every request concerns it and is licensed. */
  lemma RepoStepLicensed(w: World, appId: string, saveDir: string, repo: Repo, disk: Disk)
    ensures forall req :: req in RepoStep(w, appId, saveDir, repo, disk).trace ==>
      req.repo == repo && Licensed(w, appId, saveDir, disk, req)
  {
    match w.branches(repo, appId)
    case None =>
    case Some(c) =>
      var head := [Branch(repo, appId), Tree(repo, c.sha)];
      var tail := RepoTail(w, appId, saveDir, repo, disk);
      assert RepoStep(w, appId, saveDir, repo, disk).trace == head + tail by {
        KeyStageSpec(w, repo, c.sha, saveDir, disk);
      }
  }

  /** The requests of a repository after its branch and tree queries. */
  function RepoTail(w: World, appId: string, saveDir: string, repo: Repo, disk: Disk): (tail: seq<Request>)
    requires w.branches(repo, appId).Some?
    ensures forall req :: req in tail ==>
      req.Mirror? && req.repo == repo && Licensed(w, appId, saveDir, disk, req)
  {
    var c := w.branches(repo, appId).value;
    KeyStageRequests(w, repo, c.sha, saveDir, disk);
    var k := KeyStage(w, repo, c.sha, KeyFileNames, saveDir, disk);
    if k.result.Err? then k.trace
    else
      TreeStageSpec(w, repo, c.sha, c.tree, saveDir, disk);
      k.trace + TreeStage(w, repo, c.sha, c.tree, saveDir, k.disk).trace
  }

  /** The repositories whose branch was queried, in the order queried. */
  function Queried(trace: seq<Request>): seq<Repo> {
    if trace == [] then []
    else (if trace[0].Branch? then [trace[0].repo] else []) + Queried(trace[1..])
  }

  lemma {:induction false} QueriedAppend(a: seq<Request>, b: seq<Request>)
    ensures Queried(a + b) == Queried(a) + Queried(b)
  {
    if a == [] {
      assert a + b == b;
    } else {
      assert (a + b)[0] == a[0] && (a + b)[1..] == a[1..] + b;
      QueriedAppend(a[1..], b);
    }
  }

  lemma {:induction false} QueriedNone(t: seq<Request>)
    requires forall req :: req in t ==> req.Mirror?
    ensures Queried(t) == []
  {
    if t != [] {
      assert t[0] in t;
      assert forall req :: req in t[1..] ==> req in t;
      QueriedNone(t[1..]);
    }
  }

  // ---------------------------------------------------------------------
  // The walk as a whole

  /** The facts about one repository that the walk's order depends on. */
  ghost predicate QueriesOnce(step: RepoRunner) {
    forall r, d :: Queried(step(r, d).trace) == [r]
  }

  ghost predicate StaysWithin(step: RepoRunner) {
    forall r, d, req :: req in step(r, d).trace ==> req.repo == r
  }

  ghost predicate Yields(step: RepoRunner, yieldOf: Repo -> Result<seq<Depot>>) {
    forall r, d :: step(r, d).result == yieldOf(r)
  }

  /** Repositories are queried strictly in order, each once, starting with
      the first. */
  lemma {:induction false} WalkOrder(step: RepoRunner, repos: seq<Repo>, disk: Disk)
    requires QueriesOnce(step)
    ensures var q := Queried(WalkFrom(step, repos, disk).trace);
      && |q| <= |repos| && q == repos[..|q|]
      && (repos != [] ==> |q| > 0)
    decreases |repos|
  {
    if repos != [] {
      var r := step(repos[0], disk);
      if r.result.Ok? && r.result.value == [] {
        var rest := WalkFrom(step, repos[1..], r.disk);
        WalkOrder(step, repos[1..], r.disk);
        QueriedAppend(r.trace, rest.trace);
        var q' := Queried(rest.trace);
        assert q' == repos[1..][..|q'|];
        assert [repos[0]] + q' == repos[..|q'| + 1];
      } else {
        assert repos[..1] == [repos[0]];
      }
    }
  }

  /** Every request of the walk concerns a repository whose branch it
      queried. */
  lemma {:induction false} WalkScope(step: RepoRunner, repos: seq<Repo>, disk: Disk)
    requires QueriesOnce(step) && StaysWithin(step)
    ensures var s := WalkFrom(step, repos, disk);
      forall req :: req in s.trace ==> req.repo in Queried(s.trace)
    decreases |repos|
  {
    if repos != [] {
      var r := step(repos[0], disk);
      assert Queried(r.trace) == [repos[0]];
      if r.result.Ok? && r.result.value == [] {
        var rest := WalkFrom(step, repos[1..], r.disk);
        WalkScope(step, repos[1..], r.disk);
        QueriedAppend(r.trace, rest.trace);
        forall req | req in r.trace + rest.trace
          ensures req.repo in Queried(r.trace) + Queried(rest.trace)
        {
          if req in rest.trace {
            assert req.repo in Queried(rest.trace);
          }
        }
      }
    }
  }

  /** Every repository queried before the last one yielded nothing. */
  lemma {:induction false} WalkSkips(step: RepoRunner, yieldOf: Repo -> Result<seq<Depot>>,
                                     repos: seq<Repo>, disk: Disk)
    requires QueriesOnce(step) && Yields(step, yieldOf)
    ensures var n := |Queried(WalkFrom(step, repos, disk).trace)|;
      && n <= |repos|
      && forall j :: 0 <= j < n - 1 ==> yieldOf(repos[j]) == Ok([])
    decreases |repos|
  {
    WalkOrder(step, repos, disk);
    if repos != [] {
      var r := step(repos[0], disk);
      assert Queried(r.trace) == [repos[0]];
      if r.result.Ok? && r.result.value == [] {
        var rest := WalkFrom(step, repos[1..], r.disk);
        WalkSkips(step, yieldOf, repos[1..], r.disk);
        QueriedAppend(r.trace, rest.trace);
        forall j | 0 <= j < |Queried(rest.trace)| ensures yieldOf(repos[j]) == Ok([]) {
          if j > 0 { assert repos[j] == repos[1..][j - 1]; }
        }
      }
    }
  }

  /** The walk stops at the first repository that does not yield an empty
      result: an empty result means every repository was queried and yielded
      nothing; any other result is what the last repository queried
      yielded. */
  lemma {:induction false} WalkPriority(step: RepoRunner, yieldOf: Repo -> Result<seq<Depot>>,
                                        repos: seq<Repo>, disk: Disk)
    requires QueriesOnce(step) && Yields(step, yieldOf)
    ensures var s := WalkFrom(step, repos, disk);
      var n := |Queried(s.trace)|;
      && n <= |repos|
      && (s.result == Ok([]) <==>
            n == |repos| && forall j :: 0 <= j < |repos| ==> yieldOf(repos[j]) == Ok([]))
      && (s.result != Ok([]) ==> 0 < n && s.result == yieldOf(repos[n - 1]))
    decreases |repos|
  {
    WalkOrder(step, repos, disk);
    if repos != [] {
      var r := step(repos[0], disk);
      assert Queried(r.trace) == [repos[0]] && r.result == yieldOf(repos[0]);
      if r.result.Ok? && r.result.value == [] {
        var rest := WalkFrom(step, repos[1..], r.disk);
        WalkPriority(step, yieldOf, repos[1..], r.disk);
        QueriedAppend(r.trace, rest.trace);
        assert forall j :: 1 <= j < |repos| ==> repos[j] == repos[1..][j - 1];
      }
    }
  }

  /** The program's per-repository step queries its repository once, stays
      within it, and yields what the repository yields. */
  lemma RunnerFacts(w: World, appId: string, saveDir: string)
    ensures QueriesOnce(Runner(w, appId, saveDir))
    ensures StaysWithin(Runner(w, appId, saveDir))
    ensures Yields(Runner(w, appId, saveDir), r => RepoYield(w, appId, r))
  {
    forall r, d ensures Queried(RepoStep(w, appId, saveDir, r, d).trace) == [r]
                ensures RepoStep(w, appId, saveDir, r, d).result == RepoYield(w, appId, r)
                ensures forall req :: req in RepoStep(w, appId, saveDir, r, d).trace ==> req.repo == r
    {
      RepoStepQueried(w, appId, saveDir, r, d);
      RepoStepYield(w, appId, saveDir, r, d);
      RepoStepLicensed(w, appId, saveDir, r, d);
    }
  }

  /** The walk only adds manifests inside the save directory, each a
      `.manifest` entry of the tree of a repository it queried, holding the
      non-empty body downloaded for it; it overwrites nothing, and sends only
      licensed requests. */
  lemma {:induction false} WalkEffects(w: World, appId: string, saveDir: string, repos: seq<Repo>, disk: Disk)
    ensures var s := WalkFrom(Runner(w, appId, saveDir), repos, disk);
      && Keeps(disk, s.disk)
      && OnlyManifestsAdded(disk, s.disk, saveDir)
      && AddedFrom(w, appId, saveDir, Queried(s.trace), disk, s.disk)
      && forall req :: req in s.trace ==> Licensed(w, appId, saveDir, disk, req)
    decreases |repos|
  {
    if repos != [] {
      var r := RepoStep(w, appId, saveDir, repos[0], disk);
      RepoStepDisk(w, appId, saveDir, repos[0], disk);
      RepoStepLicensed(w, appId, saveDir, repos[0], disk);
      if r.result.Ok? && r.result.value == [] {
        var rest := WalkFrom(Runner(w, appId, saveDir), repos[1..], r.disk);
        WalkEffects(w, appId, saveDir, repos[1..], r.disk);
        forall req | req in rest.trace ensures Licensed(w, appId, saveDir, disk, req) {
          LicensedShrink(w, appId, saveDir, disk, r.disk, req);
        }
      }
    }
    WalkAdds(w, appId, saveDir, repos, disk);
  }

  /** The walk keeps every file, and each file it adds is a download of a
      repository it queried. */
  lemma {:induction false} WalkAdds(w: World, appId: string, saveDir: string, repos: seq<Repo>, disk: Disk)
    ensures var s := WalkFrom(Runner(w, appId, saveDir), repos, disk);
      && Keeps(disk, s.disk)
      && AddedFrom(w, appId, saveDir, Queried(s.trace), disk, s.disk)
    decreases |repos|
  {
    if repos != [] {
      var r := RepoStep(w, appId, saveDir, repos[0], disk);
      RepoStepDisk(w, appId, saveDir, repos[0], disk);
      RepoStepQueried(w, appId, saveDir, repos[0], disk);
      if r.result.Ok? && r.result.value == [] {
        var rest := WalkFrom(Runner(w, appId, saveDir), repos[1..], r.disk);
        WalkAdds(w, appId, saveDir, repos[1..], r.disk);
        QueriedAppend(r.trace, rest.trace);
        AddedFromThen(w, appId, saveDir, Queried(r.trace), Queried(rest.trace), disk, r.disk, rest.disk);
      }
    }
  }

  lemma ReposDistinct()
    ensures forall i, j :: 0 <= i < j < |Repos| ==> Repos[i] != Repos[j]
  {
    assert Repos[0][0] == 'M' && Repos[1][0] == 'i' && Repos[2][0] == 'A' && Repos[3][0] == 't';
  }

  /** `download_and_process` for an input with a decimal segment: the fixed
      repositories are queried in order up to the first that yields depots
      (or raises), and no later repository is contacted; the result carries
      the save directory `[appid]game`; an empty result means no repository
      yielded depots. */
  lemma ProcessPriority(w: World, input: string, game: string, disk: Disk)
    requires NormaliseAppId(input).Some?
    ensures var appId := NormaliseAppId(input).value;
      var o := Process(w, input, game, disk);
      var q := Queried(o.trace);
      && 1 <= |q| <= |Repos| && q == Repos[..|q|]
      && (forall j :: 0 <= j < |q| - 1 ==> RepoYield(w, appId, Repos[j]) == Ok([]))
      && (o.result.Ok? ==> o.result.value.saveDir == SaveDir(appId, game))
      && (o.result.Ok? && o.result.value.depots == [] <==>
            forall j :: 0 <= j < |Repos| ==> RepoYield(w, appId, Repos[j]) == Ok([]))
      && (o.result.Ok? && o.result.value.depots != [] ==>
            RepoYield(w, appId, Repos[|q| - 1]) == Ok(o.result.value.depots))
      && (o.result.Err? ==> RepoYield(w, appId, Repos[|q| - 1]) == Err(o.result.fault))
      && forall req :: req in o.trace ==> forall j :: |q| <= j < |Repos| ==> req.repo != Repos[j]
  {
    var appId := NormaliseAppId(input).value;
    var run := Runner(w, appId, SaveDir(appId, game));
    RunnerFacts(w, appId, SaveDir(appId, game));
    WalkOrder(run, Repos, disk);
    WalkScope(run, Repos, disk);
    WalkSkips(run, r => RepoYield(w, appId, r), Repos, disk);
    WalkPriority(run, r => RepoYield(w, appId, r), Repos, disk);
    ReposDistinct();
  }

  /** `download_and_process` never overwrites or removes a file, only adds
      manifests inside `[appid]game`, each a `.manifest` entry of the tree
      of a repository it queried, holding the non-empty body downloaded for
      it, and sends only licensed requests; an input without a decimal
      segment raises before any request or write. */
  lemma ProcessEffects(w: World, input: string, game: string, disk: Disk)
    ensures var o := Process(w, input, game, disk);
      && Keeps(disk, o.disk)
      && (NormaliseAppId(input).None? ==>
            o.result == Err(NoDecimalSegment) && o.disk == disk && o.trace == [])
      && (NormaliseAppId(input).Some? ==>
            var appId := NormaliseAppId(input).value;
            && OnlyManifestsAdded(disk, o.disk, SaveDir(appId, game))
            && AddedFrom(w, appId, SaveDir(appId, game), Queried(o.trace), disk, o.disk)
            && forall req :: req in o.trace ==> Licensed(w, appId, SaveDir(appId, game), disk, req))
  {
    if NormaliseAppId(input).Some? {
      var appId := NormaliseAppId(input).value;
      WalkEffects(w, appId, SaveDir(appId, game), Repos, disk);
    }
  }

  // ---------------------------------------------------------------------
  // Properties of the app id and the save directory

  /** A decimal app id is its own normal form; normalising is idempotent. */
  lemma DecimalIsNormal(s: string)
    requires IsDecimal(s)
    ensures NormaliseAppId(s) == Some(s)
  {
    assert !IsSpace(s[0]) && !IsSpace(s[|s| - 1]);
    assert StripLeft(s) == s;
    assert StripRight(s) == s;
    assert '-' !in s;
    SplitJoin([s], '-');
  }

  lemma NormaliseIdempotent(input: string)
    requires NormaliseAppId(input).Some?
    ensures NormaliseAppId(NormaliseAppId(input).value) == NormaliseAppId(input)
  {
    DecimalIsNormal(NormaliseAppId(input).value);
  }

  /** Distinct decimal app ids (or games) give distinct save directories. */
  lemma SaveDirInjective(a: string, g: string, b: string, h: string)
    requires IsDecimal(a) && IsDecimal(b)
    requires SaveDir(a, g) == SaveDir(b, h)
    ensures a == b && g == h
  {
    var s := SaveDir(a, g);
    assert s[1 + |a|] == ']';
    assert SaveDir(b, h)[1 + |b|] == ']';
    assert a == s[1..1 + |a|];
    assert b == SaveDir(b, h)[1..1 + |b|];
    assert g == s[2 + |a|..];
    assert h == SaveDir(b, h)[2 + |b|..];
  }
}
