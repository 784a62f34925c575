/** Per-path handling (`get_manifest`): a `.manifest` path is downloaded into
    the save directory unless it is already there; a key file is downloaded
    and its depots are read; any other path is ignored. */
module Artifacts {
  import opened Common
  import opened Fetch
  import opened KeyFile

  /** The files on disk, by full path, with their contents. */
  type Disk = map<Path, Bytes>

  /** `vdf.loads(content.decode('utf-8'))` as an oracle: the top-level
      entries, or nothing when the bytes are not UTF-8 or not VDF. */
  type Parser = Bytes -> Option<seq<Entry>>

  const ManifestSuffix := ".manifest"
  const KeyFileNames: seq<Path> := ["Key.vdf", "config.vdf"]

  predicate IsManifest(path: Path) {
    EndsWith(path, ManifestSuffix)
  }

  predicate IsKeyFile(path: Path) {
    path in KeyFileNames
  }

  /** `os.path.join(save_dir, path)`. */
  function InDir(dir: string, path: Path): (p: Path)
    ensures StartsWith(p, dir + "/")
    ensures IsManifest(path) ==> IsManifest(p)
  {
    StartsWithAppend(dir + "/", path);
    EndsWithExtend(dir + "/", path, ManifestSuffix);
    dir + "/" + path
  }

  /** Different paths land on different files of the same directory. */
  lemma InDirInjective(dir: string, p: Path, q: Path)
    requires InDir(dir, p) == InDir(dir, q)
    ensures p == q
  {
    assert p == InDir(dir, p)[|dir| + 1..];
    assert q == InDir(dir, q)[|dir| + 1..];
  }

  /** What one call did: its depots or its fault, the disk after it, and the
      requests it sent. */
  datatype Step = Step(result: Result<seq<Depot>>, disk: Disk, trace: seq<Request>)

  /** The depots a downloaded key file contributes: none when nothing (or
      an empty body) was downloaded, else those of its `depots` section. */
  function KeyFileDepots(path: Path, content: Option<Bytes>, parse: Parser): Result<seq<Depot>> {
    if content.None? || content.value == [] then Ok([])
    else
      match parse(content.value)
      case None => Err(Undecodable(path))
      case Some(top) => KeyDepots(top)
  }

  /** What `get_manifest` does: the specification of method GetManifest. */
  function ManifestStep(respond: Responder, parse: Parser, sha: Sha, path: Path, saveDir: string,
                        repo: Repo, disk: Disk): Step
  {
    if IsManifest(path) then
      var target := InDir(saveDir, path);
      if target in disk then Step(Ok([]), disk, [])
      else
        var f := FetchOutcome(repo, sha, path, respond);
        if f.content.Some? && f.content.value != [] then Step(Ok([]), disk[target := f.content.value], f.trace)
        else Step(Ok([]), disk, f.trace)
    else if IsKeyFile(path) then
      var f := FetchOutcome(repo, sha, path, respond);
      Step(KeyFileDepots(path, f.content, parse), disk, f.trace)
    else Step(Ok([]), disk, [])
  }

  method GetManifest(sha: Sha, path: Path, saveDir: string, repo: Repo,
                     respond: Responder, parse: Parser, disk: Disk)
    returns (result: Result<seq<Depot>>, disk': Disk, trace: seq<Request>)
    ensures Step(result, disk', trace) == ManifestStep(respond, parse, sha, path, saveDir, repo, disk)
  {
    result, disk', trace := Ok([]), disk, [];
    if EndsWith(path, ManifestSuffix) {
      var target := InDir(saveDir, path);
      if target in disk {
        return;
      }
      var content;
      content, trace := Get(sha, path, repo, respond);
      if content.Some? && content.value != [] {
        disk' := disk[target := content.value];
      }
    } else if path in KeyFileNames {
      var content;
      content, trace := Get(sha, path, repo, respond);
      if content.Some? && content.value != [] {
        var data := parse(content.value);
        if data.None? {
          result := Err(Undecodable(path));
        } else {
          result := ExtractDepots(data.value);
        }
      }
    }
  }

  /** Every file on the old disk is still there with the same contents. */
  ghost predicate Keeps(disk: Disk, disk': Disk) {
    forall p :: p in disk ==> p in disk' && disk'[p] == disk[p]
  }

  /** What one call of `get_manifest` may do. A manifest path yields no
      depots, and an existing manifest is skipped with no request and no
      write. Nothing on disk is overwritten; the only file that can appear is
      the manifest itself, inside the save directory, written only when the
      download gave a non-empty body, and with that body. Key files never
      touch the disk; any other path does nothing. Every request is a mirror
      request for this very file. */
  lemma ManifestStepEffects(respond: Responder, parse: Parser, sha: Sha, path: Path,
                            saveDir: string, repo: Repo, disk: Disk)
    ensures var s := ManifestStep(respond, parse, sha, path, saveDir, repo, disk);
      && Keeps(disk, s.disk)
      && s.disk.Keys <= disk.Keys + {InDir(saveDir, path)}
      && (IsManifest(path) ==> s.result == Ok([]))
      && (IsManifest(path) && InDir(saveDir, path) in disk ==> s.disk == disk && s.trace == [])
      && (InDir(saveDir, path) in s.disk.Keys - disk.Keys ==>
            && IsManifest(path)
            && FetchOutcome(repo, sha, path, respond).content == Some(s.disk[InDir(saveDir, path)])
            && s.disk[InDir(saveDir, path)] != [])
      && (!IsManifest(path) ==> s.disk == disk)
      && (!IsManifest(path) && !IsKeyFile(path) ==> s == Step(Ok([]), disk, []))
      && (forall req :: req in s.trace ==>
            req.Mirror? && req.repo == repo && req.sha == sha && req.path == path)
  {
    FetchSchedule(repo, sha, path, respond);
  }

  /** What `get_manifest` must do. A `.manifest` path that is not yet in the
      save directory is fetched, and a non-empty body is written there and
      nothing else changes. A key file is fetched and its depots are those
      of the downloaded text. */
  lemma ManifestStepFetches(respond: Responder, parse: Parser, sha: Sha, path: Path,
                            saveDir: string, repo: Repo, disk: Disk)
    ensures var s := ManifestStep(respond, parse, sha, path, saveDir, repo, disk);
      var f := FetchOutcome(repo, sha, path, respond);
      && (IsManifest(path) && InDir(saveDir, path) !in disk ==>
            && s.trace == f.trace
            && s.disk == (if f.content.Some? && f.content.value != [] then disk[InDir(saveDir, path) := f.content.value]
                          else disk))
      && (IsKeyFile(path) ==>
            && s.trace == f.trace
            && s.result == KeyFileDepots(path, f.content, parse))
  {
    assert !EndsWith("Key.vdf", ManifestSuffix) && !EndsWith("config.vdf", ManifestSuffix);
  }
}
