/** The mirror fetcher (`get`): one file of one commit of one repository,
    asked of five mirrors in a fixed order, with at most three full sweeps. */
module Fetch {
  import opened Common

  type Repo = string
  type Sha = string
  type Path = string
  type Url = string

  /** Every request the program sends, as it appears in the network trace:
      the branch query and the tree query of the hosting API, and a mirror
      download. Each names the repository it is for. */
  datatype Request =
    | Branch(repo: Repo, branch: string)
    | Tree(repo: Repo, sha: Sha)
    | Mirror(repo: Repo, sha: Sha, path: Path, url: Url, sweep: nat)

  /** What a mirror answers: an HTTP status with a body, or a connection
      error (`aiohttp.ClientError`). */
  datatype Response = Answer(status: int, body: Bytes) | ConnectionError

  /** The network, as an oracle: the answer a URL gives during a given sweep
      (numbered from 0), so that a retry may see a different answer. */
  type Responder = (Url, nat) -> Response

  /** The result of a run of requests: the body fetched, if any, and the
      requests sent, in order. */
  datatype Fetched = Fetched(content: Option<Bytes>, trace: seq<Request>)

  const Retries: nat := 3
  const MirrorCount: nat := 5

  predicate Succeeds(r: Response) {
    r.Answer? && r.status == 200
  }

  const GcoreHost := "https://gcore.jsdelivr.net"
  const FastlyHost := "https://fastly.jsdelivr.net"
  const CdnHost := "https://cdn.jsdelivr.net"
  const GhProxyHost := "https://ghproxy.org/"
  const RawHost := "https://raw.githubusercontent.com/"
  const DGithubHost := "https://raw.dgithub.xyz/"

  /** The five mirrors, three jsDelivr hosts first, then two raw-content
      proxies. */
  function MirrorUrls(repo: Repo, sha: Sha, path: Path): (urls: seq<Url>)
    ensures |urls| == MirrorCount
  {
    var tail := sha + "/" + path;
    [ GcoreHost + "/gh/" + repo + "@" + tail,
      FastlyHost + "/gh/" + repo + "@" + tail,
      CdnHost + "/gh/" + repo + "@" + tail,
      GhProxyHost + RawHost + repo + "/" + tail,
      DGithubHost + repo + "/" + tail ]
  }

  /** The five mirror URLs are five different addresses, each ending in the
      commit and the path of the same file. */
  lemma MirrorUrlsDistinct(repo: Repo, sha: Sha, path: Path)
    ensures var urls := MirrorUrls(repo, sha, path);
      && (forall i, j :: 0 <= i < j < |urls| ==> urls[i] != urls[j])
      && (forall i :: 0 <= i < |urls| ==> EndsWith(urls[i], sha + "/" + path))
  {
    var urls := MirrorUrls(repo, sha, path);
    var tail := sha + "/" + path;
    assert HostLetters(urls[0]) == ('g', 'c');
    assert HostLetters(urls[1]) == ('f', 'a');
    assert HostLetters(urls[2]) == ('c', 'd');
    assert HostLetters(urls[3]) == ('g', 'h');
    assert HostLetters(urls[4]) == ('r', 'a');
    EndsWithAppend(GcoreHost + "/gh/" + repo + "@", tail);
    EndsWithAppend(FastlyHost + "/gh/" + repo + "@", tail);
    EndsWithAppend(CdnHost + "/gh/" + repo + "@", tail);
    EndsWithAppend(GhProxyHost + RawHost + repo + "/", tail);
    EndsWithAppend(DGithubHost + repo + "/", tail);
  }

  /** The first two letters of the host of an https URL. */
  function HostLetters(u: Url): (char, char)
    requires |u| >= 10
  {
    (u[8], u[9])
  }

  function Prepend(t: seq<Request>, f: Fetched): Fetched {
    Fetched(f.content, t + f.trace)
  }

  /** The rest of one sweep, from mirror `i` on: stop at the first 200. */
  function SweepFrom(repo: Repo, sha: Sha, path: Path, urls: seq<Url>, respond: Responder,
                     sweep: nat, i: nat): Fetched
    requires i <= |urls|
    decreases |urls| - i
  {
    if i == |urls| then Fetched(None, [])
    else
      var req := Mirror(repo, sha, path, urls[i], sweep);
      var r := respond(urls[i], sweep);
      if Succeeds(r) then Fetched(Some(r.body), [req])
      else Prepend([req], SweepFrom(repo, sha, path, urls, respond, sweep, i + 1))
  }

  /** Sweep number `sweep` and the ones after it while `retries` remain. */
  function SweepsFrom(repo: Repo, sha: Sha, path: Path, urls: seq<Url>, respond: Responder,
                      sweep: nat, retries: nat): Fetched
    decreases retries
  {
    if retries == 0 then Fetched(None, [])
    else AfterSweep(repo, sha, path, urls, respond, sweep, retries,
                    SweepFrom(repo, sha, path, urls, respond, sweep, 0))
  }

  /** What follows a sweep that ended with `s`: done if it found the file,
      otherwise the remaining sweeps. */
  function AfterSweep(repo: Repo, sha: Sha, path: Path, urls: seq<Url>, respond: Responder,
                      sweep: nat, retries: nat, s: Fetched): Fetched
    requires retries > 0
    decreases retries, 0
  {
    if s.content.Some? then s
    else Prepend(s.trace, SweepsFrom(repo, sha, path, urls, respond, sweep + 1, retries - 1))
  }

  /** What `get` does for one file: the specification of method Get. */
  function FetchOutcome(repo: Repo, sha: Sha, path: Path, respond: Responder): Fetched {
    SweepsFrom(repo, sha, path, MirrorUrls(repo, sha, path), respond, 0, Retries)
  }

  /** The request in position `k` of the fixed schedule: mirror `k % 5`
      during sweep `k / 5`. */
  function Slot(repo: Repo, sha: Sha, path: Path, k: nat): Request {
    Mirror(repo, sha, path, MirrorUrls(repo, sha, path)[k % 5], k / 5)
  }

  /** A mirror request that was answered with a 200. */
  predicate Answers(respond: Responder, req: Request) {
    req.Mirror? && Succeeds(respond(req.url, req.sweep))
  }

  /** `get`: sweep the mirrors in order, at most `Retries` times, and return
      the body of the first answer with status 200. A bad status or a
      connection error moves on to the next mirror. */
  method Get(sha: Sha, path: Path, repo: Repo, respond: Responder)
    returns (content: Option<Bytes>, trace: seq<Request>)
    ensures Fetched(content, trace) == FetchOutcome(repo, sha, path, respond)
  {
    var urls := MirrorUrls(repo, sha, path);
    var retries: nat := Retries;
    trace := [];
    ghost var goal := SweepsFrom(repo, sha, path, urls, respond, 0, Retries);
    assert goal == Prepend(trace, goal);
    while retries > 0
      invariant 0 <= retries <= Retries
      invariant goal == Prepend(trace, SweepsFrom(repo, sha, path, urls, respond, Retries - retries, retries))
    {
      var sweep := Retries - retries;
      for i := 0 to |urls|
        invariant goal == Prepend(trace, Pending(repo, sha, path, urls, respond, sweep, retries, i))
      {
        var r := respond(urls[i], sweep);
        var req := Mirror(repo, sha, path, urls[i], sweep);
        GetStep(repo, sha, path, urls, respond, sweep, retries, i, trace, goal);
        trace := trace + [req];
        if r.Answer? && r.status == 200 {
          return Some(r.body), trace;
        }
      }
      SweepDone(repo, sha, path, urls, respond, sweep, retries, trace, goal);
      retries := retries - 1;
    }
    content := None;
  }

  /** What remains of `get` in sweep `sweep` with `retries` sweeps left,
      from mirror `i` on. */
  function Pending(repo: Repo, sha: Sha, path: Path, urls: seq<Url>, respond: Responder,
                   sweep: nat, retries: nat, i: nat): Fetched
    requires i <= |urls| && retries > 0
  {
    AfterSweep(repo, sha, path, urls, respond, sweep, retries, SweepFrom(repo, sha, path, urls, respond, sweep, i))
  }

  lemma GetStep(repo: Repo, sha: Sha, path: Path, urls: seq<Url>, respond: Responder,
                sweep: nat, retries: nat, i: nat, trace: seq<Request>, goal: Fetched)
    requires i < |urls| && retries > 0
    requires goal == Prepend(trace, Pending(repo, sha, path, urls, respond, sweep, retries, i))
    ensures var req := Mirror(repo, sha, path, urls[i], sweep);
      var r := respond(urls[i], sweep);
      if r.Answer? && r.status == 200 then goal == Fetched(Some(r.body), trace + [req])
      else goal == Prepend(trace + [req], Pending(repo, sha, path, urls, respond, sweep, retries, i + 1))
  {
    var req := Mirror(repo, sha, path, urls[i], sweep);
    SweepStep(repo, sha, path, urls, respond, sweep, retries, i);
    PrependTwice(trace, [req], Pending(repo, sha, path, urls, respond, sweep, retries, i + 1));
  }

  lemma SweepDone(repo: Repo, sha: Sha, path: Path, urls: seq<Url>, respond: Responder,
                  sweep: nat, retries: nat, trace: seq<Request>, goal: Fetched)
    requires retries > 0
    requires goal == Prepend(trace, Pending(repo, sha, path, urls, respond, sweep, retries, |urls|))
    ensures goal == Prepend(trace, SweepsFrom(repo, sha, path, urls, respond, sweep + 1, retries - 1))
  {
    var later := SweepsFrom(repo, sha, path, urls, respond, sweep + 1, retries - 1);
    assert [] + later.trace == later.trace;
  }

  lemma PrependTwice(t: seq<Request>, u: seq<Request>, f: Fetched)
    ensures Prepend(t, Prepend(u, f)) == Prepend(t + u, f)
  {
    assert t + (u + f.trace) == (t + u) + f.trace;
  }

  /** One step of the inner loop of `get`: mirror `i` either answers 200 and
      ends the fetch, or is logged and the sweep goes on. */
  lemma SweepStep(repo: Repo, sha: Sha, path: Path, urls: seq<Url>, respond: Responder,
                  sweep: nat, retries: nat, i: nat)
    requires i < |urls| && retries > 0
    ensures var req := Mirror(repo, sha, path, urls[i], sweep);
      var r := respond(urls[i], sweep);
      AfterSweep(repo, sha, path, urls, respond, sweep, retries,
                 SweepFrom(repo, sha, path, urls, respond, sweep, i))
      == if Succeeds(r) then Fetched(Some(r.body), [req])
         else Prepend([req], AfterSweep(repo, sha, path, urls, respond, sweep, retries,
                                        SweepFrom(repo, sha, path, urls, respond, sweep, i + 1)))
  {
    var rest := SweepFrom(repo, sha, path, urls, respond, sweep, i + 1);
    if !Succeeds(respond(urls[i], sweep)) && rest.content.None? {
      var later := SweepsFrom(repo, sha, path, urls, respond, sweep + 1, retries - 1);
      PrependTwice([Mirror(repo, sha, path, urls[i], sweep)], rest.trace, later);
    }
  }

  /** One sweep from mirror `i`: the requests go to mirrors i, i+1, ... in
      order; every request but the last one failed; it ends early only on a
      200, whose body it returns. */
  lemma {:induction false} SweepShape(repo: Repo, sha: Sha, path: Path, urls: seq<Url>,
                                      respond: Responder, sweep: nat, i: nat)
    requires i <= |urls|
    ensures var s := SweepFrom(repo, sha, path, urls, respond, sweep, i);
      && |s.trace| <= |urls| - i
      && (forall k :: 0 <= k < |s.trace| ==> s.trace[k] == Mirror(repo, sha, path, urls[i + k], sweep))
      && (forall k :: 0 <= k < |s.trace| - 1 ==> !Answers(respond, s.trace[k]))
      && (s.content.None? ==> |s.trace| == |urls| - i)
      && (s.content.None? ==> forall k :: 0 <= k < |s.trace| ==> !Answers(respond, s.trace[k]))
      && (s.content.Some? ==>
            |s.trace| > 0 && respond(urls[i + |s.trace| - 1], sweep) == Answer(200, s.content.value))
    decreases |urls| - i
  {
    if i < |urls| && !Succeeds(respond(urls[i], sweep)) {
      SweepShape(repo, sha, path, urls, respond, sweep, i + 1);
    }
  }

  /** The remaining sweeps from sweep `sweep` on: request k goes to mirror
      k % 5 in sweep `sweep + k / 5`, and there are at most five per sweep. */
  lemma {:induction false} SweepsOrder(repo: Repo, sha: Sha, path: Path, urls: seq<Url>,
                                       respond: Responder, sweep: nat, retries: nat)
    requires |urls| == MirrorCount
    ensures var f := SweepsFrom(repo, sha, path, urls, respond, sweep, retries);
      && |f.trace| <= retries * 5
      && (f.content.None? ==> |f.trace| == retries * 5)
      && (forall k :: 0 <= k < |f.trace| ==>
            f.trace[k] == Mirror(repo, sha, path, urls[k % 5], sweep + k / 5))
    decreases retries
  {
    if retries > 0 {
      var s := SweepFrom(repo, sha, path, urls, respond, sweep, 0);
      var f := SweepsFrom(repo, sha, path, urls, respond, sweep, retries);
      SweepShape(repo, sha, path, urls, respond, sweep, 0);
      SweepsUnfold(repo, sha, path, urls, respond, sweep, retries);
      if s.content.Some? {
        forall k | 0 <= k < |f.trace|
          ensures f.trace[k] == Mirror(repo, sha, path, urls[k % 5], sweep + k / 5)
        {
          assert k < MirrorCount;
          FirstSweep(k);
        }
      } else {
        var rest := SweepsFrom(repo, sha, path, urls, respond, sweep + 1, retries - 1);
        SweepsOrder(repo, sha, path, urls, respond, sweep + 1, retries - 1);
        assert |s.trace| == MirrorCount;
        forall k | 0 <= k < |f.trace|
          ensures f.trace[k] == Mirror(repo, sha, path, urls[k % 5], sweep + k / 5)
        {
          if k < MirrorCount {
            FirstSweep(k);
            assert f.trace[k] == s.trace[k];
          } else {
            NextSweep(k);
            assert f.trace[k] == rest.trace[k - MirrorCount];
          }
        }
      }
    }
  }

  /** The remaining sweeps: every request but the last failed, and the last
      one answered 200 with the body returned, if a body is returned; if none
      is, every request failed. */
  lemma {:induction false} SweepsAnswers(repo: Repo, sha: Sha, path: Path, urls: seq<Url>,
                                         respond: Responder, sweep: nat, retries: nat)
    requires |urls| == MirrorCount
    ensures var f := SweepsFrom(repo, sha, path, urls, respond, sweep, retries);
      && (forall k :: 0 <= k < |f.trace| - 1 ==> !Answers(respond, f.trace[k]))
      && (f.content.None? ==> forall k :: 0 <= k < |f.trace| ==> !Answers(respond, f.trace[k]))
      && (f.content.Some? ==>
            |f.trace| > 0 && f.trace[|f.trace| - 1].Mirror? && respond(f.trace[|f.trace| - 1].url, f.trace[|f.trace| - 1].sweep) == Answer(200, f.content.value))
    decreases retries
  {
    if retries > 0 {
      var s := SweepFrom(repo, sha, path, urls, respond, sweep, 0);
      var f := SweepsFrom(repo, sha, path, urls, respond, sweep, retries);
      SweepShape(repo, sha, path, urls, respond, sweep, 0);
      SweepsUnfold(repo, sha, path, urls, respond, sweep, retries);
      if s.content.None? {
        var rest := SweepsFrom(repo, sha, path, urls, respond, sweep + 1, retries - 1);
        SweepsAnswers(repo, sha, path, urls, respond, sweep + 1, retries - 1);
        forall k | 0 <= k < |f.trace| && (f.content.None? || k < |f.trace| - 1)
          ensures !Answers(respond, f.trace[k])
        {
          if k < |s.trace| {
            assert f.trace[k] == s.trace[k];
          } else {
            assert f.trace[k] == rest.trace[k - |s.trace|];
          }
        }
        if f.content.Some? {
          assert f.trace[|f.trace| - 1] == rest.trace[|rest.trace| - 1];
        }
      }
    }
  }

  /** A first sweep that found the file ends the fetch; one that did not is
      followed by the remaining sweeps. */
  lemma SweepsUnfold(repo: Repo, sha: Sha, path: Path, urls: seq<Url>, respond: Responder,
                     sweep: nat, retries: nat)
    requires retries > 0
    ensures var s := SweepFrom(repo, sha, path, urls, respond, sweep, 0);
      var f := SweepsFrom(repo, sha, path, urls, respond, sweep, retries);
      var rest := SweepsFrom(repo, sha, path, urls, respond, sweep + 1, retries - 1);
      if s.content.Some? then f == s
      else f.trace == s.trace + rest.trace && f.content == rest.content
  {
  }

  lemma FirstSweep(k: nat)
    requires k < MirrorCount
    ensures k % 5 == k && k / 5 == 0
  {
  }

  lemma NextSweep(k: nat)
    requires k >= MirrorCount
    ensures (k - 5) % 5 == k % 5
    ensures (k - 5) / 5 + 1 == k / 5
  {
  }

  /** `get` in full: the requests follow the fixed schedule (mirror order
      within a sweep, sweeps one after another), there are at most 3 × 5 of
      them, every one that is not the last failed, and the result is the body
      of the last request exactly when that request answered 200 — so no
      result means all fifteen requests were sent and all failed. */
  lemma FetchSchedule(repo: Repo, sha: Sha, path: Path, respond: Responder)
    ensures var f := FetchOutcome(repo, sha, path, respond);
      && 1 <= |f.trace| <= Retries * 5
      && (forall k :: 0 <= k < |f.trace| ==> f.trace[k] == Slot(repo, sha, path, k))
      && (forall k :: 0 <= k < |f.trace| - 1 ==> !Answers(respond, f.trace[k]))
      && (f.content.Some? <==> Answers(respond, f.trace[|f.trace| - 1]))
      && (f.content.Some? ==> respond(f.trace[|f.trace| - 1].url, f.trace[|f.trace| - 1].sweep)
                              == Answer(200, f.content.value))
      && (f.content.None? ==> |f.trace| == Retries * 5)
  {
    SweepsOrder(repo, sha, path, MirrorUrls(repo, sha, path), respond, 0, Retries);
    SweepsAnswers(repo, sha, path, MirrorUrls(repo, sha, path), respond, 0, Retries);
  }

  /** The first slot of the schedule that answers 200 wins: if slot `k`
      answers 200, `get` returns a body, and it is the body of the first
      slot, at or before `k`, that answers 200. */
  lemma FirstSuccessWins(repo: Repo, sha: Sha, path: Path, respond: Responder, k: nat)
    requires k < Retries * 5
    requires Answers(respond, Slot(repo, sha, path, k))
    ensures var f := FetchOutcome(repo, sha, path, respond);
      && f.content.Some?
      && |f.trace| <= k + 1
      && (forall j :: 0 <= j < |f.trace| - 1 ==> !Answers(respond, Slot(repo, sha, path, j)))
      && var last := Slot(repo, sha, path, |f.trace| - 1);
         respond(last.url, last.sweep) == Answer(200, f.content.value)
  {
    FetchSchedule(repo, sha, path, respond);
  }
}
