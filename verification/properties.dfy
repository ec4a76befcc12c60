/**
  Properties of the backend across several calls: the registry invariant that
  every recorded path is one the resolver produces for the repository, where a
  mounted digest ends up, what `Check` answers after `Mount`, the independence
  of different mountpoints, and what a run of mount requests from a fresh
  backend can have registered.
 */
module BackendProperties {
  import opened FilePath
  import opened Layer
  import opened Snapshotter

  /** `p` is what the resolver builds for some hash in `repository`. Because
      `filepath.Join` cleans `..` away, this does not keep `p` under
      `/cvmfs/<repository>/.layers` (see `MountDotDotDigest`). */
  ghost predicate IsLayerPathOf(repository: string, p: string)
  {
    exists h :: |h| >= 2 && ':' !in h && p == LayerPath(repository, h)
  }

  /** The backend invariant: a non-empty repository, and a registry holding only
      paths the resolver builds for that repository, so every one is absolute
      and cleaned. */
  ghost predicate Valid(fs: Filesystem)
  {
    && fs.repository != ""
    && forall mp :: mp in fs.mountedLayers ==> IsLayerPathOf(fs.repository, fs.mountedLayers[mp])
  }

  lemma NewFilesystemValid(config: Config)
    ensures Valid(NewFilesystem(config))
  {
  }

  /** Mount keeps the invariant on every path, including the panics. */
  lemma MountPreservesValid(fs: Filesystem, mountpoint: string, labels: map<string, string>,
                            stat: StatResult, mount: MountResult)
    requires Valid(fs)
    ensures Valid(Mount(fs, mountpoint, labels, stat, mount).fs)
  {
    var r := Mount(fs, mountpoint, labels, stat, mount);
    if r.outcome.Ok? {
      var res := Resolve(fs.repository, labels[TargetDigestLabel]);
      assert IsLayerPathOf(fs.repository, res.path) by {
        assert |res.hash| >= 2 && ':' !in res.hash && res.path == LayerPath(fs.repository, res.hash);
      }
      forall mp | mp in r.fs.mountedLayers
        ensures IsLayerPathOf(r.fs.repository, r.fs.mountedLayers[mp])
      {
        if mp != mountpoint {
          assert r.fs.mountedLayers[mp] == fs.mountedLayers[mp];
        }
      }
    }
  }

  /** A digest whose hash is a plain path element, as a hex digest is, is mounted
      from the repository's `.layers` directory, in its fan-out directory. */
  lemma MountPlainDigest(fs: Filesystem, mountpoint: string, labels: map<string, string>,
                         stat: StatResult, mount: MountResult, algorithm: string, hash: string, rest: string)
    requires IsPlainElement(fs.repository) && IsPlainHash(hash)
    requires ':' !in algorithm && ':' !in hash && (rest == "" || rest[0] == ':')
    requires TargetDigestLabel in labels && labels[TargetDigestLabel] == algorithm + ":" + hash + rest
    ensures var r := Mount(fs, mountpoint, labels, stat, mount);
            && (r.outcome.Ok? <==> !stat.NotExist? && mount.MountOk?)
            && (r.outcome.Ok? ==>
                  r.fs.mountedLayers[mountpoint] == "/cvmfs/" + fs.repository + "/.layers/" + hash[..2] + "/" + hash + "/layerfs")
  {
    PlainHashStaysInLayers(fs.repository, algorithm, hash, rest);
  }

  /** A digest whose hash holds `..` elements is mounted from outside the
      repository: `sha256:../..` is mounted from `/layerfs`. */
  lemma MountDotDotDigest(fs: Filesystem, mountpoint: string, labels: map<string, string>)
    requires IsPlainElement(fs.repository)
    requires TargetDigestLabel in labels && labels[TargetDigestLabel] == "sha256:../.."
    ensures var r := Mount(fs, mountpoint, labels, StatOk, MountOk);
            && r.outcome == Ok
            && r.calls == [Stat("/layerfs"), BindMount("/layerfs", mountpoint)]
            && r.fs.mountedLayers[mountpoint] == "/layerfs"
  {
    DotDotHashLeavesRepository(fs.repository);
  }

  /** After a successful mount, checking the same mountpoint stats the mounted path:
      it succeeds while the layer is there, and reports the layer missing once it is gone. */
  lemma MountThenCheck(fs: Filesystem, mountpoint: string, labels: map<string, string>,
                       stat: StatResult, mount: MountResult)
    requires Mount(fs, mountpoint, labels, stat, mount).outcome.Ok?
    ensures var after := Mount(fs, mountpoint, labels, stat, mount).fs;
            var path := Resolve(fs.repository, labels[TargetDigestLabel]).path;
            && Check(after, mountpoint, StatOk).outcome == Ok
            && Check(after, mountpoint, NotExist).outcome == Failed(LayerMissing(path))
            && Check(after, mountpoint, StatOk).calls == [Stat(path)]
  {
  }

  /** Mounting one mountpoint does not change what `Check` answers for any other one. */
  lemma MountLeavesOtherChecks(fs: Filesystem, mountpoint: string, labels: map<string, string>,
                               stat: StatResult, mount: MountResult, other: string, stat': StatResult)
    requires other != mountpoint
    ensures var after := Mount(fs, mountpoint, labels, stat, mount).fs;
            && Check(after, other, stat').outcome == Check(fs, other, stat').outcome
            && Check(after, other, stat').calls == Check(fs, other, stat').calls
  {
    var after := Mount(fs, mountpoint, labels, stat, mount).fs;
    assert other in after.mountedLayers <==> other in fs.mountedLayers;
    if other in fs.mountedLayers {
      assert after.mountedLayers[other] == fs.mountedLayers[other];
    }
  }

  /** Repeating a successful mount with the same arguments leaves the registry as
      the first mount left it: the entry is overwritten with the same path. */
  lemma MountIdempotent(fs: Filesystem, mountpoint: string, labels: map<string, string>,
                        stat: StatResult, mount: MountResult)
    requires Mount(fs, mountpoint, labels, stat, mount).outcome.Ok?
    ensures var once := Mount(fs, mountpoint, labels, stat, mount).fs;
            Mount(once, mountpoint, labels, stat, mount).fs == once
  {
    var once := Mount(fs, mountpoint, labels, stat, mount).fs;
    var twice := Mount(once, mountpoint, labels, stat, mount).fs;
    assert twice.mountedLayers == once.mountedLayers;
  }

  /** Two successful mounts of different mountpoints create two independent records,
      and both pass `Check` while their layers are present. */
  lemma TwoMounts(fs: Filesystem, m1: string, labels1: map<string, string>,
                  m2: string, labels2: map<string, string>)
    requires m1 != m2
    requires Mount(fs, m1, labels1, StatOk, MountOk).outcome.Ok?
    requires Mount(Mount(fs, m1, labels1, StatOk, MountOk).fs, m2, labels2, StatOk, MountOk).outcome.Ok?
    ensures var after := Mount(Mount(fs, m1, labels1, StatOk, MountOk).fs, m2, labels2, StatOk, MountOk).fs;
            && after.mountedLayers[m1] == Resolve(fs.repository, labels1[TargetDigestLabel]).path
            && after.mountedLayers[m2] == Resolve(fs.repository, labels2[TargetDigestLabel]).path
            && Check(after, m1, StatOk).outcome == Ok
            && Check(after, m2, StatOk).outcome == Ok
  {
    var first := Mount(fs, m1, labels1, StatOk, MountOk).fs;
    var after := Mount(first, m2, labels2, StatOk, MountOk).fs;
    assert after.mountedLayers[m1] == first.mountedLayers[m1];
  }

  /** The two check failures that concern the layer read differently, so a caller
      can tell a vanished layer from a stat error. */
  lemma VanishedDiffersFromStatError(path: string, cause: string)
    ensures Message(LayerMissing(path)) != Message(StatFailed(cause))
  {
    assert Message(LayerMissing(path))[0] == 'L';
    assert Message(StatFailed(cause))[0] == 'E';
  }

  /** Two errors of the same kind with the same text are about the same subject:
      the hash, mountpoint, path or cause can be read back from the text. */
  lemma MessageDeterminesSubject(f: Failure, g: Failure)
    requires Message(f) == Message(g)
    requires || (f.LayerNotInRepository? && g.LayerNotInRepository?)
             || (f.NotMounted? && g.NotMounted?)
             || (f.LayerMissing? && g.LayerMissing?)
             || (f.StatFailed? && g.StatFailed?)
             || (f.BindMountFailed? && g.BindMountFailed?)
    ensures f == g
  {
  }

  /** One call of `Mount` as the snapshot engine issues it, with the system's answers. */
  datatype MountRequest =
    MountRequest(mountpoint: string, labels: map<string, string>, stat: StatResult, mount: MountResult)

  /** Serves the requests in order. A panic ends the process, so nothing after it is served. */
  function Replay(fs: Filesystem, requests: seq<MountRequest>): Filesystem
    decreases |requests|
  {
    if |requests| == 0 then fs
    else
      var q := requests[0];
      var step := Mount(fs, q.mountpoint, q.labels, q.stat, q.mount);
      if step.outcome.Panicked? then step.fs
      else Replay(step.fs, requests[1..])
  }

  /** The mountpoints the requests name: exactly those of some request. */
  function Requested(requests: seq<MountRequest>): (mps: set<string>)
    ensures forall i :: 0 <= i < |requests| ==> requests[i].mountpoint in mps
    ensures forall mp :: mp in mps ==> exists i :: 0 <= i < |requests| && requests[i].mountpoint == mp
    decreases |requests|
  {
    if |requests| == 0 then {}
    else
      var rest := Requested(requests[1..]);
      assert forall mp :: mp in rest ==> exists i :: 0 <= i < |requests| && requests[i].mountpoint == mp by {
        forall mp | mp in rest ensures exists i :: 0 <= i < |requests| && requests[i].mountpoint == mp {
          var i :| 0 <= i < |requests[1..]| && requests[1..][i].mountpoint == mp;
          assert requests[i + 1].mountpoint == mp;
        }
      }
      {requests[0].mountpoint} + rest
  }

  /** A run of requests registers nothing but the mountpoints it names, and keeps
      the repository and the invariant. */
  lemma {:induction false} ReplayRegistersOnlyRequested(fs: Filesystem, requests: seq<MountRequest>)
    requires Valid(fs)
    ensures var after := Replay(fs, requests);
            && after.repository == fs.repository
            && after.mountedLayers.Keys <= fs.mountedLayers.Keys + Requested(requests)
            && Valid(after)
    decreases |requests|
  {
    if |requests| > 0 {
      var q := requests[0];
      var step := Mount(fs, q.mountpoint, q.labels, q.stat, q.mount);
      MountPreservesValid(fs, q.mountpoint, q.labels, q.stat, q.mount);
      if !step.outcome.Panicked? {
        ReplayRegistersOnlyRequested(step.fs, requests[1..]);
      }
    }
  }

  /** Checking a mountpoint that no request of a run from a fresh backend named
      fails as not mounted, without any system call. */
  lemma CheckUnrequestedFails(config: Config, requests: seq<MountRequest>, mountpoint: string, stat: StatResult)
    requires forall i :: 0 <= i < |requests| ==> requests[i].mountpoint != mountpoint
    ensures var r := Check(Replay(NewFilesystem(config), requests), mountpoint, stat);
            r.outcome == Failed(NotMounted(mountpoint)) && r.calls == []
  {
    NewFilesystemValid(config);
    ReplayRegistersOnlyRequested(NewFilesystem(config), requests);
  }
}
