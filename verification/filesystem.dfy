/**
  The CVMFS lazy-layer backend: the `filesystem` value handed to the snapshot
  engine, with its two entry points `Mount` and `Check`.

  The backend state is the repository name and the registry of mounted layers
  (mountpoint to backing path). Every operation is a pure function from the old
  state, its arguments and the answers of the operating system to a `Step`. A step
  holds the error the Go method returns, the new state and the system calls
  issued, in order. The answers of `os.Stat` and `syscall.Mount` are parameters.
  Only the answer to a call that appears in the returned trace is used.
 */
module Snapshotter {
  import opened Layer

  /** Repository used when the configuration leaves `repository` empty. */
  const DefaultRepository := "unpacked.cern.ch"

  /** `handler.TargetDigestLabel`: the label key under which the snapshot engine
      passes the layer digest. Its text belongs to the engine and is left opaque. */
  const TargetDigestLabel: string

  datatype Config = Config(repository: string)

  datatype Filesystem = Filesystem(repository: string, mountedLayers: map<string, string>)

  /** What `os.Stat` reports, as classified by `os.IsNotExist`. */
  datatype StatResult = StatOk | NotExist | StatErr(cause: string)

  /** What `syscall.Mount(..., MS_BIND, ...)` reports. */
  datatype MountResult = MountOk | MountErr(cause: string)

  datatype SysCall = Stat(path: string) | BindMount(source: string, target: string)

  /** The errors the two entry points return. */
  datatype Failure =
    | DigestNotPassed                      // the digest label is missing
    | LayerNotInRepository(hash: string)   // stat at mount time says the layer does not exist
    | BindMountFailed(cause: string)       // the bind mount failed; its error is returned as is
    | NotMounted(mountpoint: string)       // Check on a mountpoint with no record
    | LayerMissing(path: string)           // stat at check time says the layer does not exist
    | StatFailed(cause: string)            // stat at check time failed otherwise

  /** The result of a call: a nil error, a returned error, or a runtime panic. */
  datatype Outcome = Ok | Failed(failure: Failure) | Panicked(cause: RuntimePanic)

  datatype Step = Step(outcome: Outcome, fs: Filesystem, calls: seq<SysCall>)

  /** The text of each error. A bind-mount failure is the system call's own error;
      every other text embeds its subject verbatim at a fixed position. */
  function Message(f: Failure): (m: string)
    ensures f.BindMountFailed? ==> m == f.cause
    ensures f.LayerNotInRepository? ==> |m| == |f.hash| + 34 && m[6..6 + |f.hash|] == f.hash
    ensures f.NotMounted? ==> |m| == |f.mountpoint| + 28 && m[12..12 + |f.mountpoint|] == f.mountpoint
    ensures f.LayerMissing? ==> |m| == |f.path| + 62 && m[17..17 + |f.path|] == f.path
    ensures f.StatFailed? ==> |m| == |f.cause| + 29 && m[29..] == f.cause
  {
    match f
    case DigestNotPassed => "cvmfs: digest hasn't be passed"
    case LayerNotInRepository(hash) => "layer " + hash + " not in the cvmfs repository"
    case BindMountFailed(cause) => cause
    case NotMounted(mountpoint) => "Mountpoint: " + mountpoint + " was not mounted"
    case LayerMissing(path) => "Layer from path: " + path + " does not seems to be in the CVMFS repository"
    case StatFailed(cause) => "Error in stat-ing the layer: " + cause
  }

  /** Every bind mount in a trace is issued right after a stat of its source. */
  predicate StatBeforeMount(calls: seq<SysCall>)
  {
    forall i :: 0 <= i < |calls| && calls[i].BindMount? ==> i > 0 && calls[i - 1] == Stat(calls[i].source)
  }

  /** `NewFilesystem`: the configured repository, or the default one, and an empty registry. */
  function NewFilesystem(config: Config): (fs: Filesystem)
    ensures config.repository != "" ==> fs.repository == config.repository
    ensures config.repository == "" ==> fs.repository == DefaultRepository
    ensures fs.repository != ""
    ensures fs.mountedLayers == map[]
  {
    var repository := if config.repository == "" then DefaultRepository else config.repository;
    Filesystem(repository, map[])
  }

  /** `(*filesystem).Mount`: resolve the digest label, stat the backing path, bind
      mount it on `mountpoint` and record the mapping. `stat` and `mount` are what
      the two system calls answer when they are issued. */
  function Mount(fs: Filesystem, mountpoint: string, labels: map<string, string>,
                 stat: StatResult, mount: MountResult): (r: Step)
    // the repository never changes, and a panic or a returned error leaves the registry as it was
    ensures r.fs.repository == fs.repository
    ensures !r.outcome.Ok? ==> r.fs == fs
    // a missing digest label fails before any system call
    ensures TargetDigestLabel !in labels ==> r == Step(Failed(DigestNotPassed), fs, [])
    // a malformed label panics before any system call
    ensures TargetDigestLabel in labels && Resolve(fs.repository, labels[TargetDigestLabel]).Panic? ==>
              r == Step(Panicked(Resolve(fs.repository, labels[TargetDigestLabel]).cause), fs, [])
    ensures r.outcome.Panicked? <==>
              TargetDigestLabel in labels && Resolve(fs.repository, labels[TargetDigestLabel]).Panic?
    // otherwise the resolved path is stat-ed, and bind mounted unless stat says it does not exist
    ensures TargetDigestLabel in labels && Resolve(fs.repository, labels[TargetDigestLabel]).Resolved? ==>
              var res := Resolve(fs.repository, labels[TargetDigestLabel]);
              && |r.calls| >= 1 && r.calls[0] == Stat(res.path)
              && (stat.NotExist? <==> r.calls == [Stat(res.path)])
              && (stat.NotExist? ==> r.outcome == Failed(LayerNotInRepository(res.hash)))
              && (!stat.NotExist? ==> r.calls == [Stat(res.path), BindMount(res.path, mountpoint)])
              && (!stat.NotExist? && mount.MountErr? ==> r.outcome == Failed(BindMountFailed(mount.cause)))
    ensures StatBeforeMount(r.calls) && |r.calls| <= 2
    // success exactly when the label resolves, stat does not say "not exist" and the mount works
    ensures r.outcome.Ok? <==>
              && TargetDigestLabel in labels
              && Resolve(fs.repository, labels[TargetDigestLabel]).Resolved?
              && !stat.NotExist? && mount.MountOk?
    // on success the mountpoint maps to the mounted path, and every other entry is kept
    ensures r.outcome.Ok? ==>
              && r.fs.mountedLayers.Keys == fs.mountedLayers.Keys + {mountpoint}
              && r.calls[|r.calls| - 1] == BindMount(r.fs.mountedLayers[mountpoint], mountpoint)
              && r.fs.mountedLayers[mountpoint] == Resolve(fs.repository, labels[TargetDigestLabel]).path
              && forall k :: k in fs.mountedLayers && k != mountpoint ==>
                   r.fs.mountedLayers[k] == fs.mountedLayers[k]
  {
    if TargetDigestLabel !in labels then Step(Failed(DigestNotPassed), fs, [])
    else
      match Resolve(fs.repository, labels[TargetDigestLabel])
      case Panic(cause) => Step(Panicked(cause), fs, [])
      case Resolved(hash, path) =>
        if stat.NotExist? then Step(Failed(LayerNotInRepository(hash)), fs, [Stat(path)])
        else
          var calls := [Stat(path), BindMount(path, mountpoint)];
          match mount
          case MountErr(cause) => Step(Failed(BindMountFailed(cause)), fs, calls)
          case MountOk =>
            Step(Ok, fs.(mountedLayers := fs.mountedLayers[mountpoint := path]), calls)
  }

  /** `(*filesystem).Check`: look the mountpoint up and stat the recorded path.
      `stat` is what `os.Stat` answers when it is issued. */
  function Check(fs: Filesystem, mountpoint: string, stat: StatResult): (r: Step)
    // Check never changes the backend and never panics
    ensures r.fs == fs
    ensures !r.outcome.Panicked?
    // an unknown mountpoint fails without any system call
    ensures mountpoint !in fs.mountedLayers <==> r.calls == []
    ensures mountpoint !in fs.mountedLayers ==> r.outcome == Failed(NotMounted(mountpoint))
    // a known one stats exactly the recorded path and classifies the answer three ways
    ensures mountpoint in fs.mountedLayers ==>
              var path := fs.mountedLayers[mountpoint];
              && r.calls == [Stat(path)]
              && (r.outcome.Ok? <==> stat.StatOk?)
              && (stat.NotExist? ==> r.outcome == Failed(LayerMissing(path)))
              && (stat.StatErr? ==> r.outcome == Failed(StatFailed(stat.cause)))
  {
    if mountpoint !in fs.mountedLayers then Step(Failed(NotMounted(mountpoint)), fs, [])
    else
      var path := fs.mountedLayers[mountpoint];
      var calls := [Stat(path)];
      match stat
      case StatOk => Step(Ok, fs, calls)
      case NotExist => Step(Failed(LayerMissing(path)), fs, calls)
      case StatErr(cause) => Step(Failed(StatFailed(cause)), fs, calls)
  }
}
