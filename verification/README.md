# CVMFS lazy-layer snapshotter backend in Dafny

This project models the backend of the CVMFS container snapshotter. The backend
does not unpack image layers. It finds each layer already unpacked in a CVMFS
repository and bind mounts that directory onto the snapshot's mountpoint. It
has two entry points, `Mount` and `Check`. `NewFilesystem` builds it from the
configuration.

- `Layer.Resolve` turns a digest label `algorithm:hex` into the hash and the
  backing path `/cvmfs/<repository>/.layers/<first two chars>/<hash>/layerfs`.
- `Snapshotter.Mount` resolves the label and stats the path. Unless stat says the
  path does not exist, it bind mounts the path on the mountpoint. After a
  successful mount it records the pair in the registry of mounted layers.
- `Snapshotter.Check` looks a mountpoint up in the registry and stats the
  recorded path. It classifies the answer three ways.

The backend state is an immutable `Filesystem` value: the repository name and a
`map<string, string>` from mountpoint to backing path. Each entry point is a pure
function that returns a `Step`. A step holds the returned error, the new state
and the trace of system calls issued. The answers of `os.Stat` and
`syscall.Mount` are parameters. A branch that issues no system call shows an
empty trace, so its answer is never consulted.

The library behaviour the backend depends on is modelled too:

- `strings.Split`/`strings.Join` (module `Strings`). Two round-trip lemmas show
  they are inverse to each other.
- `filepath.Join`/`filepath.Clean` (module `FilePath`). They follow Go's
  documented lexical cleaning rules on a Unix host.

So the backing path is defined for every repository name and every hash, even
ones with `/`, `.` or `..`. A lemma shows that for plain names the path is the
plain `/`-concatenation.

Points where the code's behaviour is easy to misread:

- The hash is the second `:`-separated field: only the text between the first
  and the second colon is used, not everything after the first colon.
- A hash made of plain path elements stays under
  `/cvmfs/<repository>/.layers/`. A hash with `..` elements does not, because
  `filepath.Join` cleans them away: `sha256:../..` is mounted from `/layerfs`.
- A label without a colon makes `strings.Split(...)[1]` panic. The Go runtime
  reports index 1 with length 1.
- A hash shorter than two characters makes `digest[0:2]` panic.
- Those two panics are `Outcome.Panicked`, not returned errors. A panic in a
  gRPC handler ends the process, so `Replay` stops serving requests after one.
- At mount time, a stat error other than "does not exist" is not reported.
  `Mount` goes on to the bind mount (main.go:66).
- A failed bind mount returns the system call's own error, unwrapped.
- The bind mount uses `MS_BIND` only. It is not made read-only.
- The registry has no removal operation.
- The final `return statErr` of `Check` (main.go:103) is unreachable. The model
  has three outcomes for a registered mountpoint.

## Model

| member | source | states |
|---|---|---|
| Strings.Split | main.go:63 | like Go's `strings.Split`, the result is never empty: a label without a separator is one field |
| Strings.SplitCount | main.go:63 | `strings.Split` returns one more field than there are separators in the label |
| Strings.SplitHasSecondField | main.go:63 | the split has a field at index 1 exactly when the label contains `:`, so `[1]` panics exactly on colon-free labels |
| Strings.JoinSplit | main.go:63 | joining the split fields with the separator gives back the label: nothing is lost by splitting |
| Strings.SplitJoin | main.go:63 | splitting a join of separator-free parts gives back the parts: the inverse direction of the round trip |
| FilePath.Clean | main.go:65 | cleaning never yields the empty path, and a path is rooted after cleaning exactly when it was rooted before |
| FilePath.Join | main.go:65 | `filepath.Join` gives the empty string exactly when every element is empty |
| FilePath.CleanCanonical | main.go:65 | a rooted path of plain elements is left unchanged by cleaning |
| FilePath.CleanIdempotentRooted | main.go:65 | cleaning a rooted path twice gives the same path as cleaning it once |
| FilePath.JoinRootedPlain | main.go:65 | joining `/` with plain elements is plain `/`-concatenation |
| Layer.LayerPath | main.go:64-65 | the `filepath.Join` of `/`, `cvmfs`, the repository, `.layers`, the first two characters and the hash, then `layerfs`, is an absolute path whatever the repository name and the hash hold |
| Layer.Resolve | main.go:63-65 | a colon-free label panics with index 1 and length 1, and a panic reports an index error exactly for a colon-free label; a resolved hash has at least two characters and no colon, and its path is the `filepath.Join` layer path, absolute |
| Layer.SecondFieldIsHash | main.go:63-64 | for a label `algorithm:hash` followed by nothing or by `:...`, the resolved hash is `hash`; if it is shorter than two characters, the slice panics instead |
| Layer.PlainLayerPath | main.go:64-65 | for a plain repository name and a hash that is a plain path element with a fan-out other than `..`, the backing path is `/cvmfs/<repo>/.layers/<first two>/<hash>/layerfs`, untouched by cleaning |
| Layer.PlainHashStaysInLayers | main.go:63-65 | a label `algorithm:hash` (optionally followed by `:...`) with such a hash resolves to that hash under `/cvmfs/<repo>/.layers/<first two>/` |
| Layer.HexLayerPath | main.go:64-65 | a hex digest is such a hash, so its backing path is `/cvmfs/<repo>/.layers/<first two>/<hash>/layerfs` |
| Layer.DotDotHashLeavesRepository | main.go:63-65 | the label `sha256:../..` resolves to `/layerfs` for every plainly named repository: `..` in the hash leaves the repository |
| Layer.Sha256AbLabel | main.go:63-65 | a `sha256:` label whose hex value starts with `ab` resolves under `/cvmfs/unpacked.cern.ch/.layers/ab/` |
| Layer.Sha256Example | main.go:63-65 | the 64-digit example digest resolves to `/cvmfs/unpacked.cern.ch/.layers/ab/<hash>/layerfs` |
| Snapshotter.NewFilesystem | main.go:47-53 | an empty configured repository becomes `unpacked.cern.ch`, a non-empty one is kept verbatim, and the registry starts empty |
| Snapshotter.Message | main.go:59-99 | a failed bind mount reports the system call's own error text; the other texts embed their hash, mountpoint, path or stat error verbatim at a fixed position, with a fixed length around it |
| Snapshotter.Mount | main.go:55-79 | a missing label fails with no system call; a malformed label panics with no system call; "not exist" from stat fails after the stat alone; a failed bind mount returns its error; every bind mount follows a stat of its source; any failure or panic leaves the registry unchanged; success happens exactly when the label resolves, stat does not say "not exist" and the mount works, and then the mountpoint maps to the mounted path while every other entry keeps its value |
| Snapshotter.Check | main.go:81-104 | Check never changes the backend and never panics; an unregistered mountpoint fails as not mounted with no system call; a registered one stats exactly the recorded path, succeeds exactly when stat succeeds, and reports a missing layer or a stat error as two different failures |
| BackendProperties.NewFilesystemValid | main.go:47-53 | a new backend satisfies the invariant: non-empty repository, and a registry holding only paths the resolver builds for that repository |
| BackendProperties.MountPreservesValid | main.go:63-78 | on every path, Mount keeps the invariant that each recorded path is what the resolver builds for some colon-free hash of the repository (absolute and cleaned, but not necessarily under its `.layers` directory) |
| BackendProperties.MountPlainDigest | main.go:63-78 | with a plain repository and a label whose hash is a plain element, Mount succeeds exactly when stat does not say "not exist" and the bind mount works, and then records `/cvmfs/<repo>/.layers/<first two>/<hash>/layerfs` |
| BackendProperties.MountDotDotDigest | main.go:63-78 | with the label `sha256:../..`, Mount stats and bind mounts `/layerfs` and records it, outside the repository |
| BackendProperties.MountThenCheck | main.go:77-97 | after a successful Mount, Check on that mountpoint stats the mounted path; it succeeds while the layer exists and reports the layer missing once it is gone |
| BackendProperties.MountLeavesOtherChecks | main.go:77-87 | mounting one mountpoint does not change the answer or the system calls of Check on any other mountpoint |
| BackendProperties.MountIdempotent | main.go:77 | repeating a successful Mount with the same arguments leaves the registry as the first one left it |
| BackendProperties.TwoMounts | main.go:55-91 | two successful mounts of different mountpoints record independent paths, and both pass Check while their layers exist |
| BackendProperties.VanishedDiffersFromStatError | main.go:94-100 | the "layer missing" error text differs from the "error in stat-ing" text for every path and cause |
| BackendProperties.MessageDeterminesSubject | main.go:67-99 | two errors of the same kind with the same text have the same hash, mountpoint, path or cause |
| BackendProperties.ReplayRegistersOnlyRequested | main.go:52-78 | a run of mount requests registers only mountpoints it names, keeps the repository and keeps the invariant |
| BackendProperties.CheckUnrequestedFails | main.go:81-87 | after any run of requests from a fresh backend, Check on a mountpoint no request named fails as not mounted with no system call |

## Left out

- `main` and `waitForExitSignal` (main.go:106-170) are not modelled: flag parsing, TOML loading, logger set-up, the gRPC server, the socket and signal handling are process wiring and I/O.
- Logging calls are not modelled; they have no effect on results or state.
- `os.Stat` and `syscall.Mount` are outcome parameters. The kernel's mount namespace and file tree are not modelled.
- The concrete text of `handler.TargetDigestLabel` belongs to the snapshot engine library. It is an opaque constant.
- The snapshot engine (`snbase.NewSnapshotter`) and the gRPC snapshot service are not part of this model.
- Concurrency is not modelled. The registry map is used without a lock from concurrent gRPC handlers; the model serves calls one at a time.
- Request context cancellation is not modelled; the code never consults the context except for logging.
- Strings are sequences of characters. Go indexes and slices strings by byte, so `digest[0:2]` and the length check in `Layer.Resolve` agree with Go only for ASCII labels, which digests are.
- `FilePath.Clean` follows the lexical rules Go documents for `filepath.Clean` on Unix. Go's own implementation of `Clean`, which works byte by byte, is not what is modelled.
- BackendProperties.MountPreservesValid: the invariant does not confine recorded paths to `/cvmfs/<repository>/.layers`, because the code does not: a hash with `..` elements leaves the repository (`BackendProperties.MountDotDotDigest`). Confinement is proved only for hashes that are plain path elements (`BackendProperties.MountPlainDigest`).
- `Config`'s `default` struct tag is not modelled; the defaulting that takes effect is the one in `NewFilesystem`.
