/** The manifest cache: one flat directory in which every namespace owns a meta
    file and a manifest under its cache name, and may still own an entry under
    the name an earlier version gave it. */
module VaultCache {
  import opened Wrappers
  import opened Percent
  import opened PathSafe

  datatype Meta = Meta(
    cachedAt: int, filename: Bytes, ns: Namespace, notFound: bool,
    ref: Bytes, commit: Bytes, isDefault: bool, defaultAt: int, channels: Bytes)

  datatype ManifestFile = ManifestFile(
    content: Bytes, filename: Bytes, ref: Bytes, commit: Bytes, isDefault: bool, defaultAt: int, channels: Bytes)

  datatype File = MetaFile(meta: Meta) | Manifest(content: Bytes)

  type Dir = map<Bytes, File>

  datatype MetaRead = Missing | Unreadable | Found(meta: Meta)

  datatype Answer =
    | NotCached
    | Failed
    | ConfirmedAbsent(commit: Bytes)
    | Stale(file: ManifestFile)
    | Fresh(file: ManifestFile)

  const ARROW_MD: Bytes := ['A', 'R', 'R', 'O', 'W', '.', 'm', 'd']
  const ARROW_YAML: Bytes := ['a', 'r', 'r', 'o', 'w', '.', 'y', 'a', 'm', 'l']
  const MD: Bytes := ['.', 'm', 'd']
  const YAML: Bytes := ['.', 'y', 'a', 'm', 'l']

  /** filepath.Ext. */
  function Ext(path: Bytes): Bytes {
    var dot := LastIndexOf(path, '.');
    if dot > LastIndexOf(path, '/') then path[dot..] else []
  }

  // ------------------------------------------------- operations on a directory

  function ReadMeta(dir: Dir, name: Bytes): MetaRead {
    var path := name + META_SUFFIX;
    if path !in dir then Missing
    else if dir[path].MetaFile? then Found(dir[path].meta) else Unreadable
  }

  /** The meta under the first name that has one, and that name. */
  function ReadFirst(dir: Dir, names: seq<Bytes>): (MetaRead, Bytes) {
    if names == [] then (Missing, [])
    else
      var read := ReadMeta(dir, names[0]);
      if read.Missing? then ReadFirst(dir, names[1..]) else (read, names[0])
  }

  function AnswerFrom(dir: Dir, read: MetaRead, name: Bytes, now: int, ttl: int): Answer {
    match read
    case Missing => NotCached
    case Unreadable => Failed
    case Found(meta) =>
      if meta.notFound then
        if now - meta.cachedAt > ttl then NotCached else ConfirmedAbsent(meta.commit)
      else
        var path := name + Ext(meta.filename);
        if path !in dir then NotCached
        else if dir[path].MetaFile? then Failed
        else
          var file := ManifestFile(dir[path].content, meta.filename, meta.ref, meta.commit,
                                   meta.isDefault, meta.defaultAt, meta.channels);
          if now - meta.cachedAt > ttl then Stale(file) else Fresh(file)
  }

  function Get(dir: Dir, ns: Namespace, now: int, ttl: int, digest: Digest): Answer {
    var (read, name) := ReadFirst(dir, CacheNames(ns, digest));
    AnswerFrom(dir, read, name, now, ttl)
  }

  /** A write that does not set the default mark, or carries no channels, keeps
      those of the entry it overwrites. */
  function KeepPrevious(read: MetaRead, file: ManifestFile, now: int): ManifestFile {
    var marked := file.(defaultAt := if file.isDefault then now else 0);
    if !read.Found? then marked
    else
      var prev := read.meta;
      var kept := if !file.isDefault && prev.isDefault
                  then marked.(isDefault := true, defaultAt := prev.defaultAt) else marked;
      if file.channels == [] then kept.(channels := prev.channels) else kept
  }

  function Put(dir: Dir, ns: Namespace, file: ManifestFile, now: int, digest: Digest): Dir {
    var name := EncodeNS(ns, digest);
    var written := dir[name + Ext(file.filename) := Manifest(file.content)];
    var kept := KeepPrevious(ReadFirst(written, CacheNames(ns, digest)).0, file, now);
    written[name + META_SUFFIX := MetaFile(Meta(now, kept.filename, ns, false, kept.ref, kept.commit,
                                                kept.isDefault, kept.defaultAt, kept.channels))]
  }

  function PutNotFound(dir: Dir, ns: Namespace, commit: Bytes, now: int, digest: Digest): Dir {
    dir[EncodeNS(ns, digest) + META_SUFFIX := MetaFile(Meta(now, [], ns, true, [], commit, false, 0, []))]
  }

  function DeleteEntry(dir: Dir, name: Bytes): Dir {
    var read := ReadMeta(dir, name);
    if read.Found? then dir - {name + Ext(read.meta.filename)} - {name + META_SUFFIX} else dir
  }

  /** Deleting stops at an entry whose meta cannot be read. */
  function DeleteAll(dir: Dir, names: seq<Bytes>): Dir {
    if names == [] || ReadMeta(dir, names[0]).Unreadable? then dir
    else DeleteAll(DeleteEntry(dir, names[0]), names[1..])
  }

  /** The namespace of an entry: its decoded name, or what its meta says when the
      name was capped. None when neither can be read. */
  function CachedNamespace(dir: Dir, name: Bytes): Option<Namespace> {
    if '~' in name then
      var read := ReadMeta(dir, name);
      if read.Found? && read.meta.ns != [] then Some(read.meta.ns) else None
    else Decode(name)
  }

  function SweepEntry(dir: Dir, name: Bytes, now: int, ttl: int): Dir {
    var read := ReadMeta(dir, name);
    if read.Found? && now - read.meta.cachedAt > ttl && CachedNamespace(dir, name).Some?
    then DeleteEntry(dir, name) else dir
  }

  // ---------------------------------------------------------------- the store

  class Store {
    const ttl: int
    const digest: Digest
    var dir: Dir

    constructor (ttl: int, digest: Digest, dir: Dir)
      ensures this.ttl == ttl && this.digest == digest && this.dir == dir
    {
      this.ttl, this.digest, this.dir := ttl, digest, dir;
    }

    method ReadCachedMeta(ns: Namespace) returns (read: MetaRead, name: Bytes)
      ensures (read, name) == ReadFirst(dir, CacheNames(ns, digest))
    {
      var names := CacheNames(ns, digest);
      var i := 0;
      while i < |names|
        invariant i <= |names|
        invariant ReadFirst(dir, names) == ReadFirst(dir, names[i..])
      {
        read := ReadMeta(dir, names[i]);
        if !read.Missing? {
          return read, names[i];
        }
        assert names[i..][1..] == names[i + 1..];
        i := i + 1;
      }
      return Missing, [];
    }

    method GetArrow(ns: Namespace, now: int) returns (answer: Answer)
      ensures answer == Get(dir, ns, now, ttl, digest)
    {
      var read, name := ReadCachedMeta(ns);
      answer := AnswerFrom(dir, read, name, now, ttl);
    }

    method PutArrow(ns: Namespace, file: ManifestFile, now: int)
      modifies this
      ensures dir == Put(old(dir), ns, file, now, digest)
    {
      var name := EncodeNS(ns, digest);
      dir := dir[name + Ext(file.filename) := Manifest(file.content)];
      var read, _ := ReadCachedMeta(ns);
      var kept := KeepPrevious(read, file, now);
      var meta := Meta(now, kept.filename, ns, false, kept.ref, kept.commit, kept.isDefault, kept.defaultAt, kept.channels);
      dir := dir[name + META_SUFFIX := MetaFile(meta)];
    }

    method PutArrowNotFound(ns: Namespace, commit: Bytes, now: int)
      modifies this
      ensures dir == PutNotFound(old(dir), ns, commit, now, digest)
    {
      dir := dir[EncodeNS(ns, digest) + META_SUFFIX := MetaFile(Meta(now, [], ns, true, [], commit, false, 0, []))];
    }

    method DeleteArrow(ns: Namespace) returns (ok: bool)
      modifies this
      ensures dir == DeleteAll(old(dir), CacheNames(ns, digest))
      // it stops at the first entry whose meta cannot be read, and leaves that one
      ensures if ok then forall name :: name in CacheNames(ns, digest) ==> ReadMeta(dir, name).Missing?
              else exists name :: name in CacheNames(ns, digest) && ReadMeta(dir, name).Unreadable?
    {
      var names := CacheNames(ns, digest);
      var i := 0;
      while i < |names|
        invariant i <= |names|
        invariant DeleteAll(old(dir), names) == DeleteAll(dir, names[i..])
        invariant forall k :: 0 <= k < i ==> ReadMeta(dir, names[k]).Missing?
      {
        if ReadMeta(dir, names[i]).Unreadable? {
          return false;
        }
        assert names[i..][1..] == names[i + 1..];
        DeleteCacheEntry(names[i]);
        i := i + 1;
      }
      return true;
    }

    method DeleteCacheEntry(name: Bytes)
      modifies this
      ensures dir == DeleteEntry(old(dir), name)
    {
      var read := ReadMeta(dir, name);
      if read.Found? {
        dir := dir - {name + Ext(read.meta.filename)};
        dir := dir - {name + META_SUFFIX};
      }
    }

    method SweepCacheEntry(name: Bytes, now: int)
      modifies this
      ensures dir == SweepEntry(old(dir), name, now, ttl)
    {
      var read := ReadMeta(dir, name);
      if !read.Found? || now - read.meta.cachedAt <= ttl {
        return;
      }
      if CachedNamespace(dir, name).Some? {
        DeleteCacheEntry(name);
      }
    }
  }

  // --------------------------------------------------------------------- runs

  datatype Op =
    | PutOp(ns: Namespace, file: ManifestFile)
    | NotFoundOp(ns: Namespace, commit: Bytes)
    | DeleteOp(ns: Namespace)
    | SweepOp(name: Bytes)

  datatype Event = Event(now: int, op: Op)

  function Apply(dir: Dir, e: Event, ttl: int, digest: Digest): Dir {
    match e.op
    case PutOp(ns, file) => Put(dir, ns, file, e.now, digest)
    case NotFoundOp(ns, commit) => PutNotFound(dir, ns, commit, e.now, digest)
    case DeleteOp(ns) => DeleteAll(dir, CacheNames(ns, digest))
    case SweepOp(name) => SweepEntry(dir, name, e.now, ttl)
  }

  function Replay(dir: Dir, run: seq<Event>, ttl: int, digest: Digest): Dir {
    if run == [] then dir
    else Apply(Replay(dir, run[..|run| - 1], ttl, digest), run[|run| - 1], ttl, digest)
  }

  /** What the run says happened to a namespace last. */
  datatype Last = Untouched | Wrote(at: int, file: ManifestFile) | Marked(at: int, commit: Bytes) | Removed

  function LastOf(run: seq<Event>, ns: Namespace): Last {
    if run == [] then Untouched
    else
      var e, before := run[|run| - 1], LastOf(run[..|run| - 1], ns);
      match e.op
      case PutOp(n, file) => if n == ns then Wrote(e.now, file) else before
      case NotFoundOp(n, commit) => if n == ns then Marked(e.now, commit) else before
      case DeleteOp(n) => if n == ns then Removed else before
      case SweepOp(_) => before
  }
}
