/** Over every run of the manifest cache, what a namespace reads is its own. */
module CacheIsolation {
  import opened Wrappers
  import opened Percent
  import opened PathSafe
  import opened VaultCache

  predicate EndsWith(s: Bytes, t: Bytes) {
    |s| >= |t| && s[|s| - |t|..] == t
  }

  /** `ARROW.md` and `arrow.yaml`, and for an arrow hosted in a collection its path
      there with either extension. */
  predicate ManifestName(filename: Bytes) {
    Ext(filename) == MD || Ext(filename) == YAML
  }

  predicate NamesManifest(m: Meta) {
    (m.notFound && m.filename == []) || ManifestName(m.filename)
  }

  predicate IsSuffix(e: Bytes) {
    e == MD || e == YAML || e == META_SUFFIX
  }

  /** The namespaces in play can be told apart: none writes under another's cache
      name, and no meta file that hides an earlier entry is at a path that is itself
      another's cache name, since deleting a not-found mark removes that path. */
  ghost predicate Isolated(u: set<Namespace>, digest: Digest) {
    forall a, b :: a in u && b in u && a != b ==> KeepsOff(a, b, digest) && KeepsOff(b, a, digest)
  }

  predicate KeepsOff(a: Namespace, b: Namespace, digest: Digest) {
    && EncodeNS(a, digest) !in CacheNames(b, digest)
    && (|CacheNames(a, digest)| == 2 ==> EncodeNS(a, digest) + META_SUFFIX !in CacheNames(b, digest))
  }

  /** No cache name in play is spelled like this path. */
  ghost predicate Spared(u: set<Namespace>, digest: Digest, path: Bytes) {
    forall b :: b in u ==> path !in CacheNames(b, digest)
  }

  /** Moreover no path a put writes is spelled like a cache name in play. */
  ghost predicate Undisturbed(u: set<Namespace>, digest: Digest) {
    && (forall a, b :: a in u && b in u && a != b ==> EncodeNS(a, digest) !in CacheNames(b, digest))
    && (forall a :: a in u ==>
          && Spared(u, digest, EncodeNS(a, digest) + META_SUFFIX)
          && Spared(u, digest, EncodeNS(a, digest) + MD) && Spared(u, digest, EncodeNS(a, digest) + YAML))
  }

  ghost predicate OwnMeta(u: set<Namespace>, digest: Digest, path: Bytes) {
    exists ns, name :: ns in u && name in CacheNames(ns, digest) && path == name + META_SUFFIX
  }

  /** A directory holds only what the cache writes for those namespaces. */
  ghost predicate WellFiled(dir: Dir, u: set<Namespace>, digest: Digest) {
    forall p :: p in dir ==>
      && (dir[p].MetaFile? <==> EndsWith(p, META_SUFFIX))
      && (dir[p].MetaFile? ==> OwnMeta(u, digest, p) && NamesManifest(dir[p].meta))
  }

  // ------------------------------------------------------------ names and paths

  lemma Extensions()
    ensures Ext(ARROW_MD) == MD && Ext(ARROW_YAML) == YAML && Ext([]) == []
  {
    assert ARROW_MD[5..] == MD && ARROW_YAML[5..] == YAML;
    assert ARROW_MD[..5] + MD == ARROW_MD && ARROW_YAML[..5] + YAML == ARROW_YAML;
    ExtensionIs(ARROW_MD[..5], MD);
    ExtensionIs(ARROW_YAML[..5], YAML);
  }

  /** The extension under which an entry's manifest is filed. */
  lemma ManifestExtension(m: Meta)
    requires NamesManifest(m)
    ensures Ext(m.filename) == MD || Ext(m.filename) == YAML || (Ext(m.filename) == [] && m.notFound)
  {
    Extensions();
  }

  lemma ExtensionIs(stem: Bytes, e: Bytes)
    requires '/' !in e && e != [] && e[0] == '.' && '.' !in e[1..]
    ensures Ext(stem + e) == e
  {
    var s := stem + e;
    var dot := LastIndexOf(s, '.');
    assert s[|stem|] == '.';
    forall j | |stem| < j < |s| ensures s[j] != '.' {
      assert s[j] == e[1..][j - |stem| - 1];
    }
    assert dot == |stem|;
    forall j | |stem| <= j < |s| ensures s[j] != '/' {
      assert s[j] == e[j - |stem|];
    }
  }

  /** An arrow hosted in a collection is fetched, and put, under its path there. */
  lemma CollectionPaths(path: Bytes)
    ensures ManifestName(path + MD) && ManifestName(path + YAML)
  {
    ExtensionIs(path, MD);
    ExtensionIs(path, YAML);
  }

  lemma PathsSplit(n1: Bytes, e1: Bytes, n2: Bytes, e2: Bytes)
    requires IsSuffix(e1) && IsSuffix(e2) && n1 + e1 == n2 + e2
    ensures n1 == n2 && e1 == e2
  {
    var p := n1 + e1;
    assert p[|p| - 1] == e1[|e1| - 1] && p[|p| - 1] == e2[|e2| - 1];
    assert p[..|n1|] == n1 && p[..|n2|] == n2;
  }

  lemma PathsDiffer(n1: Bytes, n2: Bytes)
    requires n1 != n2
    ensures forall e1, e2 :: IsSuffix(e1) && IsSuffix(e2) ==> n1 + e1 != n2 + e2
  {
    forall e1, e2 | IsSuffix(e1) && IsSuffix(e2) ensures n1 + e1 != n2 + e2 {
      if n1 + e1 == n2 + e2 {
        PathsSplit(n1, e1, n2, e2);
      }
    }
  }

  lemma {:induction false} OthersNamesDiffer(u: set<Namespace>, digest: Digest, a: Namespace, b: Namespace, own: Bytes)
    requires Isolated(u, digest) && a in u && b in u && a != b && own in CacheNames(b, digest)
    ensures own !in CacheNames(a, digest)
  {
    assert KeepsOff(a, b, digest) && KeepsOff(b, a, digest);
    if own in CacheNames(a, digest) {
      NamesDecode(a);
      NamesDecode(b);
    }
  }

  lemma SameLastByte(s: Bytes, t: Bytes)
    requires t != []
    ensures EndsWith(s, t) ==> s[|s| - 1] == t[|t| - 1]
  {
  }

  // ------------------------------------------------------------- the invariant

  ghost predicate ManifestsFrom(dir: Dir, src: Dir, name: Bytes) {
    && (name + MD in dir ==> name + MD in src && dir[name + MD] == src[name + MD])
    && (name + YAML in dir ==> name + YAML in src && dir[name + YAML] == src[name + YAML])
  }

  /** A meta file under a namespace's current name is the one its last write left. */
  ghost predicate MetaIsLast(dir: Dir, d0: Dir, last: Last, name: Bytes)
    requires name + META_SUFFIX in dir
  {
    var f := dir[name + META_SUFFIX];
    f.MetaFile? &&
    match last
    case Untouched => name + META_SUFFIX in d0 && f == d0[name + META_SUFFIX]
    case Wrote(at, file) =>
      && f.meta.cachedAt == at && !f.meta.notFound
      && f.meta.filename == file.filename && f.meta.ref == file.ref && f.meta.commit == file.commit
      && (name + Ext(file.filename) in dir ==> dir[name + Ext(file.filename)] == Manifest(file.content))
    case Marked(at, commit) => f.meta.notFound && f.meta.cachedAt == at && f.meta.commit == commit
    case Removed => false
  }

  ghost predicate CurrentOk(dir: Dir, d0: Dir, last: Last, name: Bytes) {
    && (name + META_SUFFIX in dir ==> MetaIsLast(dir, d0, last, name))
    && (last.Untouched? ==> ManifestsFrom(dir, d0, name))
    && (last.Wrote? ==> ManifestName(last.file.filename))
  }

  /** An entry under the earlier name is only ever removed. */
  ghost predicate LegacyOk(dir: Dir, d0: Dir, last: Last, name: Bytes) {
    && (name + META_SUFFIX in dir ==>
          !last.Removed? && name + META_SUFFIX in d0 && dir[name + META_SUFFIX] == d0[name + META_SUFFIX])
    && ManifestsFrom(dir, d0, name)
  }

  /** While a write is within its lifetime it hides the earlier entry. */
  ghost predicate Hidden(dir: Dir, last: Last, current: Bytes, legacy: Bytes, now: int, ttl: int) {
    current + META_SUFFIX !in dir && legacy + META_SUFFIX in dir && (last.Wrote? || last.Marked?) ==> now - last.at > ttl
  }

  ghost predicate Own(dir: Dir, d0: Dir, last: Last, ns: Namespace, now: int, ttl: int, digest: Digest) {
    var names := CacheNames(ns, digest);
    && CurrentOk(dir, d0, last, names[0])
    && (|names| == 2 ==> LegacyOk(dir, d0, last, names[1]) && Hidden(dir, last, names[0], names[1], now, ttl))
  }

  /** `after` is `before` for everything filed under `name`, save that a manifest
      may be gone. */
  ghost predicate Leaves(before: Dir, after: Dir, name: Bytes) {
    && (name + META_SUFFIX in before <==> name + META_SUFFIX in after)
    && (name + META_SUFFIX in after ==> after[name + META_SUFFIX] == before[name + META_SUFFIX])
    && ManifestsFrom(after, before, name)
  }

  ghost predicate LeavesAll(before: Dir, after: Dir, ns: Namespace, digest: Digest) {
    forall name :: name in CacheNames(ns, digest) ==> Leaves(before, after, name)
  }

  lemma LeftAloneStaysOwn(
    before: Dir, after: Dir, d0: Dir, last: Last, ns: Namespace, now: int, later: int, ttl: int, digest: Digest)
    requires Own(before, d0, last, ns, now, ttl, digest) && LeavesAll(before, after, ns, digest) && now <= later
    ensures Own(after, d0, last, ns, later, ttl, digest)
  {
    Extensions();
    var names := CacheNames(ns, digest);
    assert Leaves(before, after, names[0]);
    assert |names| == 2 ==> Leaves(before, after, names[1]);
  }

  // ------------------------------------------------------ what one step leaves

  lemma PutLeaves(digest: Digest, dir: Dir, name: Bytes, b: Namespace, file: ManifestFile, now: int)
    requires name != EncodeNS(b, digest) && ManifestName(file.filename)
    ensures Leaves(dir, Put(dir, b, file, now, digest), name)
  {
    ElsewhereLeaves(dir, Put(dir, b, file, now, digest), name, EncodeNS(b, digest), Ext(file.filename));
  }

  lemma ElsewhereLeaves(before: Dir, after: Dir, name: Bytes, other: Bytes, e: Bytes)
    requires name != other && IsSuffix(e)
    requires after.Keys == before.Keys + {other + e, other + META_SUFFIX}
    requires forall p :: p in before && p != other + e && p != other + META_SUFFIX ==> after[p] == before[p]
    ensures Leaves(before, after, name)
  {
    PathsDiffer(name, other);
  }

  lemma MarkLeaves(digest: Digest, dir: Dir, name: Bytes, b: Namespace, commit: Bytes, now: int)
    requires name != EncodeNS(b, digest)
    ensures Leaves(dir, PutNotFound(dir, b, commit, now, digest), name)
  {
    PathsDiffer(name, EncodeNS(b, digest));
  }

  /** Removing files keeps what is said about those that are left. */
  lemma RemovalKeeps(before: Dir, after: Dir, d0: Dir, last: Last, current: Bytes, legacy: Bytes)
    requires forall p :: p in after ==> p in before && after[p] == before[p]
    ensures CurrentOk(before, d0, last, current) ==> CurrentOk(after, d0, last, current)
    ensures LegacyOk(before, d0, last, legacy) ==> LegacyOk(after, d0, last, legacy)
  {
  }

  /** Deleting a not-found mark removes the bare name as if it were a manifest: that
      is the one path outside its own entry a deletion can hit. */
  lemma {:induction false} RemovalSpares(u: set<Namespace>, digest: Digest, dir: Dir, name: Bytes, e: Bytes, own: Bytes)
    requires WellFiled(dir, u, digest) && IsSuffix(e) && name != own && name + e != own
    ensures name + e in dir ==> name + e in DeleteEntry(dir, own)
  {
    EndsInMeta(own);
    var read := ReadMeta(dir, own);
    if read.Found? {
      ManifestExtension(read.meta);
      PathsDiffer(name, own);
      assert own + [] == own;
    }
  }

  lemma EndsInMeta(name: Bytes)
    ensures EndsWith(name + META_SUFFIX, META_SUFFIX)
  {
  }

  /** What deleting an entry leaves under its own name: no meta file. */
  lemma DeleteRemoves(u: set<Namespace>, digest: Digest, dir: Dir, own: Bytes)
    requires WellFiled(dir, u, digest)
    ensures own + META_SUFFIX !in DeleteEntry(dir, own) && ManifestsFrom(DeleteEntry(dir, own), dir, own)
    ensures WellFiled(DeleteEntry(dir, own), u, digest)
  {
    assert EndsWith(own + META_SUFFIX, META_SUFFIX);
  }

  /** And no manifest: a deletion clears everything filed under the current name. */
  lemma {:induction false} DeleteClears(u: set<Namespace>, digest: Digest, dir: Dir, ns: Namespace)
    requires WellFiled(dir, u, digest) && EncodeNS(ns, digest) + META_SUFFIX in dir
    ensures var name, after := EncodeNS(ns, digest), DeleteAll(dir, CacheNames(ns, digest));
            && name + META_SUFFIX !in after && name + Ext(dir[name + META_SUFFIX].meta.filename) !in after
            && after.Keys <= dir.Keys
  {
    EndsInMeta(EncodeNS(ns, digest));
    TwoDeletions(u, digest, dir, CacheNames(ns, digest));
  }

  lemma {:induction false} WriteKeepsFiled(u: set<Namespace>, digest: Digest, dir: Dir, b: Namespace, e: Bytes, f: File)
    requires WellFiled(dir, u, digest) && b in u && IsSuffix(e)
    requires f.MetaFile? <==> e == META_SUFFIX
    requires f.MetaFile? ==> NamesManifest(f.meta)
    ensures WellFiled(dir[EncodeNS(b, digest) + e := f], u, digest)
  {
    var path := EncodeNS(b, digest) + e;
    WritePathIsFiled(u, digest, b, e);
    forall p | p in dir && p != path
      ensures (dir[p].MetaFile? <==> EndsWith(p, META_SUFFIX))
           && (dir[p].MetaFile? ==> OwnMeta(u, digest, p) && NamesManifest(dir[p].meta))
    {
    }
  }

  lemma WritePathIsFiled(u: set<Namespace>, digest: Digest, b: Namespace, e: Bytes)
    requires b in u && IsSuffix(e)
    ensures var path := EncodeNS(b, digest) + e;
            && (EndsWith(path, META_SUFFIX) <==> e == META_SUFFIX)
            && (e == META_SUFFIX ==> OwnMeta(u, digest, path))
  {
    var own, path := EncodeNS(b, digest), EncodeNS(b, digest) + e;
    assert own == CacheNames(b, digest)[0];
    SameLastByte(path, META_SUFFIX);
    assert path[|path| - 1] == e[|e| - 1];
    if e == META_SUFFIX {
      EndsInMeta(own);
    }
  }

  // ------------------------------------------------------- each kind of step

  ghost predicate EventOk(e: Event, u: set<Namespace>) {
    match e.op
    case PutOp(ns, file) => ns in u && ManifestName(file.filename)
    case NotFoundOp(ns, _) => ns in u
    case DeleteOp(ns) => ns in u
    case SweepOp(_) => true
  }

  /** What `e` makes of what is known about `ns`. */
  function Next(last: Last, e: Event, ns: Namespace): Last {
    match e.op
    case PutOp(n, file) => if n == ns then Wrote(e.now, file) else last
    case NotFoundOp(n, commit) => if n == ns then Marked(e.now, commit) else last
    case DeleteOp(n) => if n == ns then Removed else last
    case SweepOp(_) => last
  }

  lemma {:induction false} PutIsFiled(
    u: set<Namespace>, digest: Digest, dir: Dir, b: Namespace, file: ManifestFile, now: int)
    requires b in u && ManifestName(file.filename) && WellFiled(dir, u, digest)
    ensures WellFiled(Put(dir, b, file, now, digest), u, digest)
  {
    Extensions();
    var e := Ext(file.filename);
    WriteKeepsFiled(u, digest, dir, b, e, Manifest(file.content));
    var written := dir[EncodeNS(b, digest) + e := Manifest(file.content)];
    var after := Put(dir, b, file, now, digest);
    WriteKeepsFiled(u, digest, written, b, META_SUFFIX, after[EncodeNS(b, digest) + META_SUFFIX]);
  }

  lemma {:induction false} PutIsCurrent(digest: Digest, dir: Dir, d0: Dir, b: Namespace, file: ManifestFile, now: int)
    requires ManifestName(file.filename)
    ensures CurrentOk(Put(dir, b, file, now, digest), d0, Wrote(now, file), EncodeNS(b, digest))
    ensures EncodeNS(b, digest) + META_SUFFIX in Put(dir, b, file, now, digest)
    ensures EncodeNS(b, digest) + Ext(file.filename) in Put(dir, b, file, now, digest)
  {
    Extensions();
    PathsDiffer2(EncodeNS(b, digest));
  }

  lemma {:induction false} PutIsOwn(
    u: set<Namespace>, digest: Digest, ttl: int, dir: Dir, d0: Dir, last: Last, ns: Namespace, b: Namespace,
    file: ManifestFile, now: int, later: int)
    requires Isolated(u, digest) && ns in u && b in u && ManifestName(file.filename)
    requires Own(dir, d0, last, ns, now, ttl, digest) && now <= later
    ensures Own(Put(dir, b, file, later, digest), d0, if b == ns then Wrote(later, file) else last, ns, later, ttl, digest)
  {
    var names, current := CacheNames(ns, digest), EncodeNS(b, digest);
    var after := Put(dir, b, file, later, digest);
    if b == ns {
      PutIsCurrent(digest, dir, d0, b, file, later);
      if |names| == 2 {
        PutLeaves(digest, dir, names[1], b, file, later);
      }
    } else {
      assert current == CacheNames(b, digest)[0];
      OthersNamesDiffer(u, digest, ns, b, current);
      forall name | name in names ensures Leaves(dir, after, name) {
        PutLeaves(digest, dir, name, b, file, later);
      }
      LeftAloneStaysOwn(dir, after, d0, last, ns, now, later, ttl, digest);
    }
  }

  lemma PathsDiffer2(name: Bytes)
    ensures name + MD != name + META_SUFFIX && name + YAML != name + META_SUFFIX
  {
    if name + MD == name + META_SUFFIX {
      PathsSplit(name, MD, name, META_SUFFIX);
    } else if name + YAML == name + META_SUFFIX {
      PathsSplit(name, YAML, name, META_SUFFIX);
    }
  }

  lemma {:induction false} MarkIsOwn(
    u: set<Namespace>, digest: Digest, ttl: int, dir: Dir, d0: Dir, last: Last, ns: Namespace, b: Namespace,
    commit: Bytes, now: int, later: int)
    requires Isolated(u, digest) && ns in u && b in u && WellFiled(dir, u, digest)
    requires Own(dir, d0, last, ns, now, ttl, digest) && now <= later
    ensures var after := PutNotFound(dir, b, commit, later, digest);
            && Own(after, d0, if b == ns then Marked(later, commit) else last, ns, later, ttl, digest)
            && WellFiled(after, u, digest)
  {
    var names, current := CacheNames(ns, digest), EncodeNS(b, digest);
    assert current == CacheNames(b, digest)[0];
    var after := PutNotFound(dir, b, commit, later, digest);
    WriteKeepsFiled(u, digest, dir, b, META_SUFFIX, after[current + META_SUFFIX]);
    if b == ns {
      if |names| == 2 {
        MarkLeaves(digest, dir, names[1], b, commit, later);
      }
    } else {
      OthersNamesDiffer(u, digest, ns, b, current);
      forall name | name in names ensures Leaves(dir, after, name) {
        MarkLeaves(digest, dir, name, b, commit, later);
      }
      LeftAloneStaysOwn(dir, after, d0, last, ns, now, later, ttl, digest);
    }
  }

  /** Removing one entry that is another namespace's, or expired. */
  lemma {:induction false} EntryRemovalIsOwn(
    u: set<Namespace>, digest: Digest, ttl: int, dir: Dir, d0: Dir, last: Last, ns: Namespace, b: Namespace,
    own: Bytes, now: int, later: int)
    requires Isolated(u, digest) && ns in u && b in u && own in CacheNames(b, digest) && WellFiled(dir, u, digest)
    requires Own(dir, d0, last, ns, now, ttl, digest) && now <= later
    requires own == EncodeNS(ns, digest) && (last.Wrote? || last.Marked?) ==> later - last.at > ttl
    ensures Own(DeleteEntry(dir, own), d0, last, ns, later, ttl, digest) && WellFiled(DeleteEntry(dir, own), u, digest)
  {
    DeleteRemoves(u, digest, dir, own);
    var names, after := CacheNames(ns, digest), DeleteEntry(dir, own);
    RemovalKeeps(dir, after, d0, last, names[0], if |names| == 2 then names[1] else []);
    if |names| == 2 && own != names[0] && own != names[1] {
      assert b != ns;
      assert KeepsOff(ns, b, digest);
      RemovalSpares(u, digest, dir, names[0], META_SUFFIX, own);
    }
  }

  lemma {:induction false} DeleteIsOwn(
    u: set<Namespace>, digest: Digest, ttl: int, dir: Dir, d0: Dir, last: Last, ns: Namespace, b: Namespace,
    now: int, later: int)
    requires Isolated(u, digest) && ns in u && b in u && WellFiled(dir, u, digest)
    requires Own(dir, d0, last, ns, now, ttl, digest) && now <= later
    ensures var after := DeleteAll(dir, CacheNames(b, digest));
            && Own(after, d0, if b == ns then Removed else last, ns, later, ttl, digest)
            && WellFiled(after, u, digest)
  {
    var names := CacheNames(b, digest);
    TwoDeletions(u, digest, dir, names);
    var first := DeleteEntry(dir, names[0]);
    DeleteRemoves(u, digest, dir, names[0]);
    if |names| == 2 {
      DeleteRemoves(u, digest, first, names[1]);
    }
    if b != ns {
      OthersNamesDiffer(u, digest, ns, b, names[0]);
      EntryRemovalIsOwn(u, digest, ttl, dir, d0, last, ns, b, names[0], now, later);
      if |names| == 2 {
        OthersNamesDiffer(u, digest, ns, b, names[1]);
        EntryRemovalIsOwn(u, digest, ttl, first, d0, last, ns, b, names[1], later, later);
      }
    }
  }

  lemma {:induction false} TwoDeletions(u: set<Namespace>, digest: Digest, dir: Dir, names: seq<Bytes>)
    requires WellFiled(dir, u, digest) && 1 <= |names| <= 2
    ensures var first := DeleteEntry(dir, names[0]);
            DeleteAll(dir, names) == if |names| == 1 then first else DeleteEntry(first, names[1])
  {
    var first := DeleteEntry(dir, names[0]);
    assert EndsWith(names[0] + META_SUFFIX, META_SUFFIX);
    DeleteRemoves(u, digest, dir, names[0]);
    if |names| == 2 {
      assert EndsWith(names[1] + META_SUFFIX, META_SUFFIX);
      assert names[1..][0] == names[1] && names[1..][1..] == [];
      assert DeleteAll(first, names[1..]) == DeleteAll(DeleteEntry(first, names[1]), []);
    } else {
      assert names[1..] == [];
    }
  }

  /** A sweep removes an entry of a namespace in play, long after it was written. */
  lemma {:induction false} SweptEntry(
    u: set<Namespace>, digest: Digest, ttl: int, dir: Dir, d0: Dir, last: Last, ns: Namespace, name: Bytes,
    now: int, later: int) returns (b: Namespace)
    requires WellFiled(dir, u, digest) && Own(dir, d0, last, ns, now, ttl, digest)
    requires SweepEntry(dir, name, later, ttl) != dir
    ensures b in u && name in CacheNames(b, digest) && SweepEntry(dir, name, later, ttl) == DeleteEntry(dir, name)
    ensures name == EncodeNS(ns, digest) && (last.Wrote? || last.Marked?) ==> later - last.at > ttl
  {
    var path := name + META_SUFFIX;
    assert OwnMeta(u, digest, path);
    var ns', n :| ns' in u && n in CacheNames(ns', digest) && path == n + META_SUFFIX;
    PathsSplit(name, META_SUFFIX, n, META_SUFFIX);
    b := ns';
  }

  lemma {:induction false} SweepIsOwn(
    u: set<Namespace>, digest: Digest, ttl: int, dir: Dir, d0: Dir, last: Last, ns: Namespace, name: Bytes,
    now: int, later: int)
    requires Isolated(u, digest) && ns in u && WellFiled(dir, u, digest)
    requires Own(dir, d0, last, ns, now, ttl, digest) && now <= later
    ensures var after := SweepEntry(dir, name, later, ttl);
            Own(after, d0, last, ns, later, ttl, digest) && WellFiled(after, u, digest)
  {
    if SweepEntry(dir, name, later, ttl) == dir {
      LeftAloneStaysOwn(dir, dir, d0, last, ns, now, later, ttl, digest);
    } else {
      var b := SweptEntry(u, digest, ttl, dir, d0, last, ns, name, now, later);
      EntryRemovalIsOwn(u, digest, ttl, dir, d0, last, ns, b, name, now, later);
    }
  }

  lemma {:induction false} StepIsOwn(
    u: set<Namespace>, digest: Digest, ttl: int, dir: Dir, d0: Dir, last: Last, ns: Namespace, e: Event, now: int)
    requires Isolated(u, digest) && ns in u && WellFiled(dir, u, digest) && EventOk(e, u)
    requires Own(dir, d0, last, ns, now, ttl, digest) && now <= e.now
    ensures var after := Apply(dir, e, ttl, digest);
            Own(after, d0, Next(last, e, ns), ns, e.now, ttl, digest) && WellFiled(after, u, digest)
  {
    match e.op
    case PutOp(b, file) =>
      PutIsOwn(u, digest, ttl, dir, d0, last, ns, b, file, now, e.now);
      PutIsFiled(u, digest, dir, b, file, e.now);
    case NotFoundOp(b, commit) => MarkIsOwn(u, digest, ttl, dir, d0, last, ns, b, commit, now, e.now);
    case DeleteOp(b) => DeleteIsOwn(u, digest, ttl, dir, d0, last, ns, b, now, e.now);
    case SweepOp(name) => SweepIsOwn(u, digest, ttl, dir, d0, last, ns, name, now, e.now);
  }

  // ------------------------------------------------------------ main results

  /** The clock never runs backwards. */
  ghost predicate Timed(run: seq<Event>, start: int) {
    run != [] ==>
      var front := run[..|run| - 1];
      Timed(front, start) && Clock(front, start) <= run[|run| - 1].now
  }

  function Clock(run: seq<Event>, start: int): int {
    if run == [] then start else run[|run| - 1].now
  }

  lemma {:induction false} RunIsOwn(
    u: set<Namespace>, digest: Digest, ttl: int, d0: Dir, run: seq<Event>, start: int, ns: Namespace)
    requires Isolated(u, digest) && ns in u && WellFiled(d0, u, digest)
    requires Timed(run, start) && forall i :: 0 <= i < |run| ==> EventOk(run[i], u)
    ensures WellFiled(Replay(d0, run, ttl, digest), u, digest)
    ensures Own(Replay(d0, run, ttl, digest), d0, LastOf(run, ns), ns, Clock(run, start), ttl, digest)
    ensures var last := LastOf(run, ns); (last.Wrote? || last.Marked? ==> start <= last.at) && start <= Clock(run, start)
  {
    if run == [] {
      StartIsOwn(u, digest, ttl, d0, start, ns);
    } else {
      var front, e := run[..|run| - 1], run[|run| - 1];
      RunIsOwn(u, digest, ttl, d0, front, start, ns);
      StepIsOwn(u, digest, ttl, Replay(d0, front, ttl, digest), d0, LastOf(front, ns), ns, e, Clock(front, start));
    }
  }

  lemma StartIsOwn(u: set<Namespace>, digest: Digest, ttl: int, d0: Dir, start: int, ns: Namespace)
    requires WellFiled(d0, u, digest)
    ensures Own(d0, d0, Untouched, ns, start, ttl, digest)
  {
    var names := CacheNames(ns, digest);
    assert EndsWith(names[0] + META_SUFFIX, META_SUFFIX);
  }

  /** What was filed under one of the namespace's own names before the run, and whether
      it is within its lifetime. */
  ghost predicate FiledBefore(
    d0: Dir, ns: Namespace, file: ManifestFile, current: bool, now: int, ttl: int, digest: Digest) {
    exists name :: name in CacheNames(ns, digest) && FiledUnder(d0, name, file)
                && (current <==> now - d0[name + META_SUFFIX].meta.cachedAt <= ttl)
  }

  ghost predicate FiledUnder(d0: Dir, name: Bytes, file: ManifestFile) {
    name + META_SUFFIX in d0 && d0[name + META_SUFFIX].MetaFile? &&
    var m := d0[name + META_SUFFIX].meta;
    var path := name + Ext(m.filename);
    && path in d0 && d0[path] == Manifest(file.content)
    && file.filename == m.filename && file.ref == m.ref && file.commit == m.commit
    && file.isDefault == m.isDefault && file.defaultAt == m.defaultAt && file.channels == m.channels
  }

  /** A not-found mark filed under one of its own names before the run. */
  ghost predicate MarkedBefore(d0: Dir, ns: Namespace, commit: Bytes, now: int, ttl: int, digest: Digest) {
    exists name :: name in CacheNames(ns, digest) && MarkedUnder(d0, name, commit, now, ttl)
  }

  ghost predicate MarkedUnder(d0: Dir, name: Bytes, commit: Bytes, now: int, ttl: int) {
    name + META_SUFFIX in d0 && d0[name + META_SUFFIX].MetaFile? &&
    var m := d0[name + META_SUFFIX].meta;
    m.notFound && m.commit == commit && now - m.cachedAt <= ttl
  }

  ghost predicate FilesBefore(d0: Dir, start: int) {
    forall p :: p in d0 && d0[p].MetaFile? ==> d0[p].meta.cachedAt <= start
  }

  ghost predicate IsPut(file: ManifestFile, put: ManifestFile) {
    file.content == put.content && file.filename == put.filename && file.ref == put.ref && file.commit == put.commit
  }

  ghost predicate HitIsOwn(last: Last, d0: Dir, ns: Namespace, file: ManifestFile, now: int, ttl: int, digest: Digest) {
    match last
    case Untouched => FiledBefore(d0, ns, file, true, now, ttl, digest)
    case Wrote(at, put) => now - at <= ttl && IsPut(file, put)
    case Marked(_, _) => false
    case Removed => false
  }

  /** A stale answer is the last put, or what was filed before, long out of date. */
  ghost predicate StaleIsOwn(
    last: Last, d0: Dir, ns: Namespace, file: ManifestFile, now: int, ttl: int, digest: Digest) {
    match last
    case Untouched => FiledBefore(d0, ns, file, false, now, ttl, digest)
    case Wrote(at, put) => now - at > ttl && (IsPut(file, put) || FiledBefore(d0, ns, file, false, now, ttl, digest))
    case Marked(at, _) => now - at > ttl && FiledBefore(d0, ns, file, false, now, ttl, digest)
    case Removed => false
  }

  /** Absence is confirmed only by a mark within its lifetime. */
  ghost predicate AbsenceIsOwn(
    last: Last, d0: Dir, ns: Namespace, commit: Bytes, now: int, ttl: int, digest: Digest) {
    match last
    case Untouched => MarkedBefore(d0, ns, commit, now, ttl, digest)
    case Wrote(_, _) => false
    case Marked(at, told) => now - at <= ttl && commit == told
    case Removed => false
  }

  ghost predicate AnswerIsOwn(
    last: Last, d0: Dir, ns: Namespace, answer: Answer, now: int, ttl: int, digest: Digest) {
    match answer
    case NotCached => true
    case Failed => false
    case ConfirmedAbsent(commit) => AbsenceIsOwn(last, d0, ns, commit, now, ttl, digest)
    case Stale(file) => StaleIsOwn(last, d0, ns, file, now, ttl, digest)
    case Fresh(file) => HitIsOwn(last, d0, ns, file, now, ttl, digest)
  }

  /** An answer from an entry the run left as it was. */
  lemma OldHit(u: set<Namespace>, dir: Dir, d0: Dir, ns: Namespace, name: Bytes, now: int, ttl: int, digest: Digest)
    requires WellFiled(dir, u, digest) && name in CacheNames(ns, digest)
    requires name + META_SUFFIX in dir ==>
      name + META_SUFFIX in d0 && dir[name + META_SUFFIX] == d0[name + META_SUFFIX]
    requires ManifestsFrom(dir, d0, name)
    ensures var answer := AnswerFrom(dir, ReadMeta(dir, name), name, now, ttl);
            AnswerIsOwn(Untouched, d0, ns, answer, now, ttl, digest)
  {
    EndsInMeta(name);
    if name + META_SUFFIX in dir {
      var m := dir[name + META_SUFFIX].meta;
      ManifestExtension(m);
      if !m.notFound {
        ManifestIsNoMeta(u, dir, name, Ext(m.filename), digest);
      }
      OldAnswer(dir, d0, name, m, now, ttl);
    }
  }

  lemma OldAnswer(dir: Dir, d0: Dir, name: Bytes, m: Meta, now: int, ttl: int)
    requires name + META_SUFFIX in dir && dir[name + META_SUFFIX] == MetaFile(m)
    requires name + META_SUFFIX in d0 && d0[name + META_SUFFIX] == MetaFile(m)
    requires var path := name + Ext(m.filename);
             !m.notFound && path in dir ==> dir[path].Manifest? && path in d0 && dir[path] == d0[path]
    ensures match AnswerFrom(dir, ReadMeta(dir, name), name, now, ttl)
            case NotCached => true
            case Failed => false
            case ConfirmedAbsent(commit) => MarkedUnder(d0, name, commit, now, ttl)
            case Stale(file) => FiledUnder(d0, name, file) && now - m.cachedAt > ttl
            case Fresh(file) => FiledUnder(d0, name, file) && now - m.cachedAt <= ttl
  {
  }

  lemma ManifestIsNoMeta(u: set<Namespace>, dir: Dir, name: Bytes, e: Bytes, digest: Digest)
    requires WellFiled(dir, u, digest) && (e == MD || e == YAML)
    ensures name + e in dir ==> dir[name + e].Manifest?
  {
    SameLastByte(name + e, META_SUFFIX);
    assert (name + e)[|name + e| - 1] == e[|e| - 1];
  }

  lemma CurrentHit(dir: Dir, d0: Dir, last: Last, ns: Namespace, name: Bytes, now: int, ttl: int, digest: Digest)
    requires name + META_SUFFIX in dir && MetaIsLast(dir, d0, last, name) && !last.Untouched?
    ensures var answer := AnswerFrom(dir, ReadMeta(dir, name), name, now, ttl);
            AnswerIsOwn(last, d0, ns, answer, now, ttl, digest)
  {
    if last.Wrote? {
      WrittenHit(dir, last.at, last.file, name, now, ttl);
    }
  }

  /** An entry as its put left it is answered with the put, fresh or stale by its age. */
  lemma WrittenHit(dir: Dir, at: int, file: ManifestFile, name: Bytes, now: int, ttl: int)
    requires name + META_SUFFIX in dir && MetaIsLast(dir, dir, Wrote(at, file), name)
    ensures var answer := AnswerFrom(dir, ReadMeta(dir, name), name, now, ttl);
            if name + Ext(file.filename) !in dir then answer.NotCached?
            else if now - at <= ttl then answer.Fresh? && IsPut(answer.file, file)
            else answer.Stale? && IsPut(answer.file, file)
  {
  }

  /** An entry under the earlier name is no younger than the start of the run, so
      it has expired whenever a later write has. */
  lemma LegacyHit(
    u: set<Namespace>, dir: Dir, d0: Dir, last: Last, ns: Namespace, name: Bytes, start: int, now: int, ttl: int,
    digest: Digest)
    requires WellFiled(dir, u, digest) && LegacyOk(dir, d0, last, name) && name in CacheNames(ns, digest) && FilesBefore(d0, start)
    requires name + META_SUFFIX in dir
    requires (last.Wrote? || last.Marked?) ==> start <= last.at && now - last.at > ttl
    ensures var answer := AnswerFrom(dir, ReadMeta(dir, name), name, now, ttl);
            AnswerIsOwn(last, d0, ns, answer, now, ttl, digest)
  {
    OldHit(u, dir, d0, ns, name, now, ttl, digest);
    if !last.Untouched? {
      EndsInMeta(name);
      assert now - dir[name + META_SUFFIX].meta.cachedAt > ttl;
    }
  }

  lemma {:induction false} OwnHits(
    u: set<Namespace>, digest: Digest, ttl: int, dir: Dir, d0: Dir, last: Last, clock: int, start: int,
    ns: Namespace, now: int)
    requires WellFiled(dir, u, digest) && Own(dir, d0, last, ns, clock, ttl, digest) && FilesBefore(d0, start)
    requires (last.Wrote? || last.Marked? ==> start <= last.at) && clock <= now
    ensures AnswerIsOwn(last, d0, ns, Get(dir, ns, now, ttl, digest), now, ttl, digest)
  {
    var names := CacheNames(ns, digest);
    if names[0] + META_SUFFIX in dir {
      if last.Untouched? {
        OldHit(u, dir, d0, ns, names[0], now, ttl, digest);
      } else {
        CurrentHit(dir, d0, last, ns, names[0], now, ttl, digest);
      }
    } else if |names| == 2 {
      SecondOfTwo(dir, names);
      if names[1] + META_SUFFIX in dir {
        LegacyHit(u, dir, d0, last, ns, names[1], start, now, ttl, digest);
      }
    } else {
      NoneOfOne(dir, names);
    }
  }

  /** A run of the cache for the namespaces in play, and a moment to look one up. */
  ghost predicate Admissible(
    u: set<Namespace>, digest: Digest, d0: Dir, run: seq<Event>, start: int, ns: Namespace, now: int) {
    && ns in u && WellFiled(d0, u, digest) && FilesBefore(d0, start)
    && Timed(run, start) && Clock(run, start) <= now
    && forall i :: 0 <= i < |run| ==> EventOk(run[i], u)
  }

  ghost predicate AnswersOwn(digest: Digest, ttl: int, d0: Dir, run: seq<Event>, ns: Namespace, now: int) {
    AnswerIsOwn(LastOf(run, ns), d0, ns, Get(Replay(d0, run, ttl, digest), ns, now, ttl, digest), now, ttl, digest)
  }

  /** A fresh hit that is not the namespace's own. */
  ghost predicate Misled(digest: Digest, ttl: int, d0: Dir, run: seq<Event>, ns: Namespace, now: int) {
    var answer := Get(Replay(d0, run, ttl, digest), ns, now, ttl, digest);
    answer.Fresh? && !HitIsOwn(LastOf(run, ns), d0, ns, answer.file, now, ttl, digest)
  }

  ghost predicate AnswersLast(digest: Digest, ttl: int, d0: Dir, run: seq<Event>, ns: Namespace, now: int) {
    var answer, last := Get(Replay(d0, run, ttl, digest), ns, now, ttl, digest), LastOf(run, ns);
    && (last.Wrote? && now - last.at <= ttl ==> answer.Fresh?)
    && (last.Marked? && now - last.at <= ttl ==> answer == ConfirmedAbsent(last.commit))
    && (last.Removed? ==> answer.NotCached?)
  }

  /** After any run of puts, not-found marks, deletes and sweeps by a clock that
      never runs backwards, every answer is the namespace's own. A fresh hit is its
      latest put, still within its lifetime, or, when the run never wrote or removed
      it, an entry filed under one of its own names, current or earlier, before the
      run. A stale one is one of these out of its lifetime. And absence is confirmed
      only by its latest mark, or by one filed before a run that left it alone, still
      within its lifetime. */
  lemma {:induction false} AnswersAreOwn(
    u: set<Namespace>, digest: Digest, ttl: int, d0: Dir, run: seq<Event>, start: int, ns: Namespace, now: int)
    requires Isolated(u, digest) && Admissible(u, digest, d0, run, start, ns, now)
    ensures AnswersOwn(digest, ttl, d0, run, ns, now)
  {
    RunIsOwn(u, digest, ttl, d0, run, start, ns);
    OwnHits(u, digest, ttl, Replay(d0, run, ttl, digest), d0, LastOf(run, ns), Clock(run, start), start, ns, now);
  }

  // ------------------------------------------- what a write leaves stays there

  /** Within its lifetime a write's file at `name + e` is there. */
  ghost predicate StaysFiled(dir: Dir, last: Last, name: Bytes, e: Bytes, now: int, ttl: int) {
    match last
    case Wrote(at, file) => (e == META_SUFFIX || e == Ext(file.filename)) && now - at <= ttl ==> name + e in dir
    case Marked(at, _) => e == META_SUFFIX && now - at <= ttl ==> name + e in dir
    case Untouched => true
    case Removed => true
  }

  lemma {:induction false} StepStaysFiled(
    u: set<Namespace>, digest: Digest, ttl: int, dir: Dir, d0: Dir, last: Last, ns: Namespace, ev: Event, e: Bytes,
    now: int)
    requires Isolated(u, digest) && ns in u && WellFiled(dir, u, digest) && EventOk(ev, u) && IsSuffix(e)
    requires Spared(u, digest, EncodeNS(ns, digest) + e) && Own(dir, d0, last, ns, now, ttl, digest) && now <= ev.now
    requires StaysFiled(dir, last, EncodeNS(ns, digest), e, now, ttl)
    ensures StaysFiled(Apply(dir, ev, ttl, digest), Next(last, ev, ns), EncodeNS(ns, digest), e, ev.now, ttl)
  {
    match ev.op
    case PutOp(b, file) =>
      if b == ns {
        PutIsCurrent(digest, dir, d0, b, file, ev.now);
      }
    case NotFoundOp(b, commit) =>
    case DeleteOp(b) =>
      if b != ns {
        DeleteStaysFiled(u, digest, dir, ns, b, e);
      }
    case SweepOp(name) =>
      if SweepEntry(dir, name, ev.now, ttl) != dir {
        var b := SweptEntry(u, digest, ttl, dir, d0, last, ns, name, now, ev.now);
        if name != EncodeNS(ns, digest) {
          RemovalSpares(u, digest, dir, EncodeNS(ns, digest), e, name);
        }
      }
  }

  lemma {:induction false} DeleteStaysFiled(
    u: set<Namespace>, digest: Digest, dir: Dir, ns: Namespace, b: Namespace, e: Bytes)
    requires Isolated(u, digest) && ns in u && b in u && b != ns && WellFiled(dir, u, digest) && IsSuffix(e)
    requires Spared(u, digest, EncodeNS(ns, digest) + e)
    ensures EncodeNS(ns, digest) + e in dir ==> EncodeNS(ns, digest) + e in DeleteAll(dir, CacheNames(b, digest))
  {
    var names, name := CacheNames(b, digest), EncodeNS(ns, digest);
    TwoDeletions(u, digest, dir, names);
    DeleteRemoves(u, digest, dir, names[0]);
    assert KeepsOff(ns, b, digest);
    RemovalSpares(u, digest, dir, name, e, names[0]);
    if |names| == 2 {
      RemovalSpares(u, digest, DeleteEntry(dir, names[0]), name, e, names[1]);
    }
  }

  lemma {:induction false} RunStaysFiled(
    u: set<Namespace>, digest: Digest, ttl: int, d0: Dir, run: seq<Event>, start: int, ns: Namespace, e: Bytes)
    requires Isolated(u, digest) && ns in u && WellFiled(d0, u, digest) && IsSuffix(e)
    requires Timed(run, start) && forall i :: 0 <= i < |run| ==> EventOk(run[i], u)
    requires Spared(u, digest, EncodeNS(ns, digest) + e)
    ensures StaysFiled(Replay(d0, run, ttl, digest), LastOf(run, ns), EncodeNS(ns, digest), e, Clock(run, start), ttl)
  {
    if run != [] {
      var front, ev := run[..|run| - 1], run[|run| - 1];
      RunStaysFiled(u, digest, ttl, d0, front, start, ns, e);
      RunIsOwn(u, digest, ttl, d0, front, start, ns);
      StepStaysFiled(u, digest, ttl, Replay(d0, front, ttl, digest), d0, LastOf(front, ns), ns, ev, e, Clock(front, start));
    }
  }

  /** And the other way round: within its lifetime a put is answered fresh, a not-found
      mark is answered as absent, and after a delete nothing is cached. Where a path
      of the put is spelled like a cache name in play, what is left is a miss. */
  lemma {:induction false} LastWriteIsAnswered(
    u: set<Namespace>, digest: Digest, ttl: int, d0: Dir, run: seq<Event>, start: int, ns: Namespace, now: int)
    requires Isolated(u, digest) && Admissible(u, digest, d0, run, start, ns, now)
    requires Spared(u, digest, EncodeNS(ns, digest) + META_SUFFIX)
    ensures var dir, last := Replay(d0, run, ttl, digest), LastOf(run, ns);
            var answer := Get(dir, ns, now, ttl, digest);
            && (last.Wrote? && now - last.at <= ttl ==>
                  var manifest := EncodeNS(ns, digest) + Ext(last.file.filename);
                  && (if manifest in dir then answer.Fresh? else answer.NotCached?)
                  && (Spared(u, digest, manifest) ==> answer.Fresh?))
            && (last.Wrote? && now - last.at > ttl && EncodeNS(ns, digest) + META_SUFFIX in dir ==>
                  if EncodeNS(ns, digest) + Ext(last.file.filename) in dir
                  then answer.Stale? && IsPut(answer.file, last.file) else answer.NotCached?)
            && (last.Marked? && now - last.at <= ttl ==> answer == ConfirmedAbsent(last.commit))
            && (last.Marked? && now - last.at > ttl && EncodeNS(ns, digest) + META_SUFFIX in dir ==> answer.NotCached?)
            && (last.Removed? ==> answer.NotCached?)
  {
    RunIsOwn(u, digest, ttl, d0, run, start, ns);
    RunStaysFiled(u, digest, ttl, d0, run, start, ns, META_SUFFIX);
    var dir, last := Replay(d0, run, ttl, digest), LastOf(run, ns);
    AnswerIsLast(u, digest, ttl, dir, d0, last, ns, Clock(run, start), now);
    if last.Wrote? {
      Extensions();
      var e := Ext(last.file.filename);
      if Spared(u, digest, EncodeNS(ns, digest) + e) {
        RunStaysFiled(u, digest, ttl, d0, run, start, ns, e);
      }
    }
  }

  ghost predicate AnswersTo(dir: Dir, last: Last, name: Bytes, answer: Answer, now: int, ttl: int) {
    && (last.Wrote? && now - last.at <= ttl ==>
          if name + Ext(last.file.filename) in dir then answer.Fresh? else answer.NotCached?)
    && (last.Wrote? && now - last.at > ttl && name + META_SUFFIX in dir ==>
          if name + Ext(last.file.filename) in dir then answer.Stale? && IsPut(answer.file, last.file) else answer.NotCached?)
    && (last.Marked? && now - last.at <= ttl ==> answer == ConfirmedAbsent(last.commit))
    && (last.Marked? && now - last.at > ttl && name + META_SUFFIX in dir ==> answer.NotCached?)
    && (last.Removed? ==> answer.NotCached?)
  }

  lemma {:induction false} AnswerIsLast(
    u: set<Namespace>, digest: Digest, ttl: int, dir: Dir, d0: Dir, last: Last, ns: Namespace, clock: int,
    now: int)
    requires WellFiled(dir, u, digest) && ns in u && Own(dir, d0, last, ns, clock, ttl, digest) && clock <= now
    requires StaysFiled(dir, last, EncodeNS(ns, digest), META_SUFFIX, clock, ttl)
    ensures AnswersTo(dir, last, EncodeNS(ns, digest), Get(dir, ns, now, ttl, digest), now, ttl)
  {
    var name, answer := EncodeNS(ns, digest), Get(dir, ns, now, ttl, digest);
    WhatIsRead(dir, ns, now, ttl, digest);
    if name + META_SUFFIX in dir {
      CurrentAnswer(dir, d0, last, name, now, ttl);
    } else if last.Removed? {
      assert answer.NotCached?;
    }
  }

  lemma {:induction false} WhatIsRead(dir: Dir, ns: Namespace, now: int, ttl: int, digest: Digest)
    ensures var names, answer := CacheNames(ns, digest), Get(dir, ns, now, ttl, digest);
            && (names[0] + META_SUFFIX in dir ==> answer == AnswerFrom(dir, ReadMeta(dir, names[0]), names[0], now, ttl))
            && (names[0] + META_SUFFIX !in dir && (|names| == 2 ==> names[1] + META_SUFFIX !in dir) ==> answer.NotCached?)
  {
    var names := CacheNames(ns, digest);
    if names[0] + META_SUFFIX !in dir {
      if |names| == 2 {
        SecondOfTwo(dir, names);
      } else {
        NoneOfOne(dir, names);
      }
    }
  }

  /** An entry that an earlier version filed is still read while there is none under the
      current name, and deleted with it; unless its name is longer than a file's may be. */
  lemma {:induction false} EarlierEntriesCount(
    u: set<Namespace>, digest: Digest, dir: Dir, ns: Namespace, now: int, ttl: int)
    requires WellFiled(dir, u, digest) && EncodeNS(ns, digest) + META_SUFFIX !in dir
    requires |LegacyEncodeNS(ns)| + |META_SUFFIX| <= 255 && LegacyEncodeNS(ns) + META_SUFFIX in dir
    ensures var legacy := LegacyEncodeNS(ns);
            && dir[legacy + META_SUFFIX].MetaFile?
            && Get(dir, ns, now, ttl, digest) == AnswerFrom(dir, Found(dir[legacy + META_SUFFIX].meta), legacy, now, ttl)
            && legacy + META_SUFFIX !in DeleteAll(dir, CacheNames(ns, digest))
  {
    var names, legacy := CacheNames(ns, digest), LegacyEncodeNS(ns);
    EndsInMeta(legacy);
    assert names == [EncodeNS(ns, digest), legacy];
    SecondOfTwo(dir, names);
    TwoDeletions(u, digest, dir, names);
    DeleteRemoves(u, digest, DeleteEntry(dir, names[0]), legacy);
    DeleteRemoves(u, digest, dir, names[0]);
  }

  /** The entry at this name cannot be read: its meta, or the manifest that names. */
  ghost predicate CannotRead(dir: Dir, name: Bytes) {
    name + META_SUFFIX in dir &&
    (dir[name + META_SUFFIX].Manifest? ||
     (var m := dir[name + META_SUFFIX].meta;
      !m.notFound && name + Ext(m.filename) in dir && dir[name + Ext(m.filename)].MetaFile?))
  }

  /** A look-up fails exactly when the first entry there is cannot be read; it does not
      go on to the earlier one. */
  lemma {:induction false} FailsExactly(dir: Dir, ns: Namespace, now: int, ttl: int, digest: Digest)
    ensures var names := CacheNames(ns, digest);
            Get(dir, ns, now, ttl, digest).Failed? <==>
              if names[0] + META_SUFFIX in dir then CannotRead(dir, names[0])
              else |names| == 2 && CannotRead(dir, names[1])
  {
    var names := CacheNames(ns, digest);
    if names[0] + META_SUFFIX !in dir {
      if |names| == 2 {
        SecondOfTwo(dir, names);
      } else {
        NoneOfOne(dir, names);
      }
    }
  }

  lemma CurrentAnswer(dir: Dir, d0: Dir, last: Last, name: Bytes, now: int, ttl: int)
    requires name + META_SUFFIX in dir && MetaIsLast(dir, d0, last, name)
    ensures AnswersTo(dir, last, name, AnswerFrom(dir, ReadMeta(dir, name), name, now, ttl), now, ttl)
  {
    if last.Wrote? {
      WrittenHit(dir, last.at, last.file, name, now, ttl);
    }
  }

  // ------------------------------------- the default mark, its age and channels

  /** When the latest put that made the entry the default one was, among those since it
      was last marked as absent or deleted. */
  function DefaultSince(run: seq<Event>, ns: Namespace): Option<int> {
    if run == [] then None
    else
      var e, before := run[|run| - 1], DefaultSince(run[..|run| - 1], ns);
      if e.op.SweepOp? || e.op.ns != ns then before
      else if e.op.PutOp? then (if e.op.file.isDefault then Some(e.now) else before)
      else None
  }

  /** The channels of the latest put that carried any, among the same. */
  function ChannelsSince(run: seq<Event>, ns: Namespace): Bytes {
    if run == [] then []
    else
      var e, before := run[|run| - 1], ChannelsSince(run[..|run| - 1], ns);
      if e.op.SweepOp? || e.op.ns != ns then before
      else if e.op.PutOp? then (if e.op.file.channels != [] then e.op.file.channels else before)
      else []
  }

  /** No put of the namespace came so late that the one before it had expired. */
  ghost predicate Refreshed(run: seq<Event>, ns: Namespace, ttl: int) {
    run != [] ==>
      var front, e := run[..|run| - 1], run[|run| - 1];
      && Refreshed(front, ns, ttl)
      && (e.op.PutOp? && e.op.ns == ns && LastOf(front, ns).Wrote? ==> e.now - LastOf(front, ns).at <= ttl)
  }

  ghost predicate ViewIs(isDefault: bool, defaultAt: int, channels: Bytes, run: seq<Event>, ns: Namespace) {
    && (isDefault <==> DefaultSince(run, ns).Some?)
    && defaultAt == (if DefaultSince(run, ns).Some? then DefaultSince(run, ns).value else 0)
    && channels == ChannelsSince(run, ns)
  }

  ghost predicate MetaHasView(dir: Dir, name: Bytes, run: seq<Event>, ns: Namespace) {
    name + META_SUFFIX in dir ==>
      var f := dir[name + META_SUFFIX];
      f.MetaFile? && ViewIs(f.meta.isDefault, f.meta.defaultAt, f.meta.channels, run, ns)
  }

  ghost predicate NothingFiled(dir: Dir, ns: Namespace, digest: Digest) {
    forall name :: name in CacheNames(ns, digest) ==> name + META_SUFFIX !in dir
  }

  /** A put merges what it does not set from the entry before it. */
  lemma {:induction false} PutHasView(
    dir: Dir, front: seq<Event>, e: Event, ns: Namespace, digest: Digest)
    requires e.op.PutOp? && e.op.ns == ns && ManifestName(e.op.file.filename)
    requires MetaHasView(dir, EncodeNS(ns, digest), front, ns)
    requires |CacheNames(ns, digest)| == 2 ==> CacheNames(ns, digest)[1] + META_SUFFIX !in dir
    requires EncodeNS(ns, digest) + META_SUFFIX !in dir ==> DefaultSince(front, ns).None? && ChannelsSince(front, ns) == []
    ensures MetaHasView(Put(dir, ns, e.op.file, e.now, digest), EncodeNS(ns, digest), front + [e], ns)
  {
    assert (front + [e])[..|front|] == front;
    var names, file := CacheNames(ns, digest), e.op.file;
    PathsDiffer2(names[0]);
    var written := dir[names[0] + Ext(file.filename) := Manifest(file.content)];
    if |names| == 2 {
      PathsDiffer(names[0], names[1]);
    }
    ReadsOwn(written, dir, ns, digest);
  }

  /** What a put finds of the entry before it. */
  lemma {:induction false} ReadsOwn(written: Dir, dir: Dir, ns: Namespace, digest: Digest)
    requires var name := EncodeNS(ns, digest);
             && (name + META_SUFFIX in written <==> name + META_SUFFIX in dir)
             && (name + META_SUFFIX in dir ==> written[name + META_SUFFIX] == dir[name + META_SUFFIX])
    requires |CacheNames(ns, digest)| == 2 ==> CacheNames(ns, digest)[1] + META_SUFFIX !in written
    ensures ReadFirst(written, CacheNames(ns, digest)).0 == ReadMeta(dir, EncodeNS(ns, digest))
  {
    var names := CacheNames(ns, digest);
    if names[0] + META_SUFFIX !in dir {
      if |names| == 2 {
        SecondOfTwo(written, names);
      } else {
        NoneOfOne(written, names);
      }
    }
  }

  /** Any other step leaves the meta as it was, or removes it. */
  lemma {:induction false} OthersLeaveMeta(
    u: set<Namespace>, digest: Digest, ttl: int, dir: Dir, ns: Namespace, e: Event)
    requires Isolated(u, digest) && ns in u && EventOk(e, u) && (e.op.SweepOp? || e.op.ns != ns)
    ensures var path, after := EncodeNS(ns, digest) + META_SUFFIX, Apply(dir, e, ttl, digest);
            path in after ==> path in dir && after[path] == dir[path]
  {
    var name := EncodeNS(ns, digest);
    match e.op
    case PutOp(b, file) =>
      OthersNamesDiffer(u, digest, ns, b, EncodeNS(b, digest));
      PutLeaves(digest, dir, name, b, file, e.now);
    case NotFoundOp(b, commit) =>
      OthersNamesDiffer(u, digest, ns, b, EncodeNS(b, digest));
      MarkLeaves(digest, dir, name, b, commit, e.now);
    case DeleteOp(b) => DeleteOnlyRemoves(dir, CacheNames(b, digest));
    case SweepOp(n) =>
  }

  lemma {:induction false} DeleteOnlyRemoves(dir: Dir, names: seq<Bytes>)
    ensures forall p :: p in DeleteAll(dir, names) ==> p in dir && DeleteAll(dir, names)[p] == dir[p]
  {
    if names != [] && !ReadMeta(dir, names[0]).Unreadable? {
      DeleteOnlyRemoves(DeleteEntry(dir, names[0]), names[1..]);
    }
  }

  lemma {:induction false} NoHistoryNoView(run: seq<Event>, ns: Namespace)
    ensures !LastOf(run, ns).Wrote? ==> DefaultSince(run, ns).None? && ChannelsSince(run, ns) == []
  {
    if run != [] {
      NoHistoryNoView(run[..|run| - 1], ns);
    }
  }

  lemma {:induction false} RunHasView(
    u: set<Namespace>, digest: Digest, ttl: int, d0: Dir, run: seq<Event>, start: int, ns: Namespace)
    requires Isolated(u, digest) && ns in u && WellFiled(d0, u, digest) && NothingFiled(d0, ns, digest)
    requires Timed(run, start) && forall i :: 0 <= i < |run| ==> EventOk(run[i], u)
    requires Spared(u, digest, EncodeNS(ns, digest) + META_SUFFIX) && Refreshed(run, ns, ttl)
    ensures MetaHasView(Replay(d0, run, ttl, digest), EncodeNS(ns, digest), run, ns)
  {
    if run == [] {
      NothingCurrent(d0, ns, digest);
    } else {
      var front, e := run[..|run| - 1], run[|run| - 1];
      RunHasView(u, digest, ttl, d0, front, start, ns);
      StepHasView(u, digest, ttl, d0, front, e, start, ns);
      FrontAndLast(run);
    }
  }

  lemma NothingCurrent(dir: Dir, ns: Namespace, digest: Digest)
    requires NothingFiled(dir, ns, digest)
    ensures EncodeNS(ns, digest) + META_SUFFIX !in dir
  {
    assert EncodeNS(ns, digest) in CacheNames(ns, digest);
  }

  lemma FrontAndLast(run: seq<Event>)
    requires run != []
    ensures run[..|run| - 1] + [run[|run| - 1]] == run
  {
  }

  lemma {:induction false} StepHasView(
    u: set<Namespace>, digest: Digest, ttl: int, d0: Dir, front: seq<Event>, e: Event, start: int, ns: Namespace)
    requires Isolated(u, digest) && ns in u && WellFiled(d0, u, digest) && NothingFiled(d0, ns, digest) && EventOk(e, u)
    requires Timed(front, start) && forall i :: 0 <= i < |front| ==> EventOk(front[i], u)
    requires Spared(u, digest, EncodeNS(ns, digest) + META_SUFFIX) && Clock(front, start) <= e.now
    requires e.op.PutOp? && e.op.ns == ns && LastOf(front, ns).Wrote? ==> e.now - LastOf(front, ns).at <= ttl
    requires MetaHasView(Replay(d0, front, ttl, digest), EncodeNS(ns, digest), front, ns)
    ensures MetaHasView(Apply(Replay(d0, front, ttl, digest), e, ttl, digest), EncodeNS(ns, digest), front + [e], ns)
  {
    var dir := Replay(d0, front, ttl, digest);
    if e.op.PutOp? && e.op.ns == ns {
      BeforeThePut(u, digest, ttl, d0, front, start, ns, e.now);
      PutHasView(dir, front, e, ns, digest);
    } else {
      RunIsOwn(u, digest, ttl, d0, front, start, ns);
      OtherStepHasView(u, digest, ttl, dir, front, e, ns);
    }
  }

  lemma {:induction false} OtherStepHasView(
    u: set<Namespace>, digest: Digest, ttl: int, dir: Dir, front: seq<Event>, e: Event, ns: Namespace)
    requires Isolated(u, digest) && ns in u && WellFiled(dir, u, digest) && EventOk(e, u)
    requires MetaHasView(dir, EncodeNS(ns, digest), front, ns) && !(e.op.PutOp? && e.op.ns == ns)
    ensures MetaHasView(Apply(dir, e, ttl, digest), EncodeNS(ns, digest), front + [e], ns)
  {
    assert (front + [e])[..|front|] == front;
    if e.op.SweepOp? || e.op.ns != ns {
      OthersLeaveMeta(u, digest, ttl, dir, ns, e);
    } else if e.op.DeleteOp? {
      DeleteForgets(u, digest, dir, ns);
    }
  }

  lemma {:induction false} DeleteForgets(u: set<Namespace>, digest: Digest, dir: Dir, ns: Namespace)
    requires WellFiled(dir, u, digest)
    ensures EncodeNS(ns, digest) + META_SUFFIX !in DeleteAll(dir, CacheNames(ns, digest))
  {
    TwoDeletions(u, digest, dir, CacheNames(ns, digest));
    DeleteRemoves(u, digest, dir, EncodeNS(ns, digest));
  }

  /** Where a put finds no entry of its own there was nothing to keep. */
  lemma {:induction false} BeforeThePut(
    u: set<Namespace>, digest: Digest, ttl: int, d0: Dir, front: seq<Event>, start: int, ns: Namespace, now: int)
    requires Isolated(u, digest) && ns in u && WellFiled(d0, u, digest) && NothingFiled(d0, ns, digest)
    requires Timed(front, start) && forall i :: 0 <= i < |front| ==> EventOk(front[i], u)
    requires Spared(u, digest, EncodeNS(ns, digest) + META_SUFFIX) && Clock(front, start) <= now
    requires LastOf(front, ns).Wrote? ==> now - LastOf(front, ns).at <= ttl
    ensures var dir, names := Replay(d0, front, ttl, digest), CacheNames(ns, digest);
            && (|names| == 2 ==> names[1] + META_SUFFIX !in dir)
            && (names[0] + META_SUFFIX !in dir ==> DefaultSince(front, ns).None? && ChannelsSince(front, ns) == [])
  {
    RunIsOwn(u, digest, ttl, d0, front, start, ns);
    RunStaysFiled(u, digest, ttl, d0, front, start, ns, META_SUFFIX);
    NoHistoryNoView(front, ns);
    NothingEarlier(Replay(d0, front, ttl, digest), d0, LastOf(front, ns), ns, Clock(front, start), ttl, digest);
  }

  /** From an empty cache, as long as each put comes within the lifetime of the one
      before it, a hit is the default one exactly when some put since the last absence
      or deletion made it so, dated by the latest of these, and has the channels of the
      latest put that carried any. */
  lemma {:induction false} HitsKeepTheirMark(
    u: set<Namespace>, digest: Digest, ttl: int, d0: Dir, run: seq<Event>, start: int, ns: Namespace, now: int)
    requires Isolated(u, digest) && Admissible(u, digest, d0, run, start, ns, now) && NothingFiled(d0, ns, digest)
    requires Spared(u, digest, EncodeNS(ns, digest) + META_SUFFIX) && Refreshed(run, ns, ttl)
    ensures var answer := Get(Replay(d0, run, ttl, digest), ns, now, ttl, digest);
            answer.Fresh? || answer.Stale? ==>
              ViewIs(answer.file.isDefault, answer.file.defaultAt, answer.file.channels, run, ns)
  {
    RunHasView(u, digest, ttl, d0, run, start, ns);
    var dir := Replay(d0, run, ttl, digest);
    assert |CacheNames(ns, digest)| == 2 ==> CacheNames(ns, digest)[1] + META_SUFFIX !in dir by {
      RunIsOwn(u, digest, ttl, d0, run, start, ns);
      NothingEarlier(dir, d0, LastOf(run, ns), ns, Clock(run, start), ttl, digest);
    }
    WhatIsRead(dir, ns, now, ttl, digest);
    AnswerHasView(dir, EncodeNS(ns, digest), run, ns, now, ttl);
  }

  lemma NothingEarlier(dir: Dir, d0: Dir, last: Last, ns: Namespace, now: int, ttl: int, digest: Digest)
    requires Own(dir, d0, last, ns, now, ttl, digest) && NothingFiled(d0, ns, digest)
    ensures |CacheNames(ns, digest)| == 2 ==> CacheNames(ns, digest)[1] + META_SUFFIX !in dir
  {
    var names := CacheNames(ns, digest);
    assert |names| == 2 ==> names[1] in names;
  }

  lemma AnswerHasView(dir: Dir, name: Bytes, run: seq<Event>, ns: Namespace, now: int, ttl: int)
    requires MetaHasView(dir, name, run, ns)
    ensures var answer := AnswerFrom(dir, ReadMeta(dir, name), name, now, ttl);
            answer.Fresh? || answer.Stale? ==>
              ViewIs(answer.file.isDefault, answer.file.defaultAt, answer.file.channels, run, ns)
  {
  }

  lemma NoneOfOne(dir: Dir, names: seq<Bytes>)
    requires |names| == 1 && ReadMeta(dir, names[0]).Missing?
    ensures ReadFirst(dir, names) == (Missing, [])
  {
    assert names[1..] == [] && ReadFirst(dir, names[1..]) == (Missing, []);
  }

  lemma SecondOfTwo(dir: Dir, names: seq<Bytes>)
    requires |names| == 2 && ReadMeta(dir, names[0]).Missing?
    ensures var (read, name) := ReadFirst(dir, names);
            read == ReadMeta(dir, names[1]) && (!read.Missing? ==> name == names[1])
  {
    var rest := names[1..];
    assert rest[0] == names[1] && rest[1..] == [];
    assert ReadFirst(dir, names) == ReadFirst(dir, rest);
    assert ReadFirst(dir, rest[1..]) == (Missing, []);
  }
}
