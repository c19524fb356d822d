/** Exactly which cache names interfere. Deleting or sweeping a not-found mark removes
    the path its bare name spells, so two namespaces interfere when one writes under
    a name of the other, or when a name of one is a path the other's entry is filed
    under; and only then. */
module CacheTwins {
  import opened Wrappers
  import opened Percent
  import opened PathSafe
  import opened VaultCache
  import opened CacheIsolation

  // ---------------------------------------------- exactly when names interfere

  function Plain(content: Bytes): ManifestFile {
    ManifestFile(content, ARROW_MD, [], [], false, 0, [])
  }

  /** A not-found mark as an earlier run left it. */
  function OldMark(ns: Namespace): File {
    MetaFile(Meta(0, [], ns, true, [], [], false, 0, []))
  }

  lemma OneMore(dir: Dir, run: seq<Event>, e: Event, start: int, ns: Namespace, ttl: int, digest: Digest)
    ensures Replay(dir, run + [e], ttl, digest) == Apply(Replay(dir, run, ttl, digest), e, ttl, digest)
    ensures LastOf(run + [e], ns) == Next(LastOf(run, ns), e, ns)
    ensures Timed(run, start) && Clock(run, start) <= e.now ==> Timed(run + [e], start)
    ensures Clock(run + [e], start) == e.now
  {
    assert (run + [e])[..|run|] == run;
  }

  lemma OneStep(dir: Dir, e1: Event, start: int, ns: Namespace, ttl: int, digest: Digest)
    requires start <= e1.now
    ensures Replay(dir, [e1], ttl, digest) == Apply(dir, e1, ttl, digest)
    ensures LastOf([e1], ns) == Next(Untouched, e1, ns) && Timed([e1], start) && Clock([e1], start) == e1.now
  {
    OneMore(dir, [], e1, start, ns, ttl, digest);
    assert [] + [e1] == [e1];
  }

  lemma TwoSteps(dir: Dir, e1: Event, e2: Event, start: int, ns: Namespace, ttl: int, digest: Digest)
    requires start <= e1.now <= e2.now
    ensures Replay(dir, [e1, e2], ttl, digest) == Apply(Apply(dir, e1, ttl, digest), e2, ttl, digest)
    ensures LastOf([e1, e2], ns) == Next(Next(Untouched, e1, ns), e2, ns)
    ensures Timed([e1, e2], start) && Clock([e1, e2], start) == e2.now
  {
    OneStep(dir, e1, start, ns, ttl, digest);
    OneMore(dir, [e1], e2, start, ns, ttl, digest);
    assert [e1] + [e2] == [e1, e2];
  }

  lemma AdmissibleTwo(u: set<Namespace>, digest: Digest, d0: Dir, e1: Event, e2: Event, start: int, ns: Namespace)
    requires ns in u && WellFiled(d0, u, digest) && FilesBefore(d0, start)
    requires EventOk(e1, u) && EventOk(e2, u) && start <= e1.now <= e2.now
    ensures Admissible(u, digest, d0, [e1, e2], start, ns, e2.now)
  {
    assert [e1, e2][..1] == [e1] && [e1][..0] == [];
    assert forall i :: 0 <= i < 2 ==> [e1, e2][i] == e1 || [e1, e2][i] == e2;
  }

  lemma AdmissibleOne(u: set<Namespace>, digest: Digest, d0: Dir, e: Event, start: int, ns: Namespace)
    requires ns in u && WellFiled(d0, u, digest) && FilesBefore(d0, start) && EventOk(e, u) && start <= e.now
    ensures Admissible(u, digest, d0, [e], start, ns, e.now)
  {
    assert [e][..0] == [];
  }

  /** A look-up right after a put finds it under the put's name. */
  lemma {:induction false} PutIsFound(
    dir: Dir, a: Namespace, file: ManifestFile, at: int, now: int, ttl: int, digest: Digest)
    requires ManifestName(file.filename) && now - at <= ttl
    ensures var after, name := Put(dir, a, file, at, digest), EncodeNS(a, digest);
            var answer := AnswerFrom(after, ReadMeta(after, name), name, now, ttl);
            answer.Fresh? && answer.file.content == file.content
  {
    PutIsCurrent(digest, dir, dir, a, file, at);
    WrittenHit(Put(dir, a, file, at, digest), at, file, EncodeNS(a, digest), now, ttl);
  }

  /** Where nothing is filed under the earlier name and a path of the put is gone, the
      put is missed. */
  lemma {:induction false} MissesWithout(
    dir: Dir, a: Namespace, e: Bytes, filename: Bytes, now: int, ttl: int, digest: Digest)
    requires EncodeNS(a, digest) + e !in dir && (e == META_SUFFIX || e == Ext(filename))
    requires var path := EncodeNS(a, digest) + META_SUFFIX;
             path in dir ==> dir[path].MetaFile? && !dir[path].meta.notFound && dir[path].meta.filename == filename
    requires |CacheNames(a, digest)| == 2 ==> CacheNames(a, digest)[1] + META_SUFFIX !in dir
    ensures Get(dir, a, now, ttl, digest).NotCached?
  {
    WhatIsRead(dir, a, now, ttl, digest);
  }

  /** Sweeping an expired mark removes the path its name spells. */
  lemma {:induction false} SweepRemovesNamesake(digest: Digest, ttl: nat, dir: Dir, b: Namespace, name: Bytes)
    requires name in CacheNames(b, digest) && name + META_SUFFIX in dir && dir[name + META_SUFFIX] == OldMark(b)
    ensures SweepEntry(dir, name, ttl + 1, ttl) == dir - {name} - {name + META_SUFFIX}
  {
    MarkIsKnown(digest, dir, b, name);
    Extensions();
    assert name + [] == name;
  }

  /** The namespace of an entry can be told from its name or its meta. */
  lemma {:induction false} MarkIsKnown(digest: Digest, dir: Dir, b: Namespace, name: Bytes)
    requires name in CacheNames(b, digest) && name + META_SUFFIX in dir
    requires dir[name + META_SUFFIX].MetaFile? && dir[name + META_SUFFIX].meta.ns == b
    ensures CachedNamespace(dir, name).Some?
  {
    NamesDecode(b);
    if b == [] {
      EmptyName(digest);
    }
    CappedHasTilde(PlainName(b), b, digest);
  }

  /** A sweep removes an entry that names its namespace, meta and manifest, exactly when
      it has expired, and nothing else. */
  lemma {:induction false} SweepIsExact(
    digest: Digest, dir: Dir, b: Namespace, name: Bytes, m: Meta, now: int, ttl: int)
    requires name in CacheNames(b, digest) && name + META_SUFFIX in dir
    requires dir[name + META_SUFFIX] == MetaFile(m) && m.ns == b
    ensures var after := SweepEntry(dir, name, now, ttl);
            forall p :: p in dir ==>
              && (p in after <==> m.cachedAt + ttl >= now || (p != name + META_SUFFIX && p != name + Ext(m.filename)))
              && (p in after ==> after[p] == dir[p])
    ensures SweepEntry(dir, name, now, ttl).Keys <= dir.Keys
  {
    MarkIsKnown(digest, dir, b, name);
  }

  /** What a put or a mark writes, whatever its name was cut to, is swept once it has
      expired and not before. */
  lemma {:induction false} WritesAreSweptInTime(
    digest: Digest, dir: Dir, ns: Namespace, file: ManifestFile, commit: Bytes, at: int, now: int, ttl: int)
    requires ManifestName(file.filename)
    ensures var name := EncodeNS(ns, digest);
            && (name + META_SUFFIX in SweepEntry(Put(dir, ns, file, at, digest), name, now, ttl) <==> now - at <= ttl)
            && (name + META_SUFFIX in SweepEntry(PutNotFound(dir, ns, commit, at, digest), name, now, ttl) <==> now - at <= ttl)
  {
    var name := EncodeNS(ns, digest);
    MarkIsKnown(digest, Put(dir, ns, file, at, digest), ns, name);
    MarkIsKnown(digest, PutNotFound(dir, ns, commit, at, digest), ns, name);
  }

  lemma EmptyName(digest: Digest)
    ensures CacheNames([], digest) == [[]]
  {
    assert PathMask([]) == [] && PlainName([]) == [] && LegacyEncodeNS([]) == [];
  }

  lemma {:induction false} PutKeepsNamesake(
    dir: Dir, a: Namespace, file: ManifestFile, at: int, digest: Digest, name: Bytes)
    requires ManifestName(file.filename) && name != EncodeNS(a, digest)
    ensures var after := Put(dir, a, file, at, digest);
            && (name + META_SUFFIX in after <==> name + META_SUFFIX in dir)
            && (name + META_SUFFIX in dir ==> after[name + META_SUFFIX] == dir[name + META_SUFFIX])
            && (name + MD in dir ==> name + MD in after && after[name + MD] == dir[name + MD])
  {
    Extensions();
    PathsDiffer(name, EncodeNS(a, digest));
  }

  lemma FromNothing(u: set<Namespace>, digest: Digest)
    ensures WellFiled(map[], u, digest) && FilesBefore(map[], 0)
  {
  }

  /** A namespace that writes under another's cache name misleads one of the two: its
      own put is overwritten, or the other reads it as its own. */
  lemma {:induction false} SharedNameMisleads(u: set<Namespace>, digest: Digest, ttl: nat, a: Namespace, b: Namespace)
      returns (run: seq<Event>, ns: Namespace)
    requires a in u && b in u && a != b && EncodeNS(a, digest) in CacheNames(b, digest)
    ensures Admissible(u, digest, map[], run, 0, ns, 0) && Misled(digest, ttl, map[], run, ns, 0)
  {
    Extensions();
    FromNothing(u, digest);
    var e1 := Event(0, PutOp(a, Plain([])));
    if EncodeNS(a, digest) == EncodeNS(b, digest) {
      var e2 := Event(0, PutOp(b, Plain(['x'])));
      run, ns := [e1, e2], a;
      AdmissibleTwo(u, digest, map[], e1, e2, 0, a);
      TwoSteps(map[], e1, e2, 0, ns, ttl, digest);
      Overwritten(digest, ttl, a, b);
    } else {
      run, ns := [e1], b;
      AdmissibleOne(u, digest, map[], e1, 0, b);
      OneStep(map[], e1, 0, ns, ttl, digest);
      ReadAsOwn(digest, ttl, a, b);
    }
  }

  lemma {:induction false} Overwritten(digest: Digest, ttl: nat, a: Namespace, b: Namespace)
    requires EncodeNS(a, digest) == EncodeNS(b, digest)
    ensures var dir := Put(Put(map[], a, Plain([]), 0, digest), b, Plain(['x']), 0, digest);
            var answer := Get(dir, a, 0, ttl, digest);
            answer.Fresh? && answer.file.content == ['x']
  {
    Extensions();
    PutIsFound(Put(map[], a, Plain([]), 0, digest), b, Plain(['x']), 0, 0, ttl, digest);
  }

  lemma {:induction false} ReadAsOwn(digest: Digest, ttl: nat, a: Namespace, b: Namespace)
    requires EncodeNS(a, digest) in CacheNames(b, digest) && EncodeNS(a, digest) != EncodeNS(b, digest)
    ensures Get(Put(map[], a, Plain([]), 0, digest), b, 0, ttl, digest).Fresh?
  {
    Extensions();
    var d0: Dir := map[];
    PutIsFound(d0, a, Plain([]), 0, 0, ttl, digest);
    PutKeepsNamesake(d0, a, Plain([]), 0, digest, EncodeNS(b, digest));
    SecondOfTwo(Put(d0, a, Plain([]), 0, digest), CacheNames(b, digest));
  }

  const EARLIER: Meta := Meta(1, ARROW_MD, [], false, [], [], false, 0, [])

  /** The earlier entry of a namespace, and an expired mark under another's name. */
  function TwinDir(legacy: Bytes, name: Bytes, b: Namespace): Dir {
    map[][legacy + MD := Manifest([])][legacy + META_SUFFIX := MetaFile(EARLIER)][name + META_SUFFIX := OldMark(b)]
  }

  lemma FiledToo(u: set<Namespace>, digest: Digest, dir: Dir, p: Bytes, f: File, start: int)
    requires WellFiled(dir, u, digest) && FilesBefore(dir, start)
    requires f.MetaFile? <==> EndsWith(p, META_SUFFIX)
    requires f.MetaFile? ==> OwnMeta(u, digest, p) && NamesManifest(f.meta) && f.meta.cachedAt <= start
    ensures WellFiled(dir[p := f], u, digest) && FilesBefore(dir[p := f], start)
  {
  }

  lemma {:induction false} TwinDirIsFiled(
    u: set<Namespace>, digest: Digest, a: Namespace, legacy: Bytes, b: Namespace, name: Bytes)
    requires a in u && legacy in CacheNames(a, digest) && b in u && name in CacheNames(b, digest)
    ensures WellFiled(TwinDir(legacy, name, b), u, digest) && FilesBefore(TwinDir(legacy, name, b), 1)
  {
    Extensions();
    EndsInMeta(legacy);
    EndsInMeta(name);
    SameLastByte(legacy + MD, META_SUFFIX);
    assert OwnMeta(u, digest, legacy + META_SUFFIX) && OwnMeta(u, digest, name + META_SUFFIX);
    FromNothing(u, digest);
    var d1: Dir := map[][legacy + MD := Manifest([])];
    FiledToo(u, digest, map[], legacy + MD, Manifest([]), 1);
    FiledToo(u, digest, d1, legacy + META_SUFFIX, MetaFile(EARLIER), 1);
    FiledToo(u, digest, d1[legacy + META_SUFFIX := MetaFile(EARLIER)], name + META_SUFFIX, OldMark(b), 1);
  }

  lemma TwinDirHolds(legacy: Bytes, name: Bytes, b: Namespace)
    requires legacy != name
    ensures var d := TwinDir(legacy, name, b);
            HoldsEarlier(d, legacy) && name + META_SUFFIX in d && d[name + META_SUFFIX] == OldMark(b)
  {
    PathsDiffer(legacy, name);
    PathsDiffer2(legacy);
  }

  ghost predicate HoldsEarlier(dir: Dir, legacy: Bytes) {
    && legacy + MD in dir && dir[legacy + MD] == Manifest([])
    && legacy + META_SUFFIX in dir && dir[legacy + META_SUFFIX] == MetaFile(EARLIER)
  }

  /** A namespace one of whose cache names is the meta path of another that still has
      an earlier name: the other's put is lost and its earlier entry answers. */
  lemma {:induction false} MetaTwinMisleads(u: set<Namespace>, digest: Digest, ttl: nat, a: Namespace, b: Namespace)
      returns (d0: Dir, run: seq<Event>)
    requires a in u && b in u && a != b && |CacheNames(a, digest)| == 2
    requires EncodeNS(a, digest) + META_SUFFIX in CacheNames(b, digest)
    requires EncodeNS(b, digest) !in CacheNames(a, digest)
    ensures Admissible(u, digest, d0, run, 1, a, ttl + 1) && Misled(digest, ttl, d0, run, a, ttl + 1)
  {
    Extensions();
    var legacy, name := CacheNames(a, digest)[1], EncodeNS(a, digest) + META_SUFFIX;
    LegacyIsNoTwin(a, b, digest, name);
    d0 := TwinDir(legacy, name, b);
    TwinDirIsFiled(u, digest, a, legacy, b, name);
    TwinDirHolds(legacy, name, b);
    var e1, e2 := Event(ttl + 1, PutOp(a, Plain(['x']))), Event(ttl + 1, SweepOp(name));
    run := [e1, e2];
    AdmissibleTwo(u, digest, d0, e1, e2, 1, a);
    TwoSteps(d0, e1, e2, 1, a, ttl, digest);
    EarlierEntryAnswers(digest, ttl, d0, a, b);
  }

  lemma {:induction false} LegacyIsNoTwin(a: Namespace, b: Namespace, digest: Digest, name: Bytes)
    requires a != b && |CacheNames(a, digest)| == 2 && name in CacheNames(b, digest)
    requires EncodeNS(b, digest) !in CacheNames(a, digest)
    ensures CacheNames(a, digest)[1] != name
  {
    NamesDecode(a);
    NamesDecode(b);
  }

  lemma {:induction false} EarlierEntryAnswers(digest: Digest, ttl: nat, d0: Dir, a: Namespace, b: Namespace)
    requires |CacheNames(a, digest)| == 2
    requires var name := EncodeNS(a, digest) + META_SUFFIX;
             && name in CacheNames(b, digest) && CacheNames(a, digest)[1] != name
             && name + META_SUFFIX in d0 && d0[name + META_SUFFIX] == OldMark(b)
    requires HoldsEarlier(d0, CacheNames(a, digest)[1])
    ensures var d1 := Put(d0, a, Plain(['x']), ttl + 1, digest);
            var answer := Get(SweepEntry(d1, EncodeNS(a, digest) + META_SUFFIX, ttl + 1, ttl), a, ttl + 1, ttl, digest);
            answer.Fresh? && answer.file.content == []
  {
    Extensions();
    var names, name := CacheNames(a, digest), EncodeNS(a, digest) + META_SUFFIX;
    var d1 := Put(d0, a, Plain(['x']), ttl + 1, digest);
    PutKeepsNamesake(d0, a, Plain(['x']), ttl + 1, digest, name);
    PutKeepsNamesake(d0, a, Plain(['x']), ttl + 1, digest, names[1]);
    SweepRemovesNamesake(digest, ttl, d1, b, name);
    var dir := d1 - {name} - {name + META_SUFFIX};
    PathsDiffer(names[1], names[0]);
    PathsDiffer(names[1], name);
    EarlierIsRead(digest, ttl, dir, a);
  }

  lemma {:induction false} EarlierIsRead(digest: Digest, ttl: nat, dir: Dir, a: Namespace)
    requires |CacheNames(a, digest)| == 2 && EncodeNS(a, digest) + META_SUFFIX !in dir
    requires HoldsEarlier(dir, CacheNames(a, digest)[1])
    ensures var answer := Get(dir, a, ttl + 1, ttl, digest);
            answer.Fresh? && answer.file.content == []
  {
    Extensions();
    SecondOfTwo(dir, CacheNames(a, digest));
  }

  /** All answers are a namespace's own in every run exactly when the names in play are
      isolated, and where they are not some run ends in a fresh hit that is another's. */
  lemma {:induction false} IsolationIsExact(u: set<Namespace>, digest: Digest, ttl: nat)
    ensures Isolated(u, digest) <==>
            forall d0, run, start, ns, now :: Admissible(u, digest, d0, run, start, ns, now) ==> AnswersOwn(digest, ttl, d0, run, ns, now)
    ensures Isolated(u, digest) <==>
            forall d0, run, start, ns, now :: Admissible(u, digest, d0, run, start, ns, now) ==> !Misled(digest, ttl, d0, run, ns, now)
  {
    if Isolated(u, digest) {
      forall d0, run, start, ns, now | Admissible(u, digest, d0, run, start, ns, now) ensures AnswersOwn(digest, ttl, d0, run, ns, now) {
        AnswersAreOwn(u, digest, ttl, d0, run, start, ns, now);
      }
    } else {
      var a, b :| a in u && b in u && a != b && !KeepsOff(a, b, digest);
      if EncodeNS(a, digest) in CacheNames(b, digest) {
        var run, ns := SharedNameMisleads(u, digest, ttl, a, b);
      } else if EncodeNS(b, digest) in CacheNames(a, digest) {
        var run, ns := SharedNameMisleads(u, digest, ttl, b, a);
      } else {
        var d0, run := MetaTwinMisleads(u, digest, ttl, a, b);
      }
    }
  }

  // ------------------------------------------------- exactly when puts are lost

  /** Deleting a namespace under one of whose names another writes deletes both. */
  lemma {:induction false} SharedNameLoses(u: set<Namespace>, digest: Digest, ttl: nat, a: Namespace, b: Namespace)
      returns (run: seq<Event>)
    requires a in u && b in u && a != b && EncodeNS(a, digest) in CacheNames(b, digest)
    ensures Admissible(u, digest, map[], run, 0, a, 0) && !AnswersLast(digest, ttl, map[], run, a, 0)
  {
    Extensions();
    var e1, e2 := Event(0, PutOp(a, Plain([]))), Event(0, DeleteOp(b));
    run := [e1, e2];
    FromNothing(u, digest);
    AdmissibleTwo(u, digest, map[], e1, e2, 0, a);
    NotAnswered(digest, ttl, map[], run, a, Plain([]), 0) by {
      TwoSteps(map[], e1, e2, 0, a, ttl, digest);
      DeletedToo(u, digest, ttl, a, b);
    }
  }

  lemma {:induction false} DeletedToo(u: set<Namespace>, digest: Digest, ttl: nat, a: Namespace, b: Namespace)
    requires a in u && b in u && EncodeNS(a, digest) in CacheNames(b, digest)
    ensures Get(DeleteAll(Put(map[], a, Plain([]), 0, digest), CacheNames(b, digest)), a, 0, ttl, digest).NotCached?
  {
    Extensions();
    var d0: Dir, names := map[], CacheNames(b, digest);
    var d1 := Put(d0, a, Plain([]), 0, digest);
    FromNothing(u, digest);
    PutIsFiled(u, digest, d0, a, Plain([]), 0);
    AllDeleted(u, digest, d1, b);
    if |CacheNames(a, digest)| == 2 {
      PutKeepsNamesake(d0, a, Plain([]), 0, digest, CacheNames(a, digest)[1]);
    }
    MissesWithout(DeleteAll(d1, names), a, META_SUFFIX, ARROW_MD, 0, ttl, digest);
  }

  lemma {:induction false} AllDeleted(u: set<Namespace>, digest: Digest, dir: Dir, b: Namespace)
    requires WellFiled(dir, u, digest)
    ensures var after := DeleteAll(dir, CacheNames(b, digest));
            && after.Keys <= dir.Keys
            && forall name :: name in CacheNames(b, digest) ==> name + META_SUFFIX !in after
  {
    var names := CacheNames(b, digest);
    TwoDeletions(u, digest, dir, names);
    DeleteRemoves(u, digest, dir, names[0]);
    if |names| == 2 {
      DeleteRemoves(u, digest, DeleteEntry(dir, names[0]), names[1]);
    }
  }

  function Named(e: Bytes): ManifestFile {
    Plain([]).(filename := if e == YAML then ARROW_YAML else ARROW_MD)
  }

  function MarkDir(b: Namespace, name: Bytes): Dir {
    map[][name + META_SUFFIX := OldMark(b)]
  }

  lemma {:induction false} MarkDirIsFiled(u: set<Namespace>, digest: Digest, b: Namespace, name: Bytes)
    requires b in u && name in CacheNames(b, digest)
    ensures WellFiled(MarkDir(b, name), u, digest) && FilesBefore(MarkDir(b, name), 0)
  {
    EndsInMeta(name);
    assert OwnMeta(u, digest, name + META_SUFFIX);
    FromNothing(u, digest);
    FiledToo(u, digest, map[], name + META_SUFFIX, OldMark(b), 0);
  }

  /** Sweeping an expired mark under a cache name that spells a path of another's put
      loses the put. */
  lemma {:induction false} TwinLoses(u: set<Namespace>, digest: Digest, ttl: nat, a: Namespace, b: Namespace, e: Bytes)
      returns (d0: Dir, run: seq<Event>)
    requires a in u && b in u && IsSuffix(e) && EncodeNS(a, digest) + e in CacheNames(b, digest)
    ensures Admissible(u, digest, d0, run, 0, a, ttl + 1) && !AnswersLast(digest, ttl, d0, run, a, ttl + 1)
  {
    Extensions();
    var name := EncodeNS(a, digest) + e;
    d0 := MarkDir(b, name);
    MarkDirIsFiled(u, digest, b, name);
    var e1, e2 := Event(ttl + 1, PutOp(a, Named(e))), Event(ttl + 1, SweepOp(name));
    run := [e1, e2];
    AdmissibleTwo(u, digest, d0, e1, e2, 0, a);
    SweptRun(digest, ttl, d0, e1, e2, a, b, e);
  }

  lemma {:induction false} SweptRun(
    digest: Digest, ttl: nat, d0: Dir, e1: Event, e2: Event, a: Namespace, b: Namespace, e: Bytes)
    requires IsSuffix(e) && EncodeNS(a, digest) + e in CacheNames(b, digest) && d0 == MarkDir(b, EncodeNS(a, digest) + e)
    requires e1 == Event(ttl + 1, PutOp(a, Named(e))) && e2 == Event(ttl + 1, SweepOp(EncodeNS(a, digest) + e))
    ensures !AnswersLast(digest, ttl, d0, [e1, e2], a, ttl + 1)
  {
    TwoSteps(d0, e1, e2, 0, a, ttl, digest);
    SweptAway(digest, ttl, d0, a, b, e);
    NotAnswered(digest, ttl, d0, [e1, e2], a, Named(e), ttl + 1);
  }

  lemma NotAnswered(digest: Digest, ttl: nat, d0: Dir, run: seq<Event>, a: Namespace, file: ManifestFile, now: int)
    requires LastOf(run, a) == Wrote(now, file) && Get(Replay(d0, run, ttl, digest), a, now, ttl, digest).NotCached?
    ensures !AnswersLast(digest, ttl, d0, run, a, now)
  {
  }

  lemma {:induction false} SweptAway(digest: Digest, ttl: nat, d0: Dir, a: Namespace, b: Namespace, e: Bytes)
    requires IsSuffix(e) && EncodeNS(a, digest) + e in CacheNames(b, digest)
    requires d0 == MarkDir(b, EncodeNS(a, digest) + e)
    ensures var d1, name := Put(d0, a, Named(e), ttl + 1, digest), EncodeNS(a, digest) + e;
            Get(SweepEntry(d1, name, ttl + 1, ttl), a, ttl + 1, ttl, digest).NotCached?
  {
    var name, file := EncodeNS(a, digest) + e, Named(e);
    Extensions();
    PutKeepsNamesake(d0, a, file, ttl + 1, digest, name);
    SweepRemovesNamesake(digest, ttl, Put(d0, a, file, ttl + 1, digest), b, name);
    AfterTheSweep(digest, ttl, d0, a, file, e, name);
  }

  lemma {:induction false} AfterTheSweep(
    digest: Digest, ttl: nat, d0: Dir, a: Namespace, file: ManifestFile, e: Bytes, name: Bytes)
    requires ManifestName(file.filename) && (e == META_SUFFIX || e == Ext(file.filename)) && name == EncodeNS(a, digest) + e
    requires d0.Keys == {name + META_SUFFIX}
    ensures Get(Put(d0, a, file, ttl + 1, digest) - {name} - {name + META_SUFFIX}, a, ttl + 1, ttl, digest).NotCached?
  {
    var names := CacheNames(a, digest);
    var d1 := Put(d0, a, file, ttl + 1, digest);
    PutIsCurrent(digest, d0, d0, a, file, ttl + 1);
    if |names| == 2 {
      PutKeepsNamesake(d0, a, file, ttl + 1, digest, names[1]);
    }
    MissesWithout(d1 - {name} - {name + META_SUFFIX}, a, e, file.filename, ttl + 1, ttl, digest);
  }

  /** Every put is answered for its lifetime in every run exactly when neither the
      names in play nor the paths written under them are another's cache name. */
  lemma {:induction false} UndisturbedIsExact(u: set<Namespace>, digest: Digest, ttl: nat)
    ensures Undisturbed(u, digest) <==>
            forall d0, run, start, ns, now :: Admissible(u, digest, d0, run, start, ns, now) ==> AnswersLast(digest, ttl, d0, run, ns, now)
  {
    if Undisturbed(u, digest) {
      forall d0, run, start, ns, now | Admissible(u, digest, d0, run, start, ns, now) ensures AnswersLast(digest, ttl, d0, run, ns, now) {
        UndisturbedAnswers(u, digest, ttl, d0, run, start, ns, now);
      }
    } else if a, b :| a in u && b in u && a != b && EncodeNS(a, digest) in CacheNames(b, digest) {
      var run := SharedNameLoses(u, digest, ttl, a, b);
    } else {
      var a, e := SomeTwin(u, digest);
      var b :| b in u && EncodeNS(a, digest) + e in CacheNames(b, digest);
      var d0, run := TwinLoses(u, digest, ttl, a, b, e);
    }
  }

  lemma {:induction false} SomeTwin(u: set<Namespace>, digest: Digest) returns (a: Namespace, e: Bytes)
    requires !Undisturbed(u, digest)
    requires forall a, b :: a in u && b in u && a != b ==> EncodeNS(a, digest) !in CacheNames(b, digest)
    ensures a in u && IsSuffix(e) && !Spared(u, digest, EncodeNS(a, digest) + e)
  {
    a :| a in u && !(Spared(u, digest, EncodeNS(a, digest) + META_SUFFIX)
                     && Spared(u, digest, EncodeNS(a, digest) + MD) && Spared(u, digest, EncodeNS(a, digest) + YAML));
    e := if !Spared(u, digest, EncodeNS(a, digest) + META_SUFFIX) then META_SUFFIX
         else if !Spared(u, digest, EncodeNS(a, digest) + MD) then MD else YAML;
  }

  lemma {:induction false} UndisturbedAnswers(
    u: set<Namespace>, digest: Digest, ttl: int, d0: Dir, run: seq<Event>, start: int, ns: Namespace, now: int)
    requires Undisturbed(u, digest) && Admissible(u, digest, d0, run, start, ns, now)
    ensures Isolated(u, digest) && AnswersLast(digest, ttl, d0, run, ns, now)
  {
    assert Isolated(u, digest) by {
      forall a, b | a in u && b in u && a != b ensures KeepsOff(a, b, digest) && KeepsOff(b, a, digest) {
        assert Spared(u, digest, EncodeNS(a, digest) + META_SUFFIX) && Spared(u, digest, EncodeNS(b, digest) + META_SUFFIX);
      }
    }
    LastWriteIsAnswered(u, digest, ttl, d0, run, start, ns, now);
    RunIsOwn(u, digest, ttl, d0, run, start, ns);
    Extensions();
  }

  // --------------------------------------------------------- which names do so

  /** Decoding leaves a suffix that holds no escape alone. */
  lemma {:induction false} DecodeBeforeSuffix(s: Bytes, e: Bytes)
    requires IsSuffix(e)
    ensures Decode(s + e).Some? ==> Decode(s).Some? && Decode(s + e).value == Decode(s).value + e
  {
    if s == [] {
      assert s + e == e;
      SuffixDecodes(e);
    } else if s[0] != '%' {
      DecodeBeforeSuffix(s[1..], e);
      assert (s + e)[1..] == s[1..] + e;
      Associates([s[0]], if Decode(s[1..]).Some? then Decode(s[1..]).value else [], e);
    } else if |s| >= 3 {
      DecodeBeforeSuffix(s[3..], e);
      EscapeBeforeSuffix(s, e);
    } else {
      assert (s + e)[|s|] == '.' && Unhex('.').None?;
    }
  }

  lemma {:induction false} EscapeBeforeSuffix(s: Bytes, e: Bytes)
    requires |s| >= 3 && s[0] == '%'
    requires Decode(s[3..] + e).Some? ==> Decode(s[3..]).Some? && Decode(s[3..] + e).value == Decode(s[3..]).value + e
    ensures Decode(s + e).Some? ==> Decode(s).Some? && Decode(s + e).value == Decode(s).value + e
  {
    assert (s + e)[3..] == s[3..] + e && (s + e)[1] == s[1] && (s + e)[2] == s[2];
    if Decode(s + e).Some? {
      var c: Byte := (Unhex(s[1]).value * 16 + Unhex(s[2]).value) as char;
      Associates([c], Decode(s[3..]).value, e);
    }
  }

  lemma {:induction false} SuffixDecodes(e: Bytes)
    requires IsSuffix(e)
    ensures Decode(e) == Some(e)
  {
    var mask := seq(|e|, i => false);
    EncodeNothing(e, mask);
    DecodeEncode(e, mask);
  }

  /** A namespace that is not spelled like a file of the cache has no name that is. */
  lemma {:induction false} NamesAreNotPaths(ns: Namespace, digest: Digest, name: Bytes, e: Bytes)
    requires IsSuffix(e) && !EndsWith(ns, e) && name in CacheNames(ns, digest)
    ensures !EndsWith(name, e)
  {
    NamesDecode(ns);
    if EndsWith(name, e) {
      var front := name[..|name| - |e|];
      assert name == front + e;
      CappedIsNotPath(PlainName(ns), ns, digest, e);
      DecodeBeforeSuffix(front, e);
    }
  }

  lemma CappedIsNotPath(name: Bytes, ns: Namespace, digest: Digest, e: Bytes)
    requires IsSuffix(e)
    ensures |name| > MAX_NAME_LEN ==> !EndsWith(CapName(name, ns, digest), e)
  {
    if |name| > MAX_NAME_LEN {
      var capped, d := CapName(name, ns, digest), digest(ns);
      assert capped[|capped| - |e|] == d[HASH_LEN - |e|] != '.';
    }
  }

  /** What suffices: namespaces that hold no '~', none spelled like a meta file. */
  lemma {:induction false} PlainNamesAreIsolated(u: set<Namespace>, digest: Digest)
    requires forall a :: a in u ==> '~' !in a && !EndsWith(a, META_SUFFIX)
    requires forall a, b :: a in u && b in u && digest(a) == digest(b) ==> a == b
    ensures Isolated(u, digest)
  {
    forall a, b | a in u && b in u && a != b ensures KeepsOff(a, b, digest) {
      PlainNamesDiffer(a, b, digest);
      PathIsNoName(a, b, digest, META_SUFFIX);
    }
  }

  lemma {:induction false} PlainNamesDiffer(a: Namespace, b: Namespace, digest: Digest)
    requires '~' !in a && '~' !in b && a != b && digest(a) != digest(b)
    ensures EncodeNS(a, digest) !in CacheNames(b, digest)
  {
    if EncodeNS(a, digest) in CacheNames(b, digest) {
      CacheNamesDisjoint(a, b, digest, CacheNames(a, digest)[0]);
    }
  }

  lemma {:induction false} PathIsNoName(a: Namespace, b: Namespace, digest: Digest, e: Bytes)
    requires IsSuffix(e) && !EndsWith(b, e)
    ensures EncodeNS(a, digest) + e !in CacheNames(b, digest)
  {
    var path := EncodeNS(a, digest) + e;
    assert EndsWith(path, e);
    if path in CacheNames(b, digest) {
      NamesAreNotPaths(b, digest, path, e);
    }
  }

  /** And for puts to last: none spelled like a manifest either. */
  lemma {:induction false} PlainNamesAreUndisturbed(u: set<Namespace>, digest: Digest)
    requires forall a :: a in u ==> '~' !in a && !EndsWith(a, META_SUFFIX) && !EndsWith(a, MD) && !EndsWith(a, YAML)
    requires forall a, b :: a in u && b in u && digest(a) == digest(b) ==> a == b
    ensures Undisturbed(u, digest)
  {
    forall a, b | a in u && b in u && a != b ensures EncodeNS(a, digest) !in CacheNames(b, digest) {
      PlainNamesDiffer(a, b, digest);
    }
    forall a | a in u
      ensures Spared(u, digest, EncodeNS(a, digest) + META_SUFFIX)
           && Spared(u, digest, EncodeNS(a, digest) + MD) && Spared(u, digest, EncodeNS(a, digest) + YAML)
    {
      PathIsSpared(u, a, digest, META_SUFFIX);
      PathIsSpared(u, a, digest, MD);
      PathIsSpared(u, a, digest, YAML);
    }
  }

  lemma {:induction false} PathIsSpared(u: set<Namespace>, a: Namespace, digest: Digest, e: Bytes)
    requires IsSuffix(e) && forall b :: b in u ==> !EndsWith(b, e)
    ensures Spared(u, digest, EncodeNS(a, digest) + e)
  {
    forall b | b in u ensures EncodeNS(a, digest) + e !in CacheNames(b, digest) {
      PathIsNoName(a, b, digest, e);
    }
  }

  /** What breaks it: a selector that appends a suffix of the cache's files to another
      gets that file's path as its cache name. */
  lemma {:induction false} SuffixTwin(a: Namespace, e: Bytes, digest: Digest)
    requires HasRef(a) && Ref(a) != [] && IsSuffix(e) && |PlainName(a)| + |e| <= MAX_NAME_LEN
    requires var last := Ref(a)[|Ref(a)| - 1]; last != '.' && last != ' '
    ensures EncodeNS(a + e, digest) == EncodeNS(a, digest) + e
  {
    var bare, ref := Bare(a), Ref(a);
    CutJoins(a);
    Associates(bare + ['@'], ref, e);
    CutIsUnique(bare, ref + e);
    SegmentBeforeSuffix(ref, e);
    Associates(PathEscape(bare) + ['@'], RefSegment(ref), e);
  }

  lemma {:induction false} SegmentBeforeSuffix(ref: Bytes, e: Bytes)
    requires ref != [] && ref[|ref| - 1] != '.' && ref[|ref| - 1] != ' ' && IsSuffix(e)
    ensures RefSegment(ref + e) == RefSegment(ref) + e
  {
    var plain := seq(|e|, i => false);
    var mask := IdentityMask(ref + e);
    forall i | 0 <= i < |mask| ensures mask[i] == (IdentityMask(ref) + plain)[i] {
      if i >= |ref| {
        assert (ref + e)[i] == e[i - |ref|];
      }
    }
    assert mask == IdentityMask(ref) + plain;
    EncodeSplit(ref, IdentityMask(ref), e, plain);
    EncodeNothing(e, plain);
  }

  /** Recording and deleting a not-found mark for such a twin, in an empty cache,
      turns the put it was built from into a miss within its lifetime. */
  lemma {:induction false} TwinLosesThePut(
    a: Namespace, b: Namespace, e: Bytes, file: ManifestFile, digest: Digest, ttl: nat, at: int)
    requires a != b && IsSuffix(e) && EncodeNS(b, digest) == EncodeNS(a, digest) + e
    requires ManifestName(file.filename) && (e == META_SUFFIX || e == Ext(file.filename))
    ensures var run := [Event(at, PutOp(a, file)), Event(at, NotFoundOp(b, [])), Event(at, DeleteOp(b))];
            LastOf(run, a) == Wrote(at, file) && Get(Replay(map[], run, ttl, digest), a, at, ttl, digest).NotCached?
  {
    var e1, e2, e3 := Event(at, PutOp(a, file)), Event(at, NotFoundOp(b, [])), Event(at, DeleteOp(b));
    var d0: Dir := map[];
    ThreeSteps(d0, e1, e2, e3, a, ttl, digest);
    var d1 := Put(d0, a, file, at, digest);
    AfterTheDelete(d1, PutNotFound(d1, b, [], at, digest), a, b, e, file, digest, ttl, at);
  }

  lemma ThreeSteps(dir: Dir, e1: Event, e2: Event, e3: Event, ns: Namespace, ttl: int, digest: Digest)
    requires e1.now == e2.now == e3.now
    ensures Replay(dir, [e1, e2, e3], ttl, digest) == Apply(Apply(Apply(dir, e1, ttl, digest), e2, ttl, digest), e3, ttl, digest)
    ensures LastOf([e1, e2, e3], ns) == Next(Next(Next(Untouched, e1, ns), e2, ns), e3, ns)
  {
    TwoSteps(dir, e1, e2, e1.now, ns, ttl, digest);
    OneMore(dir, [e1, e2], e3, e1.now, ns, ttl, digest);
    assert [e1, e2] + [e3] == [e1, e2, e3];
  }

  lemma {:induction false} AfterTheDelete(
    d1: Dir, d2: Dir, a: Namespace, b: Namespace, e: Bytes, file: ManifestFile, digest: Digest, ttl: nat, at: int)
    requires a != b && IsSuffix(e) && EncodeNS(b, digest) == EncodeNS(a, digest) + e
    requires ManifestName(file.filename) && (e == META_SUFFIX || e == Ext(file.filename))
    requires d1 == Put(map[], a, file, at, digest) && d2 == PutNotFound(d1, b, [], at, digest)
    ensures Get(DeleteAll(d2, CacheNames(b, digest)), a, at, ttl, digest).NotCached?
  {
    var u, d0: Dir, name := {a, b}, map[], EncodeNS(a, digest) + e;
    PutIsFiled(u, digest, d0, a, file, at);
    WriteKeepsFiled(u, digest, d1, b, META_SUFFIX, d2[name + META_SUFFIX]);
    PathsDiffer(EncodeNS(a, digest), name);
    PutIsCurrent(digest, d0, d0, a, file, at);
    MarkIsRemoved(u, digest, d2, b, name);
    if |CacheNames(a, digest)| == 2 {
      PutKeepsNamesake(d0, a, file, at, digest, CacheNames(a, digest)[1]);
    }
    MissesWithout(DeleteAll(d2, CacheNames(b, digest)), a, e, file.filename, at, ttl, digest);
  }

  lemma {:induction false} MarkIsRemoved(u: set<Namespace>, digest: Digest, dir: Dir, b: Namespace, name: Bytes)
    requires WellFiled(dir, u, digest) && name == EncodeNS(b, digest) && name + META_SUFFIX in dir
    requires dir[name + META_SUFFIX].MetaFile? && dir[name + META_SUFFIX].meta.filename == []
    ensures var after := DeleteAll(dir, CacheNames(b, digest));
            && name !in after && name + META_SUFFIX !in after && forall p :: p in after ==> p in dir && after[p] == dir[p]
  {
    var names := CacheNames(b, digest);
    TwoDeletions(u, digest, dir, names);
    Extensions();
    assert name + [] == name;
  }
}
