/** The work directory of an identity, in its current one-segment layout and in
    the earlier layout that nested on '/'. */
module WorkDirs {
  import opened Wrappers
  import opened Percent
  import opened PathSafe

  // -------------------------------------------------------- splitting on '/'

  function Split(s: Bytes): (parts: seq<Bytes>)
    ensures parts != []
  {
    var i := IndexOf(s, '/');
    if i < |s| then [s[..i]] + Split(s[i + 1..]) else [s]
  }

  function Join(parts: seq<Bytes>): Bytes
    requires parts != []
  {
    if |parts| == 1 then parts[0] else parts[0] + ['/'] + Join(parts[1..])
  }

  lemma {:induction false} JoinSplit(s: Bytes)
    ensures Join(Split(s)) == s
  {
    var i := IndexOf(s, '/');
    if i < |s| {
      JoinSplit(s[i + 1..]);
      JoinMore(s[..i], Split(s[i + 1..]));
      assert s == s[..i] + ['/'] + s[i + 1..];
    }
  }

  lemma JoinMore(first: Bytes, rest: seq<Bytes>)
    requires rest != []
    ensures Join([first] + rest) == first + ['/'] + Join(rest)
  {
    assert ([first] + rest)[1..] == rest;
  }

  lemma SplitMore(first: Bytes, rest: Bytes)
    requires '/' !in first
    ensures Split(first + ['/'] + rest) == [first] + Split(rest)
  {
    var s := first + ['/'] + rest;
    assert s[..|first|] == first && s[|first| + 1..] == rest;
    FirstIndexIs(s, '/', |first|);
  }

  ghost predicate SlashFree(parts: seq<Bytes>) {
    forall k :: 0 <= k < |parts| ==> '/' !in parts[k]
  }

  lemma {:induction false} SplitIsSlashFree(s: Bytes)
    ensures SlashFree(Split(s))
  {
    var i := IndexOf(s, '/');
    if i < |s| {
      SplitIsSlashFree(s[i + 1..]);
    }
  }

  lemma {:induction false} SplitJoin(parts: seq<Bytes>)
    requires parts != [] && SlashFree(parts)
    ensures Split(Join(parts)) == parts
  {
    if |parts| == 1 {
      assert parts == [parts[0]];
    } else {
      SplitJoin(parts[1..]);
      SplitMore(parts[0], Join(parts[1..]));
      assert parts == [parts[0]] + parts[1..];
    }
  }

  /** The last part of one list and the first of the other run together. */
  function Glued(p: seq<Bytes>, q: seq<Bytes>): seq<Bytes>
    requires p != [] && q != []
  {
    p[..|p| - 1] + [p[|p| - 1] + q[0]] + q[1..]
  }

  lemma GluedMore(first: Bytes, p: seq<Bytes>, q: seq<Bytes>)
    requires p != [] && q != []
    ensures Glued([first] + p, q) == [first] + Glued(p, q)
  {
    assert ([first] + p)[..|p|] == [first] + p[..|p| - 1];
  }

  lemma GluedFirst(x: Bytes, first: Bytes, rest: seq<Bytes>)
    ensures Glued([x], [first] + rest) == [x + first] + rest
  {
    assert ([first] + rest)[1..] == rest && [x][..0] == [];
  }

  lemma {:induction false} SplitConcat(x: Bytes, y: Bytes)
    ensures Split(x + y) == Glued(Split(x), Split(y))
  {
    var i := IndexOf(x, '/');
    if i < |x| {
      SplitConcat(x[i + 1..], y);
      SplitSegment(x[..i], x[i + 1..], x, y);
    } else {
      SplitFirst(x, y);
    }
  }

  lemma SplitSegment(first: Bytes, rest: Bytes, x: Bytes, y: Bytes)
    requires x == first + ['/'] + rest && '/' !in first
    requires Split(rest + y) == Glued(Split(rest), Split(y))
    ensures Split(x + y) == Glued(Split(x), Split(y))
  {
    SplitMore(first, rest);
    SplitMore(first, rest + y);
    GluedMore(first, Split(rest), Split(y));
    Associates(first + ['/'], rest, y);
  }

  lemma SplitFirst(x: Bytes, y: Bytes)
    requires '/' !in x
    ensures Split(x) == [x] && Split(x + y) == Glued([x], Split(y))
  {
    var i := IndexOf(y, '/');
    if i < |y| {
      JoinsAt(y, i);
      SplitAtCut(x, y[..i], y[i + 1..], y);
    } else {
      SplitWhole(x + y);
      GluedFirst(x, y, []);
      assert [y] + [] == [y];
    }
  }

  lemma JoinsAt(y: Bytes, i: nat)
    requires i < |y| && y[i] == '/'
    ensures y == y[..i] + ['/'] + y[i + 1..]
  {
  }

  lemma SplitWhole(s: Bytes)
    requires '/' !in s
    ensures Split(s) == [s]
  {
  }

  lemma SplitAtCut(x: Bytes, first: Bytes, rest: Bytes, y: Bytes)
    requires y == first + ['/'] + rest && '/' !in x && '/' !in first
    ensures Split(x + y) == Glued([x], Split(y))
  {
    SplitMore(first, rest);
    SplitMore(x + first, rest);
    GluedFirst(x, first, Split(rest));
    Associates(x, first + ['/'], rest);
    Associates(x, first, ['/']);
  }

  // ---------------------------------------- the namespaces the store accepts

  /** domain/user/repo, or domain/user/repo/auid, before the selector. */
  ghost predicate Valid(ns: Namespace) {
    var parts := Split(Bare(ns));
    (|parts| == 3 || |parts| == 4) && NoneEmpty(parts)
  }

  ghost predicate NoneEmpty(parts: seq<Bytes>) {
    forall k :: 0 <= k < |parts| ==> parts[k] != []
  }

  method Validate(ns: Namespace) returns (ok: bool)
    ensures ok <==> Valid(ns)
    ensures ok <==> 3 <= |Split(Bare(ns))| <= 4 && forall part :: part in Split(Bare(ns)) ==> part != []
  {
    if ns == [] {
      return false;
    }
    var parts := Split(Bare(ns));
    if |parts| != 3 && |parts| != 4 {
      return false;
    }
    for i := 0 to |parts|
      invariant NoneEmpty(parts[..i])
    {
      if parts[i] == [] {
        assert parts[i] in parts;
        return false;
      }
      assert parts[..i + 1] == parts[..i] + [parts[i]];
    }
    assert parts[..|parts|] == parts;
    return true;
  }

  // -------------------------------------------------------- the nested layout

  function Upper(c: Byte): Byte {
    if IsLower(c) then (c as int - 32) as char else c
  }

  predicate IsWindowsDeviceName(component: Bytes) {
    var cut := IndexOf(component, '.');
    var stem := seq(cut, i requires 0 <= i < cut => Upper(component[i]));
    || stem == "CON" || stem == "PRN" || stem == "AUX" || stem == "NUL"
    || (|stem| == 4 && (stem[..3] == "COM" || stem[..3] == "LPT") && '1' <= stem[3] <= '9')
  }

  /** Capitals or not, whatever extension follows. */
  lemma DeviceNames(stem: Bytes, extension: Bytes)
    requires '.' !in stem && (extension == [] || extension[0] == '.')
    ensures IsWindowsDeviceName(stem + extension) <==>
            || SameLetters(stem, "CON") || SameLetters(stem, "PRN") || SameLetters(stem, "AUX") || SameLetters(stem, "NUL")
            || exists d: char :: '1' <= d <= '9' && (SameLetters(stem, "COM" + [d]) || SameLetters(stem, "LPT" + [d]))
  {
    var name := stem + extension;
    assert IndexOf(name, '.') == |stem| by {
      assert forall j :: 0 <= j < |stem| ==> name[j] == stem[j];
      if extension != [] {
        assert name[|stem|] == '.' && name[..|stem|] == stem;
        FirstIndexIs(name, '.', |stem|);
      }
    }
    var upper := seq(|stem|, i requires 0 <= i < |stem| => Upper(name[i]));
    assert forall i :: 0 <= i < |stem| ==> upper[i] == Upper(stem[i]);
    if |stem| == 4 {
      assert "COM" + [upper[3]] == ['C', 'O', 'M', upper[3]] && "LPT" + [upper[3]] == ['L', 'P', 'T', upper[3]];
      assert upper == upper[..3] + [upper[3]];
    }
  }

  ghost predicate SameLetters(a: Bytes, capitals: string) {
    |a| == |capitals| && forall i :: 0 <= i < |a| ==> Upper(a[i]) == capitals[i]
  }

  predicate MustEscape(component: Bytes, i: nat, standalone: bool)
    requires i < |component|
  {
    var c := component[i];
    || c as int < 0x20 || c in WINDOWS_RESERVED
    || (i == |component| - 1 && (c == '.' || c == ' '))
    || (i == 0 && standalone && IsWindowsDeviceName(component))
  }

  function ComponentMask(component: Bytes, standalone: bool): seq<bool> {
    seq(|component|, i requires 0 <= i < |component| => MustEscape(component, i, standalone))
  }

  function Component(component: Bytes, standalone: bool): Bytes {
    Encode(component, ComponentMask(component, standalone))
  }

  method EscapeComponent(component: Bytes, standalone: bool) returns (b: Bytes)
    ensures b == Component(component, standalone)
  {
    b := [];
    var i := 0;
    ghost var mask := ComponentMask(component, standalone);
    while i < |component|
      invariant i <= |component|
      invariant b == Encode(component[..i], mask[..i])
    {
      EncodeSplit(component[..i], mask[..i], [component[i]], [mask[i]]);
      assert component[..i + 1] == component[..i] + [component[i]] && mask[..i + 1] == mask[..i] + [mask[i]];
      if MustEscape(component, i, standalone) {
        b := b + Escaped(component[i]);
      } else {
        b := b + [component[i]];
      }
      i := i + 1;
    }
    assert component[..i] == component && mask[..i] == mask;
  }

  function Components(parts: seq<Bytes>): (escaped: seq<Bytes>)
    ensures |escaped| == |parts|
  {
    seq(|parts|, i requires 0 <= i < |parts| => Component(parts[i], i > 0))
  }

  method EscapeRefDir(ref: Bytes) returns (dir: Bytes)
    ensures dir == Join(Components(Split(ref)))
  {
    var components := Split(ref);
    ghost var parts := components;
    var i := 0;
    while i < |components|
      invariant i <= |components| == |parts|
      invariant forall k :: 0 <= k < i ==> components[k] == Component(parts[k], k > 0)
      invariant forall k :: i <= k < |parts| ==> components[k] == parts[k]
    {
      var escaped := EscapeComponent(components[i], i > 0);
      components := components[i := escaped];
      i := i + 1;
    }
    assert components == Components(parts);
    dir := Join(components);
  }

  function IdentityDir(ns: Namespace, digest: Digest): Bytes {
    if !HasRef(ns) then ns
    else Parent(Bare(ns)) + CapName(LeafName(ns), ns, digest)
  }

  /** path.Split: everything up to and including the last '/', and the rest. */
  function Parent(path: Bytes): Bytes { path[..LastIndexOf(path, '/') + 1] }
  function Leaf(path: Bytes): Bytes { path[LastIndexOf(path, '/') + 1..] }

  function LeafName(ns: Namespace): Bytes {
    Leaf(Bare(ns)) + ['@'] + RefSegment(Ref(ns))
  }

  function LegacyIdentityDir(ns: Namespace): Bytes {
    if !HasRef(ns) then ns else Bare(ns) + ['@'] + Join(Components(Split(Ref(ns))))
  }

  // ------------------------------------------------------ reading them back

  /** Each part decoded, or None when one of them does not decode. */
  function DecodeAll(parts: seq<Bytes>): Option<seq<Bytes>> {
    if parts == [] then Some([])
    else
      var last := Decode(parts[|parts| - 1]);
      var front := DecodeAll(parts[..|parts| - 1]);
      if front.None? || last.None? then None else Some(front.value + [last.value])
  }

  function DecodedDir(rel: Bytes): Namespace {
    if !HasRef(rel) then rel
    else
      var parts := DecodeAll(Split(Ref(rel)));
      if parts.None? || parts.value == [] then rel else Bare(rel) + ['@'] + Join(parts.value)
  }

  method DecodeNSDir(rel: Bytes) returns (ns: Namespace)
    ensures ns == DecodedDir(rel)
  {
    if !HasRef(rel) {
      return rel;
    }
    var components := Split(Ref(rel));
    ghost var parts, done: seq<Bytes> := components, [];
    var i := 0;
    while i < |components|
      invariant i <= |components| == |parts| && |done| == i
      invariant DecodeAll(parts[..i]) == Some(done)
      invariant forall k :: 0 <= k < i ==> components[k] == done[k]
      invariant forall k :: i <= k < |parts| ==> components[k] == parts[k]
    {
      DecodeNext(parts, i);
      var decoded := Decode(components[i]);
      if decoded.None? {
        UndecodablePrefix(parts, i + 1);
        return rel;
      }
      components, done := components[i := decoded.value], done + [decoded.value];
      i := i + 1;
    }
    assert parts[..i] == parts && components == done;
    return Bare(rel) + ['@'] + Join(components);
  }

  /** A directory is decoded part by part, and kept as it is when some part does not
      decode. */
  lemma {:induction false} DecodedPartByPart(rel: Bytes)
    requires HasRef(rel)
    ensures SomeUndecodable(Split(Ref(rel))) ==> DecodedDir(rel) == rel
    ensures !SomeUndecodable(Split(Ref(rel))) ==>
      exists decoded :: Decodes(Split(Ref(rel)), decoded) && decoded != [] && DecodedDir(rel) == Bare(rel) + ['@'] + Join(decoded)
  {
    AllDecode(Split(Ref(rel)));
    if !SomeUndecodable(Split(Ref(rel))) {
      var decoded := DecodeAll(Split(Ref(rel))).value;
      assert Decodes(Split(Ref(rel)), decoded) && DecodedDir(rel) == Bare(rel) + ['@'] + Join(decoded);
    }
  }

  ghost predicate SomeUndecodable(parts: seq<Bytes>) {
    exists k :: 0 <= k < |parts| && Decode(parts[k]).None?
  }

  ghost predicate Decodes(parts: seq<Bytes>, decoded: seq<Bytes>) {
    |decoded| == |parts| && forall k :: 0 <= k < |parts| ==> Decode(parts[k]) == Some(decoded[k])
  }

  lemma {:induction false} AllDecode(parts: seq<Bytes>)
    ensures DecodeAll(parts).None? <==> SomeUndecodable(parts)
    ensures DecodeAll(parts).Some? ==> Decodes(parts, DecodeAll(parts).value)
  {
    if parts != [] {
      var front, last := parts[..|parts| - 1], parts[|parts| - 1];
      AllDecode(front);
      OneMorePart(front, last);
      assert parts == front + [last];
    }
  }

  lemma OneMorePart(front: seq<Bytes>, last: Bytes)
    ensures SomeUndecodable(front + [last]) <==> SomeUndecodable(front) || Decode(last).None?
  {
    var parts := front + [last];
    assert parts[|front|] == last;
    if k :| 0 <= k < |front| && Decode(front[k]).None? {
      assert parts[k] == front[k];
    }
    if k :| 0 <= k < |parts| && Decode(parts[k]).None? {
      assert k < |front| ==> front[k] == parts[k];
    }
  }

  lemma DecodeNext(parts: seq<Bytes>, i: nat)
    requires i < |parts|
    ensures var front, last := DecodeAll(parts[..i]), Decode(parts[i]);
            DecodeAll(parts[..i + 1]) == if front.None? || last.None? then None else Some(front.value + [last.value])
  {
    assert parts[..i + 1][..i] == parts[..i];
  }

  lemma {:induction false} UndecodablePrefix(parts: seq<Bytes>, n: nat)
    requires n <= |parts| && DecodeAll(parts[..n]).None?
    ensures DecodeAll(parts).None?
    decreases |parts|
  {
    if n < |parts| {
      assert parts[..|parts| - 1][..n] == parts[..n];
      UndecodablePrefix(parts[..|parts| - 1], n);
    } else {
      assert parts[..n] == parts;
    }
  }

  lemma ComponentRoundTrip(component: Bytes, standalone: bool)
    requires '/' !in component
    ensures Decode(Component(component, standalone)) == Some(component)
    ensures '/' !in Component(component, standalone)
  {
    DecodeEncode(component, ComponentMask(component, standalone));
    EncodeBytes(component, ComponentMask(component, standalone), '/');
  }

  /** A component holds no control character and nothing Windows refuses, ends in no
      '.' or ' ', and standing alone is no device name. */
  lemma ComponentIsPortable(component: Bytes, standalone: bool)
    ensures forall c :: c in Component(component, standalone) ==> c as int >= 0x20 && c !in "<>:\"|?*\\"
    ensures component != [] ==>
      Component(component, standalone) != [] && Component(component, standalone)[|Component(component, standalone)| - 1] !in ". "
    ensures standalone ==> !IsWindowsDeviceName(Component(component, standalone))
  {
    var mask := ComponentMask(component, standalone);
    forall c | c in Component(component, standalone) ensures c as int >= 0x20 && c !in "<>:\"|?*\\" {
      if !(c as int >= 0x20 && c !in "<>:\"|?*\\") {
        EncodeBytes(component, mask, c);
      }
    }
    if component != [] {
      EncodedEnd(component, mask);
    }
    if standalone && IsWindowsDeviceName(Component(component, true)) {
      DeviceStaysDevice(component);
    }
  }

  lemma DeviceStaysDevice(component: Bytes)
    ensures !IsWindowsDeviceName(Component(component, true))
  {
    var out, mask := Component(component, true), ComponentMask(component, true);
    if IsWindowsDeviceName(out) {
      var cut := IndexOf(out, '.');
      DeviceNamesAreWords(out);
      UnescapedHead(component, mask, cut);
      assert IndexOf(component, '.') == cut by {
        assert forall j :: 0 <= j < cut ==> component[j] == out[..cut][j];
        if cut < |component| {
          assert component[cut] == '.';
          FirstIndexIs(component, '.', cut);
        }
      }
      SameStem(component, out);
    }
  }

  lemma SameStem(a: Bytes, b: Bytes)
    requires IndexOf(a, '.') == IndexOf(b, '.') && a[..IndexOf(a, '.')] == b[..IndexOf(b, '.')]
    ensures IsWindowsDeviceName(a) == IsWindowsDeviceName(b)
  {
    var cut := IndexOf(a, '.');
    assert forall i :: 0 <= i < cut ==> a[..cut][i] == b[..cut][i];
    assert seq(cut, i requires 0 <= i < cut => Upper(a[i])) == seq(cut, i requires 0 <= i < cut => Upper(b[i]));
  }

  lemma DeviceNamesAreWords(name: Bytes)
    requires IsWindowsDeviceName(name)
    ensures IndexOf(name, '.') > 0 && '%' !in name[..IndexOf(name, '.')]
  {
    var cut := IndexOf(name, '.');
    var stem := seq(cut, i requires 0 <= i < cut => Upper(name[i]));
    forall i | 0 <= i < cut ensures name[i] != '%' {
      assert stem[i] == Upper(name[i]);
      if |stem| == 4 {
        assert stem[..3][0] == stem[0] && stem[..3][1] == stem[1] && stem[..3][2] == stem[2];
      }
    }
  }

  lemma {:induction false} ComponentsRoundTrip(parts: seq<Bytes>)
    requires SlashFree(parts)
    ensures DecodeAll(Components(parts)) == Some(parts) && SlashFree(Components(parts))
  {
    if parts != [] {
      var last := |parts| - 1;
      ComponentsRoundTrip(parts[..last]);
      assert Components(parts)[..last] == Components(parts[..last]);
      ComponentRoundTrip(parts[last], last > 0);
      assert parts == parts[..last] + [parts[last]];
      assert Components(parts) == Components(parts[..last]) + [Component(parts[last], last > 0)];
    }
  }

  /** Both directory layouts are read back to the namespace they were made for: the
      nested one always, the current one unless its name was capped. */
  lemma DirectoriesRoundTrip(ns: Namespace, digest: Digest)
    ensures DecodedDir(LegacyIdentityDir(ns)) == ns
    ensures !HasRef(ns) || |LeafName(ns)| <= MAX_NAME_LEN ==> DecodedDir(IdentityDir(ns, digest)) == ns
  {
    if HasRef(ns) {
      NestedRoundTrip(Bare(ns), Ref(ns));
      SegmentRoundTrip(Bare(ns), Ref(ns));
      CutJoins(ns);
      UncappedDir(Bare(ns), RefSegment(Ref(ns)));
    }
  }

  lemma UncappedDir(bare: Bytes, segment: Bytes)
    ensures Parent(bare) + (Leaf(bare) + ['@'] + segment) == bare + ['@'] + segment
  {
    assert bare == Parent(bare) + Leaf(bare);
  }

  lemma {:induction false} NestedRoundTrip(bare: Bytes, ref: Bytes)
    requires '@' !in bare
    ensures DecodedDir(bare + ['@'] + Join(Components(Split(ref)))) == bare + ['@'] + ref
  {
    var nested := Join(Components(Split(ref)));
    CutIsUnique(bare, nested);
    SplitIsSlashFree(ref);
    ComponentsRoundTrip(Split(ref));
    SplitJoin(Components(Split(ref)));
    JoinSplit(ref);
  }

  lemma SegmentRoundTrip(bare: Bytes, ref: Bytes)
    requires '@' !in bare
    ensures DecodedDir(bare + ['@'] + RefSegment(ref)) == bare + ['@'] + ref
  {
    CutIsUnique(bare, RefSegment(ref));
    SegmentBytes(ref);
    SelectorRoundTrip(ref);
    OnePartDecodes(RefSegment(ref), ref);
    assert Join([ref]) == ref;
  }

  lemma OnePartDecodes(segment: Bytes, ref: Bytes)
    requires '/' !in segment && Decode(segment) == Some(ref)
    ensures Split(segment) == [segment] && DecodeAll([segment]) == Some([ref])
  {
    assert [segment][..0] == [] && DecodeAll([segment][..0]) == Some([]);
    assert [] + [ref] == [ref];
  }

  // --------------------------------------------------- identities never nest

  lemma LeafHasNoSlash(ns: Namespace, digest: Digest)
    ensures '/' !in LeafName(ns) && '/' !in CapName(LeafName(ns), ns, digest)
  {
    SegmentBytes(Ref(ns));
    assert '/' !in Leaf(Bare(ns));
    assert '/' !in LeafName(ns);
  }

  /** A capped leaf that has lost its '@' can be spelled as an element of a path. */
  predicate LosesItsMark(ns: Namespace, digest: Digest) {
    '@' !in CapName(LeafName(ns), ns, digest)
  }

  /** For any two identities with a selector, their work directories are the same,
      even on a file system that folds case within one bare namespace, only if the
      identities are or their digests collide; and one lies inside the other exactly
      when the other's bare namespace passes through it, which takes a capped leaf
      that lost its '@', spelled out with its '~'. */
  lemma WorkDirsNeverNest(a: Namespace, b: Namespace, digest: Digest)
    requires HasRef(a) && HasRef(b)
    ensures IdentityDir(a, digest) + ['/'] <= IdentityDir(b, digest) <==>
            IdentityDir(a, digest) + ['/'] <= Parent(Bare(b))
    ensures IdentityDir(a, digest) + ['/'] <= IdentityDir(b, digest) ==> LosesItsMark(a, digest) && '~' in Bare(b)
    ensures IdentityDir(a, digest) == IdentityDir(b, digest) ==> a == b || digest(a) == digest(b)
    ensures Bare(a) == Bare(b) && FoldAll(IdentityDir(a, digest)) == FoldAll(IdentityDir(b, digest)) ==>
      a == b || digest(a) == digest(b)
  {
    Inside(a, b, digest);
    if IdentityDir(a, digest) == IdentityDir(b, digest) {
      SameDir(a, b, digest);
    }
    if Bare(a) == Bare(b) && FoldAll(IdentityDir(a, digest)) == FoldAll(IdentityDir(b, digest)) {
      SameFoldedDir(a, b, digest);
    }
  }

  lemma {:induction false} Inside(a: Namespace, b: Namespace, digest: Digest)
    requires HasRef(a) && HasRef(b)
    ensures IdentityDir(a, digest) + ['/'] <= IdentityDir(b, digest) <==>
            IdentityDir(a, digest) + ['/'] <= Parent(Bare(b))
    ensures IdentityDir(a, digest) + ['/'] <= IdentityDir(b, digest) ==> LosesItsMark(a, digest) && '~' in Bare(b)
  {
    var leafA, leafB := CapName(LeafName(a), a, digest), CapName(LeafName(b), b, digest);
    LeafHasNoSlash(b, digest);
    CutJoins(b);
    InsideMeansParent(IdentityDir(a, digest), Parent(Bare(b)), leafB);
    if IdentityDir(a, digest) + ['/'] <= Parent(Bare(b)) {
      LeafIsMarked(a, digest);
      MarkIsPassed(Parent(Bare(a)), leafA, Parent(Bare(b)));
    }
  }

  lemma LeafIsMarked(ns: Namespace, digest: Digest)
    ensures '@' in CapName(LeafName(ns), ns, digest) || '~' in CapName(LeafName(ns), ns, digest)
  {
    CappedHasTilde(LeafName(ns), ns, digest);
    assert LeafName(ns)[|Leaf(Bare(ns))|] == '@';
  }

  lemma InsideMeansParent(dir: Bytes, parent: Bytes, leaf: Bytes)
    requires '/' !in leaf
    ensures dir + ['/'] <= parent + leaf <==> dir + ['/'] <= parent
  {
    if dir + ['/'] <= parent + leaf {
      assert (parent + leaf)[|dir|] == (dir + ['/'])[|dir|] == '/';
      assert dir + ['/'] == (parent + leaf)[..|dir| + 1] == parent[..|dir| + 1];
    }
  }

  lemma MarkIsPassed(parentA: Bytes, leafA: Bytes, parentB: Bytes)
    requires ('@' in leafA || '~' in leafA) && '@' !in parentB
    requires parentA + leafA + ['/'] <= parentB
    ensures '@' !in leafA && '~' in parentB
  {
    var q :| 0 <= q < |leafA| && (leafA[q] == '@' || leafA[q] == '~');
    assert forall k :: 0 <= k < |leafA| ==> parentB[|parentA| + k] == leafA[k];
  }

  /** Whenever a leaf loses its mark there is an identity whose directory lies inside,
      one the store accepts when the leaf is that of a repository it accepts. */
  lemma {:induction false} NestedTwin(a: Namespace, digest: Digest) returns (b: Namespace)
    requires HasRef(a) && LosesItsMark(a, digest)
    ensures HasRef(b) && IdentityDir(a, digest) + ['/'] <= IdentityDir(b, digest)
    ensures Valid(a) && |Split(Bare(a))| == 3 ==> Valid(b)
  {
    DirHasNoMark(a, digest);
    b := PassingThrough(IdentityDir(a, digest));
    Inside(a, b, digest);
    OneSegmentMore(a, b, digest);
  }

  lemma DirHasNoMark(a: Namespace, digest: Digest)
    requires HasRef(a) && LosesItsMark(a, digest)
    ensures '@' !in IdentityDir(a, digest)
  {
    CutJoins(a);
    assert '@' !in Parent(Bare(a));
  }

  lemma OneSegmentMore(a: Namespace, b: Namespace, digest: Digest)
    requires HasRef(a) && Bare(b) == IdentityDir(a, digest) + ['/'] + ['x']
    ensures Valid(a) && |Split(Bare(a))| == 3 ==> Valid(b)
  {
    DirHasAsManySegments(a, digest);
    SegmentAdded(IdentityDir(a, digest));
  }

  lemma SegmentAdded(dir: Bytes)
    ensures var parts, longer := Split(dir), Split(dir + ['/'] + ['x']);
            |longer| == |parts| + 1 && (NoneEmpty(parts) ==> NoneEmpty(longer))
  {
    SplitWhole(['x']);
    SplitBelow(dir, ['x']);
  }

  lemma PassingThrough(dir: Bytes) returns (ns: Namespace)
    requires '@' !in dir
    ensures HasRef(ns) && Bare(ns) == dir + ['/'] + ['x'] && Parent(Bare(ns)) == dir + ['/']
  {
    var bare := dir + ['/'] + ['x'];
    ns := bare + ['@'] + ['r'];
    CutIsUnique(bare, ['r']);
    ParentOf(dir + ['/'], ['x']);
  }

  lemma DirHasAsManySegments(a: Namespace, digest: Digest)
    requires HasRef(a)
    ensures var parts, dir := Split(Bare(a)), Split(IdentityDir(a, digest));
            |dir| == |parts| && (NoneEmpty(parts) ==> NoneEmpty(dir))
  {
    LeafHasNoSlash(a, digest);
    LeafIsMarked(a, digest);
    assert Bare(a) == Parent(Bare(a)) + Leaf(Bare(a));
    LastSegment(Parent(Bare(a)), Leaf(Bare(a)), CapName(LeafName(a), a, digest));
  }

  /** Another last segment leaves the number of segments and the others alone. */
  lemma LastSegment(parent: Bytes, leaf: Bytes, other: Bytes)
    requires '/' !in leaf && '/' !in other && other != []
    ensures var parts, dir := Split(parent + leaf), Split(parent + other);
            |dir| == |parts| && (NoneEmpty(parts) ==> NoneEmpty(dir))
  {
    SplitWhole(leaf);
    SplitWhole(other);
    SplitConcat(parent, leaf);
    SplitConcat(parent, other);
    SameButLast(Split(parent + leaf), Split(parent + other));
  }

  lemma SameButLast(parts: seq<Bytes>, other: seq<Bytes>)
    requires |parts| == |other| && other != [] && other[|other| - 1] != []
    requires forall k :: 0 <= k < |parts| - 1 ==> parts[k] == other[k]
    ensures NoneEmpty(parts) ==> NoneEmpty(other)
  {
  }

  /** Among the identities the store accepts, one lies inside the directory of another
      exactly when that other is a repository's whose capped leaf lost its mark: nothing
      lies inside the directory of an arrow hosted in a collection. */
  lemma {:induction false} NestingIsExact(a: Namespace, digest: Digest)
    requires HasRef(a) && Valid(a)
    ensures (exists b :: HasRef(b) && Valid(b) && IdentityDir(a, digest) + ['/'] <= IdentityDir(b, digest)) <==>
            LosesItsMark(a, digest) && |Split(Bare(a))| == 3
  {
    if LosesItsMark(a, digest) && |Split(Bare(a))| == 3 {
      var b := NestedTwin(a, digest);
    }
    forall b | HasRef(b) && Valid(b) && IdentityDir(a, digest) + ['/'] <= IdentityDir(b, digest)
      ensures LosesItsMark(a, digest) && |Split(Bare(a))| == 3
    {
      InsideRepository(a, b, digest);
    }
  }

  lemma {:induction false} InsideRepository(a: Namespace, b: Namespace, digest: Digest)
    requires HasRef(a) && HasRef(b) && Valid(a) && Valid(b)
    requires IdentityDir(a, digest) + ['/'] <= IdentityDir(b, digest)
    ensures LosesItsMark(a, digest) && |Split(Bare(a))| == 3
  {
    Inside(a, b, digest);
    DirHasAsManySegments(a, digest);
    SegmentsBelow(IdentityDir(a, digest), Bare(b));
  }

  lemma SplitBelow(dir: Bytes, rest: Bytes)
    ensures Split(dir + ['/'] + rest) == Split(dir) + Split(rest)
  {
    SplitMore([], rest);
    SplitConcat(dir, [] + ['/'] + rest);
    assert dir + ([] + ['/'] + rest) == dir + ['/'] + rest;
    GluedApart(Split(dir), Split(rest));
  }

  lemma SegmentsBelow(dir: Bytes, path: Bytes)
    requires dir + ['/'] <= path
    ensures |Split(path)| > |Split(dir)|
  {
    SplitBelow(dir, path[|dir| + 1..]);
    assert path == dir + ['/'] + path[|dir| + 1..];
  }

  lemma GluedApart(p: seq<Bytes>, q: seq<Bytes>)
    requires p != []
    ensures Glued(p, [[]] + q) == p + q
  {
    assert p[|p| - 1] + [] == p[|p| - 1] && p[..|p| - 1] + [p[|p| - 1]] == p;
    assert ([[]] + q)[1..] == q;
  }

  /** The twin of a capped bare namespace (`PathSafe.TildeInBareCollides`) is one the
      store accepts exactly when the cut leaves a part of the third segment. */
  lemma BareTwinIsValid(a: Namespace, k: nat, d: HexDigest)
    requires !HasRef(a) && Valid(a) && k <= |a|
    ensures Valid(a[..k] + ['~'] + d) <==> |Split(a[..k])| >= 3
  {
    BareOfPlain(a);
    BareOfPlain(a[..k] + ['~'] + d);
    Associates(a[..k], ['~'], d);
    assert a[..k] + a[k..] == a;
    AnotherTail(a[..k], a[k..], ['~'] + d);
  }

  lemma AnotherTail(front: Bytes, rest: Bytes, tail: Bytes)
    requires '/' !in tail && tail != [] && NoneEmpty(Split(front + rest))
    ensures NoneEmpty(Split(front + tail)) && |Split(front + tail)| == |Split(front)| <= |Split(front + rest)|
  {
    SplitConcat(front, rest);
    SplitConcat(front, tail);
    SplitWhole(tail);
    SameFront(Split(front), Split(rest), tail);
  }

  lemma BareOfPlain(ns: Namespace)
    requires '@' !in ns
    ensures Bare(ns) == ns
  {
  }

  lemma SameFront(parts: seq<Bytes>, rest: seq<Bytes>, tail: Bytes)
    requires parts != [] && rest != [] && tail != [] && NoneEmpty(Glued(parts, rest))
    ensures NoneEmpty(Glued(parts, [tail])) && |Glued(parts, [tail])| == |parts| <= |Glued(parts, rest)|
  {
    forall k | 0 <= k < |parts| ensures Glued(parts, [tail])[k] != [] {
      assert k < |parts| - 1 ==> Glued(parts, rest)[k] == parts[k];
    }
  }

  lemma ParentOf(parent: Bytes, leaf: Bytes)
    requires parent != [] && parent[|parent| - 1] == '/' && '/' !in leaf
    ensures Parent(parent + leaf) == parent
  {
    var path := parent + leaf;
    assert forall k :: |parent| <= k < |path| ==> path[k] == leaf[k - |parent|];
    assert path[|parent| - 1] == '/';
    assert path[..|parent|] == parent;
  }

  lemma SameSplit(parentA: Bytes, leafA: Bytes, parentB: Bytes, leafB: Bytes)
    requires '/' !in leafA && (parentA == [] || parentA[|parentA| - 1] == '/')
    requires '/' !in leafB && (parentB == [] || parentB[|parentB| - 1] == '/')
    requires parentA + leafA == parentB + leafB
    ensures parentA == parentB && leafA == leafB
  {
    var dir := parentA + leafA;
    if |parentA| < |parentB| {
      LastSlashIsInParent(parentA, leafA, parentB, leafB);
    } else if |parentB| < |parentA| {
      LastSlashIsInParent(parentB, leafB, parentA, leafA);
    } else {
      assert dir[..|parentA|] == parentA && dir[..|parentB|] == parentB;
      assert dir[|parentA|..] == leafA && dir[|parentB|..] == leafB;
    }
  }

  lemma LastSlashIsInParent(short: Bytes, leaf: Bytes, parent: Bytes, rest: Bytes)
    requires |short| < |parent| && parent[|parent| - 1] == '/'
    requires short + leaf == parent + rest
    ensures '/' in leaf
  {
    var k := |parent| - 1;
    assert (short + leaf)[k] == (parent + rest)[k] == '/';
    assert leaf[k - |short|] == '/';
  }

  lemma {:induction false} SameDir(a: Namespace, b: Namespace, digest: Digest)
    requires HasRef(a) && HasRef(b)
    requires IdentityDir(a, digest) == IdentityDir(b, digest)
    ensures a == b || digest(a) == digest(b)
  {
    LeafHasNoSlash(a, digest);
    LeafHasNoSlash(b, digest);
    SameSplit(Parent(Bare(a)), CapName(LeafName(a), a, digest), Parent(Bare(b)), CapName(LeafName(b), b, digest));
    SameCappedLeaf(a, b, digest);
    if digest(a) != digest(b) {
      SameLeaf(a, b);
    }
  }

  lemma {:induction false} SameCappedLeaf(a: Namespace, b: Namespace, digest: Digest)
    requires CapName(LeafName(a), a, digest) == CapName(LeafName(b), b, digest)
    ensures LeafName(a) == LeafName(b) || digest(a) == digest(b)
  {
    if |LeafName(a)| > MAX_NAME_LEN && |LeafName(b)| > MAX_NAME_LEN {
      OneDigestCapped(LeafName(a), a, LeafName(b), b, digest);
    }
    if |LeafName(a)| > MAX_NAME_LEN {
      CappedIsNoLeaf(a, b, digest);
    }
    if |LeafName(b)| > MAX_NAME_LEN {
      CappedIsNoLeaf(b, a, digest);
    }
  }

  /** A capped name spells out no leaf: its '~' would have to come before the '@'. */
  lemma {:induction false} CappedIsNoLeaf(a: Namespace, b: Namespace, digest: Digest)
    requires |LeafName(a)| > MAX_NAME_LEN
    ensures CapName(LeafName(a), a, digest) != LeafName(b)
  {
    SegmentBytes(Ref(b));
    LastTilde(LeafName(a), a, digest, Leaf(Bare(b)), RefSegment(Ref(b)));
  }

  lemma SameLeaf(a: Namespace, b: Namespace)
    requires HasRef(a) && HasRef(b)
    requires Parent(Bare(a)) == Parent(Bare(b)) && LeafName(a) == LeafName(b)
    ensures a == b
  {
    ParentAndLeaf(a);
    ParentAndLeaf(b);
    SameCut(Leaf(Bare(a)), RefSegment(Ref(a)), Leaf(Bare(b)), RefSegment(Ref(b)));
    SelectorRoundTrip(Ref(a));
    SelectorRoundTrip(Ref(b));
  }

  lemma ParentAndLeaf(ns: Namespace)
    requires HasRef(ns)
    ensures ns == Parent(Bare(ns)) + Leaf(Bare(ns)) + ['@'] + Ref(ns) && '@' !in Leaf(Bare(ns))
  {
    CutJoins(ns);
    assert Bare(ns) == Parent(Bare(ns)) + Leaf(Bare(ns));
  }

  lemma SameCut(a: Bytes, x: Bytes, b: Bytes, y: Bytes)
    requires '@' !in a && '@' !in b && a + ['@'] + x == b + ['@'] + y
    ensures a == b && x == y
  {
    CutIsUnique(a, x);
    CutIsUnique(b, y);
  }

  lemma {:induction false} SameFoldedDir(a: Namespace, b: Namespace, digest: Digest)
    requires HasRef(a) && HasRef(b) && Bare(a) == Bare(b)
    requires FoldAll(IdentityDir(a, digest)) == FoldAll(IdentityDir(b, digest))
    ensures a == b || digest(a) == digest(b)
  {
    FoldCancels(Parent(Bare(a)), CapName(LeafName(a), a, digest), CapName(LeafName(b), b, digest));
    SameFoldedLeaf(a, b, digest);
    if digest(a) != digest(b) {
      FoldCancels(Leaf(Bare(a)) + ['@'], RefSegment(Ref(a)), RefSegment(Ref(b)));
      SelectorsNeverCollide(Ref(a), Ref(b));
      CutJoins(a);
      CutJoins(b);
    }
  }

  lemma {:induction false} SameFoldedLeaf(a: Namespace, b: Namespace, digest: Digest)
    requires FoldAll(CapName(LeafName(a), a, digest)) == FoldAll(CapName(LeafName(b), b, digest))
    ensures FoldAll(LeafName(a)) == FoldAll(LeafName(b)) || digest(a) == digest(b)
  {
    if |LeafName(a)| > MAX_NAME_LEN {
      CappedEnd(LeafName(a), a, digest);
      FoldedCapIsNoLeaf(a, b, digest);
    }
    if |LeafName(b)| > MAX_NAME_LEN {
      CappedEnd(LeafName(b), b, digest);
      FoldedCapIsNoLeaf(b, a, digest);
    }
  }

  /** Folding moves neither '~' nor '@', so folding does not help either. */
  lemma {:induction false} FoldedCapIsNoLeaf(a: Namespace, b: Namespace, digest: Digest)
    requires |LeafName(a)| > MAX_NAME_LEN
    ensures FoldAll(CapName(LeafName(a), a, digest)) != FoldAll(LeafName(b))
  {
    var capped, leaf := CapName(LeafName(a), a, digest), LeafName(b);
    LastMarkOfCapped(LeafName(a), a, digest);
    LastMarkOfLeaf(b);
    FoldKeepsMarks(capped);
    FoldKeepsMarks(leaf);
    LastMarksDiffer(FoldAll(capped), CutPoint(LeafName(a)), FoldAll(leaf), |Leaf(Bare(b))|);
  }

  lemma LastMarkOfCapped(name: Bytes, ns: Namespace, digest: Digest)
    requires |name| > MAX_NAME_LEN
    ensures var capped, cut := CapName(name, ns, digest), CutPoint(name);
            cut < |capped| && capped[cut] == '~' && forall k :: cut < k < |capped| ==> capped[k] != '@'
  {
    var capped, cut := CapName(name, ns, digest), CutPoint(name);
    assert forall k :: cut < k < |capped| ==> capped[k] == digest(ns)[k - cut - 1];
  }

  lemma LastMarkOfLeaf(ns: Namespace)
    ensures var leaf, at := LeafName(ns), |Leaf(Bare(ns))|;
            at < |leaf| && leaf[at] == '@' && forall k :: at < k < |leaf| ==> leaf[k] != '~'
  {
    SegmentBytes(Ref(ns));
    var leaf, at := LeafName(ns), |Leaf(Bare(ns))|;
    assert forall k :: at < k < |leaf| ==> leaf[k] == RefSegment(Ref(ns))[k - at - 1];
  }

  lemma LastMarksDiffer(x: Bytes, i: nat, y: Bytes, j: nat)
    requires i < |x| && x[i] == '~' && forall k :: i < k < |x| ==> x[k] != '@'
    requires j < |y| && y[j] == '@' && forall k :: j < k < |y| ==> y[k] != '~'
    ensures x != y
  {
  }

  lemma {:induction false} FoldKeepsMarks(s: Bytes)
    ensures forall k :: 0 <= k < |s| ==> (FoldAll(s)[k] == '~' <==> s[k] == '~') && (FoldAll(s)[k] == '@' <==> s[k] == '@')
  {
    if s != [] {
      FoldKeepsMarks(s[1..]);
      assert forall k :: 0 < k < |s| ==> s[k] == s[1..][k - 1] && FoldAll(s)[k] == FoldAll(s[1..])[k - 1];
    }
  }

  lemma {:induction false} FoldCancels(front: Bytes, x: Bytes, y: Bytes)
    requires FoldAll(front + x) == FoldAll(front + y)
    ensures FoldAll(x) == FoldAll(y)
  {
    FoldSplit(front, x);
    FoldSplit(front, y);
    assert FoldAll(front + x)[|front|..] == FoldAll(x) && FoldAll(front + y)[|front|..] == FoldAll(y);
  }

  lemma {:induction false} DigestIsFolded(d: Bytes)
    requires forall i :: 0 <= i < |d| ==> IsDigit(d[i]) || 'a' <= d[i] <= 'f'
    ensures FoldAll(d) == d
  {
    if d != [] {
      DigestIsFolded(d[1..]);
      assert [d[0]] + d[1..] == d;
    }
  }

  lemma CappedEnd(name: Bytes, ns: Namespace, digest: Digest)
    requires |name| > MAX_NAME_LEN
    ensures var folded := FoldAll(CapName(name, ns, digest));
            |folded| >= HASH_LEN && folded[|folded| - HASH_LEN..] == digest(ns)
  {
    var front := name[..CutPoint(name)] + ['~'];
    FoldSplit(front, digest(ns));
    DigestIsFolded(digest(ns));
  }
}
