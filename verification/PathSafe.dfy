/** The names under which the vault files a namespace: the manifest cache name in
    its current and its earlier spelling, and the work directory. */
module PathSafe {
  import opened Wrappers
  import opened Percent

  /** bare[@selector], as bytes. */
  type Namespace = Bytes

  /** The first 32 hex digits of a digest of the whole identity. */
  type HexDigest = d: Bytes | |d| == HASH_LEN && forall i :: 0 <= i < |d| ==> IsDigit(d[i]) || 'a' <= d[i] <= 'f'
    witness seq(HASH_LEN, i => '0')
  type Digest = Namespace -> HexDigest

  const MAX_NAME_LEN: nat := 96
  const MAX_COMPONENT_LEN: nat := 255
  const HASH_LEN: nat := 32
  const META_SUFFIX: Bytes := ['.', 'm', 'e', 't', 'a', '.', 'j', 's', 'o', 'n']

  // ------------------------------------------------------- cutting namespaces

  /** The position of the first `c`, or the length when there is none. */
  function IndexOf(s: Bytes, c: Byte): (i: nat)
    ensures i <= |s| && (i < |s| ==> s[i] == c)
    ensures forall j :: 0 <= j < i ==> s[j] != c
  {
    IndexFrom(s, c, 0)
  }

  function IndexFrom(s: Bytes, c: Byte, k: nat): (i: nat)
    requires k <= |s|
    ensures k <= i <= |s| && (i < |s| ==> s[i] == c)
    ensures forall j :: k <= j < i ==> s[j] != c
    decreases |s| - k
  {
    if k == |s| || s[k] == c then k else IndexFrom(s, c, k + 1)
  }

  function Bare(ns: Namespace): Bytes { ns[..IndexOf(ns, '@')] }
  predicate HasRef(ns: Namespace) { '@' in ns }
  function Ref(ns: Namespace): Bytes {
    if HasRef(ns) then ns[IndexOf(ns, '@') + 1..] else []
  }

  /** A bare namespace takes a selector back. */
  function WithRef(ns: Namespace, ref: Bytes): Namespace {
    if ref == [] then Bare(ns) else Bare(ns) + ['@'] + ref
  }

  lemma CutJoins(ns: Namespace)
    requires HasRef(ns)
    ensures ns == Bare(ns) + ['@'] + Ref(ns) && '@' !in Bare(ns)
  {
  }

  lemma CutIsUnique(bare: Bytes, ref: Bytes)
    requires '@' !in bare
    ensures HasRef(bare + ['@'] + ref)
    ensures Bare(bare + ['@'] + ref) == bare && Ref(bare + ['@'] + ref) == ref
  {
    var ns := bare + ['@'] + ref;
    assert ns[..|bare|] == bare;
    FirstIndexIs(ns, '@', |bare|);
  }

  lemma FirstIndexIs(s: Bytes, c: Byte, k: nat)
    requires k < |s| && s[k] == c && c !in s[..k]
    ensures IndexOf(s, c) == k
  {
    assert forall j :: 0 <= j < k ==> s[j] == s[..k][j];
  }

  /** Replacing the selector leaves the bare namespace alone and is undone by
      putting the old one back, except that an empty selector is dropped. */
  lemma WithRefAlgebra(ns: Namespace, ref: Bytes)
    ensures Bare(WithRef(ns, ref)) == Bare(ns) && Ref(WithRef(ns, ref)) == ref
    ensures WithRef(WithRef(ns, ref), Ref(ns)) == ns <==> !(HasRef(ns) && Ref(ns) == [])
  {
    var bare := Bare(ns);
    if HasRef(ns) {
      CutJoins(ns);
    }
    assert IndexOf(bare, '@') == |bare|;
    if ref != [] {
      CutIsUnique(bare, ref);
    }
    if Ref(ns) != [] {
      CutJoins(ns);
    }
    if HasRef(ns) && Ref(ns) == [] {
      assert |ns| == |bare| + 1;
    }
  }

  // ---------------------------------------------------------------- encoders

  const WINDOWS_RESERVED: seq<char> := "<>:\"|?*\\%"

  predicate MustEscapeIdentity(c: Byte, last: bool) {
    || c as int < 0x20 || c as int >= 0x7f || IsUpper(c) || c in WINDOWS_RESERVED || c == '/' || c == '~'
    || (last && (c == '.' || c == ' '))
  }

  function IdentityMask(ref: Bytes): seq<bool> {
    seq(|ref|, i requires 0 <= i < |ref| => MustEscapeIdentity(ref[i], i == |ref| - 1))
  }

  function RefSegment(ref: Bytes): Bytes { Encode(ref, IdentityMask(ref)) }

  method EncodeRefSegment(ref: Bytes) returns (b: Bytes)
    ensures b == RefSegment(ref)
  {
    b := [];
    var i := 0;
    ghost var mask := IdentityMask(ref);
    while i < |ref|
      invariant i <= |ref|
      invariant b == Encode(ref[..i], mask[..i])
    {
      EncodeSplit(ref[..i], mask[..i], [ref[i]], [mask[i]]);
      assert ref[..i + 1] == ref[..i] + [ref[i]] && mask[..i + 1] == mask[..i] + [mask[i]];
      if MustEscapeIdentity(ref[i], i == |ref| - 1) {
        b := b + Escaped(ref[i]);
      } else {
        b := b + [ref[i]];
      }
      i := i + 1;
    }
    assert ref[..i] == ref && mask[..i] == mask;
  }

  /** What url.PathEscape escapes in a path segment. */
  predicate PathMustEscape(c: Byte) {
    !(IsUpper(c) || IsLower(c) || IsDigit(c) || c in "-_.~$&+:=@")
  }

  function PathMask(s: Bytes): seq<bool> {
    seq(|s|, i requires 0 <= i < |s| => PathMustEscape(s[i]))
  }

  function PathEscape(s: Bytes): Bytes { Encode(s, PathMask(s)) }

  /** strings.ReplaceAll(s, ":", "%3A"). */
  function ReplaceColons(s: Bytes): Bytes {
    if s == [] then [] else (if s[0] == ':' then ['%', '3', 'A'] else [s[0]]) + ReplaceColons(s[1..])
  }

  /** The position of the last `c`, or -1 when there is none. */
  function LastIndexOf(s: Bytes, c: Byte): (i: int)
    ensures -1 <= i < |s| && (i >= 0 ==> s[i] == c)
    ensures forall k :: i < k < |s| ==> s[k] != c
  {
    LastIndexBefore(s, c, |s|)
  }

  function LastIndexBefore(s: Bytes, c: Byte, n: nat): (i: int)
    requires n <= |s|
    ensures -1 <= i < n && (i >= 0 ==> s[i] == c)
    ensures forall k :: i < k < n ==> s[k] != c
  {
    if n == 0 then -1 else if s[n - 1] == c then n - 1 else LastIndexBefore(s, c, n - 1)
  }

  function CutPoint(name: Bytes): (cut: nat)
    requires |name| > MAX_NAME_LEN
    ensures cut <= MAX_NAME_LEN - 1 - HASH_LEN
  {
    var cut := MAX_NAME_LEN - 1 - HASH_LEN;
    var i := LastIndexOf(name[..cut], '%');
    if i >= cut - 2 then i else cut
  }

  function CapName(name: Bytes, ns: Namespace, digest: Digest): Bytes {
    if |name| <= MAX_NAME_LEN then name else name[..CutPoint(name)] + ['~'] + digest(ns)
  }

  /** The current cache name before its length is capped. */
  function PlainName(ns: Namespace): Bytes {
    if HasRef(ns) then PathEscape(Bare(ns)) + ['@'] + RefSegment(Ref(ns)) else PathEscape(ns)
  }

  function EncodeNS(ns: Namespace, digest: Digest): Bytes {
    CapName(PlainName(ns), ns, digest)
  }

  function LegacyEncodeNS(ns: Namespace): Bytes {
    if HasRef(ns) then PathEscape(Bare(ns)) + ['@'] + ReplaceColons(PathEscape(Ref(ns))) else PathEscape(ns)
  }

  function CacheNames(ns: Namespace, digest: Digest): (names: seq<Bytes>)
    ensures 1 <= |names| <= 2 && names[0] == EncodeNS(ns, digest)
  {
    var current, legacy := EncodeNS(ns, digest), LegacyEncodeNS(ns);
    if current == legacy || |legacy + META_SUFFIX| > MAX_COMPONENT_LEN then [current] else [current, legacy]
  }

  // ------------------------------------------------ selectors are kept apart

  /** A selector is read back from its segment, even from a file system that
      folds case, so distinct selectors never share one. */
  lemma SelectorRoundTrip(ref: Bytes)
    ensures Decode(RefSegment(ref)) == Some(ref)
    ensures Decode(FoldAll(RefSegment(ref))) == Some(ref)
  {
    DecodeEncode(ref, IdentityMask(ref));
    DecodeFoldedEncode(ref, IdentityMask(ref));
  }

  lemma SelectorsNeverCollide(a: Bytes, b: Bytes)
    requires FoldAll(RefSegment(a)) == FoldAll(RefSegment(b))
    ensures a == b
  {
    SelectorRoundTrip(a);
    SelectorRoundTrip(b);
  }

  lemma SegmentBytes(ref: Bytes)
    ensures '/' !in RefSegment(ref) && '~' !in RefSegment(ref)
  {
    EncodeBytes(ref, IdentityMask(ref), '/');
    EncodeBytes(ref, IdentityMask(ref), '~');
  }

  /** What a segment may hold: printable ASCII without what Windows refuses, the slash
      and the tilde; and it never ends in a '.' or a ' '. */
  lemma SegmentIsPortable(ref: Bytes)
    ensures forall c :: c in RefSegment(ref) ==> 0x20 <= c as int < 0x7f && c !in "<>:\"|?*\\/~"
    ensures ref != [] ==> RefSegment(ref) != [] && RefSegment(ref)[|RefSegment(ref)| - 1] !in ". "
  {
    forall c | c in RefSegment(ref) ensures 0x20 <= c as int < 0x7f && c !in "<>:\"|?*\\/~" {
      if !(0x20 <= c as int < 0x7f && c !in "<>:\"|?*\\/~") {
        EncodeBytes(ref, IdentityMask(ref), c);
      }
    }
    if ref != [] {
      EncodedEnd(ref, IdentityMask(ref));
    }
  }

  /** A selector is its own segment exactly when it is spelled in lower case with none
      of those: a plain tag or branch name keeps its spelling. */
  lemma PlainSelectorsKeepTheirSpelling(ref: Bytes)
    ensures RefSegment(ref) == ref <==>
            && (forall i :: 0 <= i < |ref| ==>
                  0x20 <= ref[i] as int < 0x7f && !('A' <= ref[i] <= 'Z') && ref[i] !in "<>:\"|?*\\/~%")
            && (ref != [] ==> ref[|ref| - 1] !in ". ")
  {
    var mask := IdentityMask(ref);
    if RefSegment(ref) == ref {
      EscapesLengthen(ref, mask);
      forall i | 0 <= i < |ref| ensures !MustEscapeIdentity(ref[i], i == |ref| - 1) {
        assert !mask[i];
      }
    } else if forall i :: 0 <= i < |ref| ==> !mask[i] {
      EncodeNothing(ref, mask);
    }
  }

  /** A cache name is one segment of a path. */
  lemma {:induction false} CacheNamesAreSegments(ns: Namespace, digest: Digest, name: Bytes)
    requires name in CacheNames(ns, digest)
    ensures '/' !in name
  {
    PlainNameIsSegment(ns);
    LegacyNameIsSegment(ns);
    CappedHasNoSlash(PlainName(ns), ns, digest);
  }

  lemma CappedHasNoSlash(name: Bytes, ns: Namespace, digest: Digest)
    requires '/' !in name
    ensures '/' !in CapName(name, ns, digest)
  {
  }

  lemma {:induction false} PlainNameIsSegment(ns: Namespace)
    ensures '/' !in PlainName(ns)
  {
    EscapedBytes(ns);
    EscapedBytes(Bare(ns));
    SegmentBytes(Ref(ns));
  }

  lemma {:induction false} LegacyNameIsSegment(ns: Namespace)
    ensures '/' !in LegacyEncodeNS(ns)
  {
    EscapedBytes(ns);
    EscapedBytes(Bare(ns));
    ColonsAreEscaped(Ref(ns));
    EncodeBytes(Ref(ns), LegacyMask(Ref(ns)), '/');
  }

  /** PathEscape leaves letters, digits and a few signs alone and spells everything else
      with escapes. */
  lemma EscapedBytes(s: Bytes)
    ensures forall c :: c in PathEscape(s) ==>
              IsUpper(c) || IsLower(c) || IsDigit(c) || c in "-_.~$&+:=@%"
    ensures PathEscape(s) == s <==>
            forall i :: 0 <= i < |s| ==> IsUpper(s[i]) || IsLower(s[i]) || IsDigit(s[i]) || s[i] in "-_.~$&+:=@"
  {
    forall c | c in PathEscape(s) ensures IsUpper(c) || IsLower(c) || IsDigit(c) || c in "-_.~$&+:=@%" {
      if !(IsUpper(c) || IsLower(c) || IsDigit(c) || c in "-_.~$&+:=@%") {
        EncodeBytes(s, PathMask(s), c);
      }
    }
    if PathEscape(s) == s {
      EscapesLengthen(s, PathMask(s));
      forall i | 0 <= i < |s| ensures !PathMustEscape(s[i]) {
        assert !PathMask(s)[i];
      }
    } else if forall i :: 0 <= i < |s| ==> !PathMask(s)[i] {
      EncodeNothing(s, PathMask(s));
    }
  }

  // ------------------------------------------------------------- cache names

  function LegacyMask(ref: Bytes): seq<bool> {
    seq(|ref|, i requires 0 <= i < |ref| => PathMustEscape(ref[i]) || ref[i] == ':')
  }

  lemma {:induction false} ReplaceColonsSplit(a: Bytes, b: Bytes)
    ensures ReplaceColons(a + b) == ReplaceColons(a) + ReplaceColons(b)
  {
    if a == [] {
      assert a + b == b;
    } else {
      ReplaceColonsSplit(a[1..], b);
      assert (a + b)[1..] == a[1..] + b;
      Associates(if a[0] == ':' then ['%', '3', 'A'] else [a[0]], ReplaceColons(a[1..]), ReplaceColons(b));
    }
  }

  lemma Associates(x: Bytes, y: Bytes, z: Bytes)
    ensures x + (y + z) == x + y + z
  {
  }

  lemma {:induction false} NoColonsToReplace(s: Bytes)
    requires ':' !in s
    ensures ReplaceColons(s) == s
  {
    if s != [] {
      NoColonsToReplace(s[1..]);
    }
  }

  /** Escaping colons afterwards is escaping them with the rest. */
  lemma {:induction false} ColonsAreEscaped(ref: Bytes)
    ensures ReplaceColons(PathEscape(ref)) == Encode(ref, LegacyMask(ref))
  {
    if ref != [] {
      ColonsAreEscaped(ref[1..]);
      assert PathMask(ref)[1..] == PathMask(ref[1..]) && LegacyMask(ref)[1..] == LegacyMask(ref[1..]);
      var head := if PathMustEscape(ref[0]) then Escaped(ref[0]) else [ref[0]];
      ReplaceColonsSplit(head, PathEscape(ref[1..]));
      if ref[0] == ':' && !PathMustEscape(ref[0]) {
        assert head == [':'] && head[1..] == [];
        assert ReplaceColons(head) == ['%', '3', 'A'] == Escaped(':');
      } else {
        assert ':' !in head;
        NoColonsToReplace(head);
      }
    }
  }

  /** Both generations of uncapped names are escapings of the namespace itself. */
  lemma {:induction false} NamesDecode(ns: Namespace)
    ensures Decode(PlainName(ns)) == Some(ns) && Decode(LegacyEncodeNS(ns)) == Some(ns)
  {
    PlainNameEncodes(ns);
    DecodeEncode(ns, NameMask(ns, IdentityMask(Ref(ns))));
    LegacyNameEncodes(ns);
    DecodeEncode(ns, NameMask(ns, LegacyMask(Ref(ns))));
  }

  lemma {:induction false} LegacyNameEncodes(ns: Namespace)
    ensures EscapesPercent(ns, NameMask(ns, LegacyMask(Ref(ns))))
    ensures LegacyEncodeNS(ns) == Encode(ns, NameMask(ns, LegacyMask(Ref(ns))))
  {
    if HasRef(ns) {
      ColonsAreEscaped(Ref(ns));
      EncodedAround(ns, LegacyMask(Ref(ns)));
    }
  }

  function NameMask(ns: Namespace, refMask: seq<bool>): seq<bool> {
    if HasRef(ns) then PathMask(Bare(ns)) + [false] + refMask else PathMask(ns)
  }

  lemma {:induction false} PlainNameEncodes(ns: Namespace)
    ensures EscapesPercent(ns, NameMask(ns, IdentityMask(Ref(ns))))
    ensures PlainName(ns) == Encode(ns, NameMask(ns, IdentityMask(Ref(ns))))
  {
    if HasRef(ns) {
      EncodedAround(ns, IdentityMask(Ref(ns)));
    }
  }

  lemma EncodedAround(ns: Namespace, refMask: seq<bool>)
    requires HasRef(ns) && EscapesPercent(Ref(ns), refMask)
    ensures EscapesPercent(ns, NameMask(ns, refMask))
    ensures Encode(ns, NameMask(ns, refMask)) == PathEscape(Bare(ns)) + ['@'] + Encode(Ref(ns), refMask)
  {
    CutJoins(ns);
    var bare, at: Bytes := Bare(ns), ['@'];
    EncodeSplit(bare, PathMask(bare), at, [false]);
    EncodeSplit(bare + at, PathMask(bare) + [false], Ref(ns), refMask);
    assert Encode(at, [false]) == at;
    MasksJoin(bare, PathMask(bare), Ref(ns), refMask);
  }

  lemma MasksJoin(bare: Bytes, bareMask: seq<bool>, ref: Bytes, refMask: seq<bool>)
    requires EscapesPercent(bare, bareMask) && EscapesPercent(ref, refMask)
    ensures EscapesPercent(bare + ['@'] + ref, bareMask + [false] + refMask)
  {
    var all, whole := bareMask + [false] + refMask, bare + ['@'] + ref;
    forall i | 0 <= i < |whole| && whole[i] == '%' ensures all[i] {
      if i < |bare| {
        assert whole[i] == bare[i] && all[i] == bareMask[i];
      } else if i > |bare| {
        assert whole[i] == ref[i - |bare| - 1] && all[i] == refMask[i - |bare| - 1];
      }
    }
  }

  lemma TildesComeFromTheName(ns: Namespace)
    ensures '~' !in Bare(ns) ==> '~' !in PlainName(ns)
    ensures '~' !in ns ==> '~' !in LegacyEncodeNS(ns) && '~' !in Bare(ns)
  {
    if '~' !in Bare(ns) {
      EncodeBytes(Bare(ns), PathMask(Bare(ns)), '~');
      if HasRef(ns) {
        SegmentBytes(Ref(ns));
      } else {
        assert Bare(ns) == ns;
      }
    }
    if '~' !in ns {
      EncodeBytes(Bare(ns), PathMask(Bare(ns)), '~');
      if HasRef(ns) {
        ColonsAreEscaped(Ref(ns));
        EncodeBytes(Ref(ns), LegacyMask(Ref(ns)), '~');
      } else {
        assert Bare(ns) == ns;
      }
    }
  }

  /** Every capped name fits, and its cut never falls inside an escape: what is
      kept is the encoding of a prefix of the namespace. */
  lemma CappedNamesFit(ns: Namespace, digest: Digest)
    ensures |EncodeNS(ns, digest)| <= MAX_NAME_LEN
    ensures |PlainName(ns)| > MAX_NAME_LEN ==>
      var kept := Decode(PlainName(ns)[..CutPoint(PlainName(ns))]);
      kept.Some? && kept.value <= ns
  {
    if |PlainName(ns)| > MAX_NAME_LEN {
      var k := KeptPrefix(ns);
      DecodeEncode(ns[..k], NameMask(ns, IdentityMask(Ref(ns)))[..k]);
    }
  }

  lemma KeptPrefix(ns: Namespace) returns (k: nat)
    requires |PlainName(ns)| > MAX_NAME_LEN
    ensures k <= |ns| == |NameMask(ns, IdentityMask(Ref(ns)))|
    ensures EscapesPercent(ns[..k], NameMask(ns, IdentityMask(Ref(ns)))[..k])
    ensures PlainName(ns)[..CutPoint(PlainName(ns))] == Encode(ns[..k], NameMask(ns, IdentityMask(Ref(ns)))[..k])
  {
    PlainNameEncodes(ns);
    var name, mask := PlainName(ns), NameMask(ns, IdentityMask(Ref(ns)));
    CutPointIsSafe(name);
    k := CutSplitsNoEscape(ns, mask, CutPoint(name));
  }

  lemma CutPointIsSafe(name: Bytes)
    requires |name| > MAX_NAME_LEN
    ensures var cut := CutPoint(name);
            name[cut] == '%' || forall i :: cut - 2 <= i < cut && 0 <= i ==> name[i] != '%'
  {
    var cut := MAX_NAME_LEN - 1 - HASH_LEN;
    var i := LastIndexOf(name[..cut], '%');
    forall k | cut - 2 <= k < cut ensures i < cut - 2 ==> name[k] != '%' {
      assert name[..cut][k] == name[k];
    }
  }

  predicate Capped(ns: Namespace) {
    |PlainName(ns)| > MAX_NAME_LEN
  }

  /** The names that spell their namespace out: its current one unless that is
      capped, and its earlier one. */
  predicate SpellsOut(ns: Namespace, digest: Digest, name: Bytes) {
    name in CacheNames(ns, digest) && (name == LegacyEncodeNS(ns) || !Capped(ns))
  }

  /** The capped name of `a` happens to spell out `b`. */
  predicate Shadows(a: Namespace, b: Namespace, digest: Digest) {
    Capped(a) && SpellsOut(b, digest, EncodeNS(a, digest))
  }

  ghost predicate ShareName(a: Namespace, b: Namespace, digest: Digest) {
    exists name :: name in CacheNames(a, digest) && name in CacheNames(b, digest)
  }

  lemma OneNamespaceSpelledOut(a: Namespace, b: Namespace, digest: Digest, name: Bytes)
    requires SpellsOut(a, digest, name) && SpellsOut(b, digest, name)
    ensures a == b
  {
    NamesDecode(a);
    NamesDecode(b);
  }

  lemma OneDigestCapped(nameA: Bytes, a: Namespace, nameB: Bytes, b: Namespace, digest: Digest)
    requires |nameA| > MAX_NAME_LEN && |nameB| > MAX_NAME_LEN
    requires CapName(nameA, a, digest) == CapName(nameB, b, digest)
    ensures digest(a) == digest(b)
  {
    var capped := CapName(nameA, a, digest);
    assert capped[|capped| - HASH_LEN..] == digest(a);
    assert capped[|capped| - HASH_LEN..] == digest(b);
  }

  lemma {:induction false} SharedNameShadows(a: Namespace, b: Namespace, digest: Digest, name: Bytes)
    requires name in CacheNames(a, digest) && name in CacheNames(b, digest)
    requires a != b && digest(a) != digest(b)
    ensures Shadows(a, b, digest) || Shadows(b, a, digest)
  {
    if SpellsOut(a, digest, name) {
      if SpellsOut(b, digest, name) {
        OneNamespaceSpelledOut(a, b, digest, name);
      }
    } else if !SpellsOut(b, digest, name) {
      OneDigestCapped(PlainName(a), a, PlainName(b), b, digest);
    }
  }

  /** Exactly when two namespaces share a cache name of either generation, digests
      apart: when the capped name of one spells out the other. */
  lemma {:induction false} CacheNamesShared(a: Namespace, b: Namespace, digest: Digest)
    requires a != b && digest(a) != digest(b)
    ensures ShareName(a, b, digest) <==> Shadows(a, b, digest) || Shadows(b, a, digest)
  {
    if ShareName(a, b, digest) {
      var name :| name in CacheNames(a, digest) && name in CacheNames(b, digest);
      SharedNameShadows(a, b, digest, name);
    } else if Shadows(a, b, digest) {
      ShadowsShare(a, b, digest);
    } else if Shadows(b, a, digest) {
      ShadowsShare(b, a, digest);
    }
  }

  lemma {:induction false} ShadowsShare(a: Namespace, b: Namespace, digest: Digest)
    requires Shadows(a, b, digest)
    ensures ShareName(a, b, digest) && ShareName(b, a, digest)
  {
    assert EncodeNS(a, digest) in CacheNames(a, digest);
  }

  /** Only a namespace that holds a '~' can be spelled out by another's capped name,
      and only a bare one by its current name. */
  lemma ShadowsNeedTildes(a: Namespace, b: Namespace, digest: Digest)
    requires Shadows(a, b, digest)
    ensures '~' in b
    ensures EncodeNS(a, digest) == PlainName(b) ==> !HasRef(b)
  {
    CappedHasTilde(PlainName(a), a, digest);
    TildesComeFromTheName(b);
    if EncodeNS(a, digest) == PlainName(b) && HasRef(b) {
      SegmentBytes(Ref(b));
      LastTilde(PlainName(a), a, digest, PathEscape(Bare(b)), RefSegment(Ref(b)));
    }
  }

  /** Nothing but hexadecimal digits follows the '~' of a cap. */
  lemma LastTilde(name: Bytes, ns: Namespace, digest: Digest, front: Bytes, segment: Bytes)
    requires |name| > MAX_NAME_LEN && '~' !in segment
    ensures CapName(name, ns, digest) != front + ['@'] + segment
  {
    var capped, whole, cut := CapName(name, ns, digest), front + ['@'] + segment, CutPoint(name);
    assert capped[cut] == '~' && whole[|front|] == '@';
    assert forall k :: cut < k < |capped| ==> capped[k] == digest(ns)[k - cut - 1];
    assert forall k :: |front| < k < |whole| ==> whole[k] == segment[k - |front| - 1];
  }

  /** Two namespaces share a current cache name only if they are the same, their
      digests collide, or one is capped and the other a bare one that holds a '~'. */
  lemma CurrentNamesDiffer(a: Namespace, b: Namespace, digest: Digest)
    requires EncodeNS(a, digest) == EncodeNS(b, digest)
    ensures a == b || digest(a) == digest(b)
         || (Capped(a) && !HasRef(b) && '~' in b) || (Capped(b) && !HasRef(a) && '~' in a)
  {
    if Capped(a) && Capped(b) {
      OneDigestCapped(PlainName(a), a, PlainName(b), b, digest);
    } else if Capped(a) {
      ShadowsNeedTildes(a, b, digest);
    } else if Capped(b) {
      ShadowsNeedTildes(b, a, digest);
    } else {
      NamesDecode(a);
      NamesDecode(b);
    }
  }

  lemma CappedHasTilde(name: Bytes, ns: Namespace, digest: Digest)
    ensures |name| > MAX_NAME_LEN ==> '~' in CapName(name, ns, digest)
  {
    if |name| > MAX_NAME_LEN {
      assert CapName(name, ns, digest)[CutPoint(name)] == '~';
    }
  }

  /** Neither generation of cache names is shared between namespaces, unless they are
      the same, their digests collide, or one is capped and the other holds a '~'. */
  lemma CacheNamesDisjoint(a: Namespace, b: Namespace, digest: Digest, name: Bytes)
    requires name in CacheNames(a, digest) && name in CacheNames(b, digest)
    ensures a == b || digest(a) == digest(b) || (Capped(a) && '~' in b) || (Capped(b) && '~' in a)
  {
    if a != b && digest(a) != digest(b) {
      SharedNameShadows(a, b, digest, name);
      if Shadows(a, b, digest) {
        ShadowsNeedTildes(a, b, digest);
      } else {
        ShadowsNeedTildes(b, a, digest);
      }
    }
  }

  // ----------------------------------------- where a '~' breaks the isolation

  lemma NothingEscaped(s: Bytes)
    requires forall i :: 0 <= i < |s| ==> !PathMustEscape(s[i])
    ensures PathEscape(s) == s
  {
    EncodeNothing(s, PathMask(s));
  }

  lemma PathEscapeSplit(a: Bytes, b: Bytes)
    ensures PathEscape(a + b) == PathEscape(a) + PathEscape(b)
  {
    EncodeSplit(a, PathMask(a), b, PathMask(b));
    assert PathMask(a + b) == PathMask(a) + PathMask(b);
  }

  /** PathEscape leaves '~' alone, so what a long bare namespace is cut to is also
      the name of a shorter one that spells out the cut and the digest: every
      capped bare namespace has such a twin. */
  lemma TildeInBareCollides(a: Namespace, digest: Digest) returns (k: nat, b: Namespace)
    requires !HasRef(a) && |PlainName(a)| > MAX_NAME_LEN
    ensures k <= |a| && b == a[..k] + ['~'] + digest(a)
    ensures b != a && !HasRef(b) && EncodeNS(b, digest) == EncodeNS(a, digest)
  {
    k := KeptPrefix(a);
    var kept, tail := PlainName(a)[..CutPoint(PlainName(a))], ['~'] + digest(a);
    b := a[..k] + tail;
    assert b == a[..k] + ['~'] + digest(a);
    assert PathMask(a)[..k] == PathMask(a[..k]);
    PathEscapeSplit(a[..k], tail);
    NothingEscaped(tail);
    assert b[k] == '~';
    assert PathEscape(b) == EncodeNS(a, digest);
  }

  /** The earlier spelling left '~' alone in the selector too: every namespace
      whose plain selector is long enough to be cut has a twin that reads its
      entry as an entry of its own. */
  lemma {:induction false} TildeInRefCollides(bare: Bytes, ref: Bytes, digest: Digest) returns (tail: Bytes)
    requires '@' !in bare && '~' !in ref
    requires forall i :: 0 <= i < |ref| ==> IsLower(ref[i])
    requires |PathEscape(bare)| + 3 <= MAX_NAME_LEN - 1 - HASH_LEN && |PathEscape(bare)| + 1 + |ref| > MAX_NAME_LEN
    ensures tail != ref
         && LegacyEncodeNS(bare + ['@'] + tail) == EncodeNS(bare + ['@'] + ref, digest)
  {
    var a := bare + ['@'] + ref;
    var j := CappedPlainRef(bare, ref, digest);
    tail := SpelledCap(ref, j, digest(a));
    LegacyOfPlainRef(bare, tail);
    Regroup(PathEscape(bare) + ['@'], ref[..j], ['~'], digest(a));
  }

  lemma SpelledCap(ref: Bytes, j: nat, d: HexDigest) returns (tail: Bytes)
    requires j <= |ref| && '~' !in ref
    requires forall i :: 0 <= i < |ref| ==> IsLower(ref[i])
    ensures tail == ref[..j] + ['~'] + d && tail != ref
    ensures forall i :: 0 <= i < |tail| ==> !PathMustEscape(tail[i]) && tail[i] != ':'
  {
    tail := ref[..j] + ['~'] + d;
    TwinIsPlain(ref[..j], d);
    assert tail[j] == '~' && (j < |ref| ==> ref[j] in ref);
  }

  lemma TwinIsPlain(letters: Bytes, d: HexDigest)
    requires forall i :: 0 <= i < |letters| ==> IsLower(letters[i])
    ensures var tail: Bytes := letters + ['~'] + d;
            forall i :: 0 <= i < |tail| ==> !PathMustEscape(tail[i]) && tail[i] != ':'
  {
  }

  lemma Regroup(w: Bytes, x: Bytes, y: Bytes, z: Bytes)
    ensures w + (x + y + z) == w + x + y + z
  {
  }

  lemma {:induction false} CappedPlainRef(bare: Bytes, ref: Bytes, digest: Digest) returns (j: nat)
    requires '@' !in bare && forall i :: 0 <= i < |ref| ==> IsLower(ref[i])
    requires |PathEscape(bare)| + 3 <= MAX_NAME_LEN - 1 - HASH_LEN && |PathEscape(bare)| + 1 + |ref| > MAX_NAME_LEN
    ensures j <= |ref|
    ensures var a := bare + ['@'] + ref;
            EncodeNS(a, digest) == PathEscape(bare) + ['@'] + ref[..j] + ['~'] + digest(a)
  {
    var front, cut := PathEscape(bare) + ['@'], MAX_NAME_LEN - 1 - HASH_LEN;
    PlainOfPlainRef(bare, ref);
    LettersHoldNoPercent(front, ref, cut);
    CutNearLetters(front + ref, cut);
    j := cut - |front|;
    assert (front + ref)[..cut] == front + ref[..j];
  }

  lemma LettersHoldNoPercent(front: Bytes, ref: Bytes, cut: nat)
    requires |front| + 2 <= cut <= |front| + |ref| && forall i :: 0 <= i < |ref| ==> IsLower(ref[i])
    ensures (front + ref)[cut - 1] != '%' && (front + ref)[cut - 2] != '%'
  {
    assert (front + ref)[cut - 1] == ref[cut - 1 - |front|] && (front + ref)[cut - 2] == ref[cut - 2 - |front|];
  }

  lemma PlainOfPlainRef(bare: Bytes, ref: Bytes)
    requires '@' !in bare && forall i :: 0 <= i < |ref| ==> IsLower(ref[i])
    ensures PlainName(bare + ['@'] + ref) == PathEscape(bare) + ['@'] + ref
  {
    CutIsUnique(bare, ref);
    EncodeNothing(ref, IdentityMask(ref));
  }

  lemma LegacyOfPlainRef(bare: Bytes, ref: Bytes)
    requires '@' !in bare
    requires forall i :: 0 <= i < |ref| ==> !PathMustEscape(ref[i]) && ref[i] != ':'
    ensures LegacyEncodeNS(bare + ['@'] + ref) == PathEscape(bare) + ['@'] + ref
  {
    CutIsUnique(bare, ref);
    NothingEscaped(ref);
    NoColonsToReplace(ref);
  }

  lemma CutNearLetters(name: Bytes, cut: nat)
    requires |name| > MAX_NAME_LEN && cut == MAX_NAME_LEN - 1 - HASH_LEN
    requires name[cut - 1] != '%' && name[cut - 2] != '%'
    ensures CutPoint(name) == cut
  {
    assert name[..cut][cut - 1] == name[cut - 1] && name[..cut][cut - 2] == name[cut - 2];
  }
}
