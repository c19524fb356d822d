/** Percent-encoding of byte strings (section 2.1 of RFC 3986), the common ground
    of every name the vault writes. Which bytes are escaped is left to a mask, so
    one decoding proof serves every encoder. */
module Percent {
  import opened Wrappers

  type Byte = c: char | c as int < 256
  type Bytes = seq<Byte>

  predicate IsUpper(c: Byte) { 'A' <= c <= 'Z' }
  predicate IsLower(c: Byte) { 'a' <= c <= 'z' }
  predicate IsDigit(c: Byte) { '0' <= c <= '9' }

  function HexDigit(n: nat): Byte
    requires n < 16
  {
    if n < 10 then (48 + n) as char else (55 + n) as char
  }

  function Unhex(c: Byte): (n: Option<nat>)
    ensures n.Some? ==> n.value < 16
  {
    if IsDigit(c) then Some(c as int - 48)
    else if 'A' <= c <= 'F' then Some(c as int - 55)
    else if 'a' <= c <= 'f' then Some(c as int - 87)
    else None
  }

  function Escaped(c: Byte): Bytes {
    ['%', HexDigit(c as int / 16), HexDigit(c as int % 16)]
  }

  /** `s` with the masked bytes escaped. */
  function Encode(s: Bytes, mask: seq<bool>): Bytes
    requires |mask| == |s|
  {
    if s == [] then []
    else (if mask[0] then Escaped(s[0]) else [s[0]]) + Encode(s[1..], mask[1..])
  }

  /** url.PathUnescape: None for a '%' that two hex digits do not follow. */
  function Decode(s: Bytes): Option<Bytes> {
    if s == [] then Some([])
    else if s[0] != '%' then
      var rest := Decode(s[1..]);
      if rest.None? then None else Some([s[0]] + rest.value)
    else if |s| < 3 || Unhex(s[1]).None? || Unhex(s[2]).None? then None
    else
      var c: Byte := (Unhex(s[1]).value * 16 + Unhex(s[2]).value) as char;
      var rest := Decode(s[3..]);
      if rest.None? then None else Some([c] + rest.value)
  }

  function Fold(c: Byte): Byte {
    if IsUpper(c) then (c as int + 32) as char else c
  }

  /** What a case-insensitive file system compares. */
  function FoldAll(s: Bytes): (t: Bytes)
    ensures |t| == |s|
  {
    if s == [] then [] else [Fold(s[0])] + FoldAll(s[1..])
  }

  // ---------------------------------------------------------------- decoding

  ghost predicate EscapesPercent(s: Bytes, mask: seq<bool>) {
    |mask| == |s| && forall i :: 0 <= i < |s| && s[i] == '%' ==> mask[i]
  }

  ghost predicate EscapesUpper(s: Bytes, mask: seq<bool>) {
    |mask| == |s| && forall i :: 0 <= i < |s| && IsUpper(s[i]) ==> mask[i]
  }

  lemma HexRoundTrip(c: Byte)
    ensures Unhex(Escaped(c)[1]) == Some(c as int / 16) && Unhex(Escaped(c)[2]) == Some(c as int % 16)
    ensures Unhex(Fold(Escaped(c)[1])) == Some(c as int / 16) && Unhex(Fold(Escaped(c)[2])) == Some(c as int % 16)
  {
  }

  /** Whatever else a mask escapes, decoding gives the bytes back. */
  lemma {:induction false} DecodeEncode(s: Bytes, mask: seq<bool>)
    requires EscapesPercent(s, mask)
    ensures Decode(Encode(s, mask)) == Some(s)
  {
    if s != [] {
      DecodeEncode(s[1..], mask[1..]);
      HexRoundTrip(s[0]);
      var rest := Encode(s[1..], mask[1..]);
      var e := Encode(s, mask);
      if mask[0] {
        assert e[0] == '%' && e[1] == Escaped(s[0])[1] && e[2] == Escaped(s[0])[2] && e[3..] == rest;
      } else {
        assert e[0] == s[0] && e[1..] == rest;
      }
      assert [s[0]] + s[1..] == s;
    }
  }

  lemma {:induction false} FoldSplit(a: Bytes, b: Bytes)
    ensures FoldAll(a + b) == FoldAll(a) + FoldAll(b)
  {
    if a == [] {
      assert a + b == b;
    } else {
      FoldSplit(a[1..], b);
      FoldFirst(a, b);
      assert [Fold(a[0])] + FoldAll(a[1..]) + FoldAll(b) == [Fold(a[0])] + (FoldAll(a[1..]) + FoldAll(b));
    }
  }

  lemma {:induction false} FoldFirst(a: Bytes, b: Bytes)
    requires a != []
    ensures FoldAll(a + b) == [Fold(a[0])] + FoldAll(a[1..] + b)
  {
    assert (a + b)[1..] == a[1..] + b && (a + b)[0] == a[0];
  }

  /** Even after case folding: the escapes that remain decode the same, and no
      letter that folding changes was left unescaped. */
  lemma {:induction false} DecodeFoldedEncode(s: Bytes, mask: seq<bool>)
    requires EscapesPercent(s, mask) && EscapesUpper(s, mask)
    ensures Decode(FoldAll(Encode(s, mask))) == Some(s)
  {
    if s != [] {
      DecodeFoldedEncode(s[1..], mask[1..]);
      HexRoundTrip(s[0]);
      var rest := Encode(s[1..], mask[1..]);
      var head := if mask[0] then Escaped(s[0]) else [s[0]];
      FoldSplit(head, rest);
      var e := FoldAll(head) + FoldAll(rest);
      if mask[0] {
        FoldTriple(head[0], head[1], head[2]);
        assert e[0] == '%' && e[1] == Fold(head[1]) && e[2] == Fold(head[2]) && e[3..] == FoldAll(rest);
      } else {
        assert FoldAll(head) == [s[0]];
        assert e[0] == s[0] && e[1..] == FoldAll(rest);
      }
      assert [s[0]] + s[1..] == s;
    }
  }

  lemma FoldTriple(a: Byte, b: Byte, c: Byte)
    ensures FoldAll([a, b, c]) == [Fold(a), Fold(b), Fold(c)]
  {
    assert [c][1..] == [] && FoldAll([c]) == [Fold(c)];
    assert [b, c][1..] == [c] && FoldAll([b, c]) == [Fold(b), Fold(c)];
    assert [a, b, c][1..] == [b, c];
  }

  lemma {:induction false} EncodeSplit(a: Bytes, maskA: seq<bool>, b: Bytes, maskB: seq<bool>)
    requires |maskA| == |a| && |maskB| == |b|
    ensures Encode(a + b, maskA + maskB) == Encode(a, maskA) + Encode(b, maskB)
  {
    if a == [] {
      assert a + b == b && maskA + maskB == maskB;
    } else {
      EncodeSplit(a[1..], maskA[1..], b, maskB);
      var head := if maskA[0] then Escaped(a[0]) else [a[0]];
      var x, y := Encode(a[1..], maskA[1..]), Encode(b, maskB);
      assert head + (x + y) == head + x + y;
      assert (a + b)[1..] == a[1..] + b && (maskA + maskB)[1..] == maskA[1..] + maskB;
    }
  }

  /** A byte appears in the encoded form only as itself left unescaped, as the
      escape mark, or as one of the upper-case hex digits. */
  lemma {:induction false} EncodeBytes(s: Bytes, mask: seq<bool>, c: Byte)
    requires |mask| == |s|
    requires c != '%' && !IsDigit(c) && !('A' <= c <= 'F')
    requires forall i :: 0 <= i < |s| && s[i] == c ==> mask[i]
    ensures c !in Encode(s, mask)
  {
    if s != [] {
      EncodeBytes(s[1..], mask[1..], c);
      assert c !in (if mask[0] then Escaped(s[0]) else [s[0]]);
    }
  }

  lemma {:induction false} EncodeNothing(s: Bytes, mask: seq<bool>)
    requires |mask| == |s| && forall i :: 0 <= i < |s| ==> !mask[i]
    ensures Encode(s, mask) == s
  {
    if s != [] {
      EncodeNothing(s[1..], mask[1..]);
    }
  }

  /** Escaping makes longer: only where nothing is escaped does the length stay. */
  lemma {:induction false} EscapesLengthen(s: Bytes, mask: seq<bool>)
    requires |mask| == |s|
    ensures |Encode(s, mask)| >= |s|
    ensures |Encode(s, mask)| == |s| ==> forall i :: 0 <= i < |s| ==> !mask[i]
  {
    if s != [] {
      EscapesLengthen(s[1..], mask[1..]);
      assert forall i :: 0 < i < |mask| ==> mask[i] == mask[1..][i - 1];
    }
  }

  /** The last byte of an encoded string is a hex digit or the last byte itself. */
  lemma EncodedEnd(s: Bytes, mask: seq<bool>)
    requires |mask| == |s| && s != []
    ensures var e, last := Encode(s, mask), |s| - 1;
            e != [] && if mask[last] then IsDigit(e[|e| - 1]) || 'A' <= e[|e| - 1] <= 'F' else e[|e| - 1] == s[last]
  {
    var last := |s| - 1;
    EncodeSplit(s[..last], mask[..last], [s[last]], [mask[last]]);
    assert s == s[..last] + [s[last]] && mask == mask[..last] + [mask[last]];
    assert Encode([s[last]], [mask[last]]) == if mask[last] then Escaped(s[last]) else [s[last]];
  }

  /** Before the first escape mark an encoded string is the string itself. */
  lemma {:induction false} UnescapedHead(s: Bytes, mask: seq<bool>, k: nat)
    requires |mask| == |s| && k <= |Encode(s, mask)| && '%' !in Encode(s, mask)[..k]
    ensures k <= |s| && Encode(s, mask)[..k] == s[..k]
    ensures forall i :: 0 <= i < k ==> !mask[i]
    ensures k < |Encode(s, mask)| && Encode(s, mask)[k] != '%' ==> k < |s| && !mask[k] && Encode(s, mask)[k] == s[k]
    ensures k == |Encode(s, mask)| ==> k == |s|
  {
    if s != [] {
      var e, rest := Encode(s, mask), Encode(s[1..], mask[1..]);
      if k > 0 {
        assert e[0] == e[..k][0] != '%';
        assert !mask[0] && e == [s[0]] + rest;
        assert e[..k] == [s[0]] + rest[..k - 1];
        UnescapedHead(s[1..], mask[1..], k - 1);
        assert s[..k] == [s[0]] + s[1..][..k - 1];
      }
    }
  }

  /** Cutting an encoded string at an escape mark, or anywhere two bytes past the
      last one, splits no escape: what is left encodes the first k bytes. */
  lemma {:induction false} CutSplitsNoEscape(s: Bytes, mask: seq<bool>, cut: nat) returns (k: nat)
    requires EscapesPercent(s, mask) && cut <= |Encode(s, mask)|
    requires var e := Encode(s, mask);
             (cut < |e| && e[cut] == '%') || forall i :: cut - 2 <= i < cut && 0 <= i ==> e[i] != '%'
    ensures k <= |s| && Encode(s[..k], mask[..k]) == Encode(s, mask)[..cut]
  {
    if cut == 0 {
      return 0;
    }
    HeadIsWhole(s, mask, cut);
    var head := if mask[0] then Escaped(s[0]) else [s[0]];
    k := CutSplitsNoEscape(s[1..], mask[1..], cut - |head|);
    k := k + 1;
    assert s[..k][1..] == s[1..][..k - 1] && mask[..k][1..] == mask[1..][..k - 1];
  }

  /** Such a cut leaves the first byte's encoding whole, and is such a cut of the rest. */
  lemma {:induction false} HeadIsWhole(s: Bytes, mask: seq<bool>, cut: nat)
    requires EscapesPercent(s, mask) && 0 < cut <= |Encode(s, mask)|
    requires var e := Encode(s, mask);
             (cut < |e| && e[cut] == '%') || forall i :: cut - 2 <= i < cut && 0 <= i ==> e[i] != '%'
    ensures s != [] && EscapesPercent(s[1..], mask[1..])
    ensures var head, rest := if mask[0] then Escaped(s[0]) else [s[0]], Encode(s[1..], mask[1..]);
            && |head| <= cut <= |head| + |rest| && Encode(s, mask)[..cut] == head + rest[..cut - |head|]
            && ((cut - |head| < |rest| && rest[cut - |head|] == '%')
                || forall i :: cut - |head| - 2 <= i < cut - |head| && 0 <= i ==> rest[i] != '%')
  {
    var e, rest := Encode(s, mask), Encode(s[1..], mask[1..]);
    var head := if mask[0] then Escaped(s[0]) else [s[0]];
    assert e == head + rest;
    if mask[0] {
      assert e[0] == '%' && e[1] != '%' && e[2] != '%';
    }
    assert cut >= |head| && e[|head|..] == rest;
    assert e[..cut] == head + rest[..cut - |head|];
  }
}
