/** Editing the daemon configuration: setting what a request names, withdrawing
    what makes the document invalid, and sanitizing what is read from disk.

    A document maps every dotted key to its scalar; which value each key's own
    rule accepts, and how a raw value is decoded, are given by the schema. The
    one rule that spans two keys is spelled out. */
module ConfigPatch {
  import opened Wrappers

  /** A dotted key; the two ends of the port range have names of their own. */
  datatype Key = PortStart | PortEnd | Other(path: string)
  /** A JSON value as it was sent. */
  datatype Raw = Null | Json(text: string)
  datatype Value = BoolValue(b: bool) | IntValue(i: int) | TextValue(s: string)
  datatype Message = UnknownSetting | WrongType | BelowStart | Broken(text: string)
  datatype FieldError = FieldError(key: Key, message: Message)
  type Doc = map<Key, Value>

  const DEFAULT_PORT_START := 49152
  const DEFAULT_PORT_END := 65535

  /** `rule` gives the complaint about a value its key's own rule refuses. */
  datatype Schema = Schema(
    keys: seq<Key>, rule: (Key, Value) -> Option<string>, decode: (Key, Raw) -> Option<Value>, defaults: Doc)

  predicate ValidPort(v: Value) {
    v.IntValue? && 1 <= v.i <= 65535
  }

  predicate IsPort(key: Key) {
    key.PortStart? || key.PortEnd?
  }

  ghost predicate NoDuplicates(s: seq<Key>) {
    forall i, j :: 0 <= i < j < |s| ==> s[i] != s[j]
  }

  ghost predicate WellFormed(s: Schema) {
    && NoDuplicates(s.keys) && PortStart in s.keys && PortEnd in s.keys
    && Covers(s, s.defaults)
    && s.defaults[PortStart] == IntValue(DEFAULT_PORT_START) && s.defaults[PortEnd] == IntValue(DEFAULT_PORT_END)
    && (forall k :: k in s.keys ==> s.rule(k, s.defaults[k]).None?)
    && (forall k, v :: IsPort(k) ==> (s.rule(k, v).None? <==> ValidPort(v)))
  }

  ghost predicate Covers(s: Schema, d: Doc) {
    d.Keys == AsSet(s.keys)
  }

  // --------------------------------------------------------------- validation

  function FieldErrors(s: Schema, keys: seq<Key>, d: Doc): seq<FieldError>
    requires forall k :: k in keys ==> k in d
  {
    if keys == [] then []
    else
      var complaint := s.rule(keys[0], d[keys[0]]);
      (if complaint.Some? then [FieldError(keys[0], Broken(complaint.value))] else []) + FieldErrors(s, keys[1..], d)
  }

  predicate RangeFails(d: Doc) {
    && PortStart in d && PortEnd in d
    && ValidPort(d[PortStart]) && ValidPort(d[PortEnd]) && d[PortStart].i > d[PortEnd].i
  }

  function PortRangeErrors(d: Doc): seq<FieldError> {
    if RangeFails(d) then [FieldError(PortEnd, BelowStart)] else []
  }

  function Validate(s: Schema, d: Doc): seq<FieldError>
    requires Covers(s, d)
  {
    FieldErrors(s, s.keys, d) + PortRangeErrors(d)
  }

  ghost predicate Fails(s: Schema, d: Doc, k: Key)
    requires Covers(s, d)
  {
    (k in s.keys && s.rule(k, d[k]).Some?) || (k == PortEnd && RangeFails(d))
  }

  lemma {:induction false} FieldErrorsAreFailures(s: Schema, keys: seq<Key>, d: Doc, k: Key)
    requires forall j :: j in keys ==> j in d
    ensures (exists e :: e in FieldErrors(s, keys, d) && e.key == k) <==> (k in keys && s.rule(k, d[k]).Some?)
  {
    if keys != [] {
      FieldErrorsAreFailures(s, keys[1..], d, k);
      var complaint := s.rule(keys[0], d[keys[0]]);
      assert keys == [keys[0]] + keys[1..];
      if k == keys[0] && complaint.Some? {
        assert FieldError(k, Broken(complaint.value)) in FieldErrors(s, keys, d);
      }
      if e :| e in FieldErrors(s, keys[1..], d) && e.key == k {
        assert e in FieldErrors(s, keys, d);
      }
    }
  }

  /** The report names exactly the keys that fail. */
  lemma ReportIsExact(s: Schema, d: Doc, k: Key)
    requires Covers(s, d)
    ensures (exists e :: e in Validate(s, d) && e.key == k) <==> Fails(s, d, k)
  {
    FieldErrorsAreFailures(s, s.keys, d, k);
    if e :| e in FieldErrors(s, s.keys, d) && e.key == k {
      assert e in Validate(s, d);
    }
    if RangeFails(d) {
      assert FieldError(PortEnd, BelowStart) in Validate(s, d);
    }
  }

  ghost predicate Passes(s: Schema, d: Doc)
    requires Covers(s, d)
  {
    forall k :: !Fails(s, d, k)
  }

  lemma PassesMeansNoReport(s: Schema, d: Doc)
    requires Covers(s, d)
    ensures Validate(s, d) == [] <==> Passes(s, d)
  {
    if Validate(s, d) != [] {
      var e := Validate(s, d)[0];
      assert e in Validate(s, d);
      ReportIsExact(s, d, e.key);
    }
    forall k | Fails(s, d, k) ensures Validate(s, d) != [] {
      ReportIsExact(s, d, k);
    }
  }

  // --------------------------------------------------------------- sanitizing

  ghost function Sanitized(s: Schema, d: Doc): Doc
    requires WellFormed(s) && Covers(s, d)
  {
    map k | k in d :: if Fails(s, d, k) then s.defaults[k] else d[k]
  }

  method Sanitize(s: Schema, data: Doc) returns (d: Doc, corrected: seq<FieldError>)
    requires WellFormed(s) && Covers(s, data)
    ensures d == Sanitized(s, data) && corrected == Validate(s, data)
  {
    corrected := Validate(s, data);
    d := RestoreFields(s, data, corrected);
    RestoredIsSanitized(s, data);
  }

  method RestoreFields(s: Schema, data: Doc, errors: seq<FieldError>) returns (d: Doc)
    requires Covers(s, s.defaults) && Covers(s, data)
    ensures Covers(s, d) && d == Restored(s, data, errors)
  {
    d := data;
    ghost var done: seq<FieldError> := [];
    for i := 0 to |errors|
      invariant Covers(s, d) && done == errors[..i] && d == Restored(s, data, done)
    {
      RestoredSnoc(s, data, done, errors[i]);
      d := RestoreField(s, d, s.defaults, errors[i].key);
      done := done + [errors[i]];
    }
    assert errors[..|errors|] == errors;
  }

  ghost function Restored(s: Schema, d: Doc, errors: seq<FieldError>): (r: Doc)
    requires Covers(s, s.defaults) && Covers(s, d)
    ensures Covers(s, r)
  {
    if errors == [] then d
    else RestoreField(s, Restored(s, d, errors[..|errors| - 1]), s.defaults, errors[|errors| - 1].key)
  }

  lemma {:induction false} RestoredSnoc(s: Schema, d: Doc, errors: seq<FieldError>, error: FieldError)
    requires Covers(s, s.defaults) && Covers(s, d)
    ensures Restored(s, d, errors + [error]) == RestoreField(s, Restored(s, d, errors), s.defaults, error.key)
  {
    assert (errors + [error])[..|errors|] == errors;
  }

  lemma {:induction false} RestoredKey(s: Schema, d: Doc, errors: seq<FieldError>, k: Key)
    requires Covers(s, s.defaults) && Covers(s, d) && k in s.keys
    ensures Restored(s, d, errors)[k] == if (exists e :: e in errors && e.key == k) then s.defaults[k] else d[k]
  {
    if errors != [] {
      var front, last := errors[..|errors| - 1], errors[|errors| - 1];
      RestoredKey(s, d, front, k);
      assert errors == front + [last];
      assert last in errors;
    }
  }

  lemma {:induction false} RestoredIsSanitized(s: Schema, d: Doc)
    requires WellFormed(s) && Covers(s, d)
    ensures Restored(s, d, Validate(s, d)) == Sanitized(s, d)
  {
    forall k | k in d ensures Restored(s, d, Validate(s, d))[k] == Sanitized(s, d)[k] {
      RestoredSanitizedKey(s, d, k);
    }
    assert Restored(s, d, Validate(s, d)).Keys == Sanitized(s, d).Keys;
  }

  lemma {:induction false} RestoredSanitizedKey(s: Schema, d: Doc, k: Key)
    requires WellFormed(s) && Covers(s, d) && k in d
    ensures Restored(s, d, Validate(s, d))[k] == Sanitized(s, d)[k]
  {
    RestoredKey(s, d, Validate(s, d), k);
    ReportIsExact(s, d, k);
  }

  /** Copies one field; a key the schema does not have is ignored. */
  function RestoreField(s: Schema, dst: Doc, src: Doc, key: Key): Doc
    requires Covers(s, dst) && Covers(s, src)
  {
    if key in s.keys then dst[key := src[key]] else dst
  }

  /** Sanitizing is one pass, and correcting an invalid start can leave it above a
      small but valid end. It yields a valid document in every other case, and a
      second pass always does. */
  lemma SanitizeExact(s: Schema, d: Doc)
    requires WellFormed(s) && Covers(s, d)
    ensures var once := Sanitized(s, d);
            && (Passes(s, once) <==>
                  !(!ValidPort(d[PortStart]) && ValidPort(d[PortEnd]) && d[PortEnd].i < DEFAULT_PORT_START))
            && (forall k :: Fails(s, once, k) ==> k == PortEnd && RangeFails(once))
            && Passes(s, Sanitized(s, once))
            && (once == d <==> Passes(s, d))
  {
    var once := Sanitized(s, d);
    var twice := Sanitized(s, once);
    assert IsPort(PortStart) && IsPort(PortEnd);
    forall k | k in s.keys ensures s.rule(k, once[k]).None? && s.rule(k, twice[k]).None? {
    }
    if RangeFails(once) {
      assert Fails(s, once, PortEnd);
    }
    if Passes(s, d) {
      assert once == d;
    } else {
      var k :| Fails(s, d, k);
      assert once[k] == s.defaults[k];
    }
  }

  // ----------------------------------------------------------------- patching

  /** What a request asks a key to become; None when it cannot be set. */
  function Requested(s: Schema, settings: map<Key, Raw>, key: Key): Option<Value>
    requires Covers(s, s.defaults)
  {
    if key !in s.keys || key !in settings then None
    else if settings[key].Null? then Some(s.defaults[key])
    else s.decode(key, settings[key])
  }

  /** The document with every listed key set as requested. */
  ghost function With(s: Schema, d: Doc, settings: map<Key, Raw>, keys: set<Key>): Doc
    requires Covers(s, s.defaults) && Covers(s, d)
    requires forall k :: k in keys ==> Requested(s, settings, k).Some?
  {
    map k | k in d :: if k in keys then Requested(s, settings, k).value else d[k]
  }

  ghost function Settable(s: Schema, settings: map<Key, Raw>): set<Key>
    requires Covers(s, s.defaults)
  {
    set k | k in settings && Requested(s, settings, k).Some?
  }

  method SetField(s: Schema, dst: Doc, settings: map<Key, Raw>, key: Key) returns (d: Doc, message: Option<Message>)
    requires WellFormed(s) && Covers(s, dst) && key in settings
    ensures message.None? <==> Requested(s, settings, key).Some?
    ensures d == if message.None? then dst[key := Requested(s, settings, key).value] else dst
  {
    if key !in s.keys {
      return dst, Some(UnknownSetting);
    }
    if settings[key].Null? {
      return RestoreField(s, dst, s.defaults, key), None;
    }
    var value := s.decode(key, settings[key]);
    if value.None? {
      return dst, Some(WrongType);
    }
    return dst[key := value.value], None;
  }

  function KeysOf(errors: seq<FieldError>): seq<Key> {
    seq(|errors|, i requires 0 <= i < |errors| => errors[i].key)
  }

  ghost predicate Disjoint(a: seq<Key>, b: seq<Key>) {
    forall k :: k in a ==> k !in b
  }

  /** Every key sent is in exactly one of the two lists, and there only once. */
  ghost predicate Partitions(sent: seq<Key>, applied: seq<Key>, rejected: seq<FieldError>) {
    && NoDuplicates(applied) && NoDuplicates(KeysOf(rejected)) && Disjoint(applied, KeysOf(rejected))
    && forall k :: k in sent <==> k in applied || k in KeysOf(rejected)
  }

  function AsSet(keys: seq<Key>): set<Key> {
    set k | k in keys
  }

  /** The listed keys that are in `t`, in their order. */
  function KeepIn(keys: seq<Key>, t: set<Key>): seq<Key> {
    if keys == [] then []
    else KeepIn(keys[..|keys| - 1], t) + (if keys[|keys| - 1] in t then [keys[|keys| - 1]] else [])
  }

  lemma KeepSnoc(keys: seq<Key>, last: Key, t: set<Key>)
    ensures KeepIn(keys + [last], t) == if last in t then KeepIn(keys, t) + [last] else KeepIn(keys, t)
  {
    assert (keys + [last])[..|keys|] == keys;
    assert KeepIn(keys, t) + [] == KeepIn(keys, t);
  }

  lemma {:induction false} KeepMembers(keys: seq<Key>, t: set<Key>)
    ensures forall k :: k in KeepIn(keys, t) <==> k in keys && k in t
  {
    if keys != [] {
      var front, last := keys[..|keys| - 1], keys[|keys| - 1];
      assert keys == front + [last];
      KeepMembers(front, t);
      KeepSnoc(front, last, t);
    }
  }

  lemma {:induction false} KeepTwice(keys: seq<Key>, t: set<Key>, u: set<Key>)
    requires u <= t
    ensures KeepIn(KeepIn(keys, t), u) == KeepIn(keys, u)
  {
    if keys != [] {
      var front, last := keys[..|keys| - 1], keys[|keys| - 1];
      assert keys == front + [last];
      KeepTwice(front, t, u);
      KeepSnoc(front, last, t);
      KeepSnoc(front, last, u);
      KeepSnoc(KeepIn(front, t), last, u);
    }
  }

  lemma PartitionSnoc(sent: seq<Key>, key: Key, applied: seq<Key>, rejected: seq<FieldError>, message: Message)
    requires Partitions(sent, applied, rejected) && key !in sent
    ensures Partitions(sent + [key], applied + [key], rejected)
    ensures Partitions(sent + [key], applied, rejected + [FieldError(key, message)])
  {
    assert KeysOf(rejected + [FieldError(key, message)]) == KeysOf(rejected) + [key];
  }

  /** Sets every named setting that can be decoded, in the order given. */
  method Set(s: Schema, configured: Doc, settings: map<Key, Raw>, sent: seq<Key>)
    returns (next: Doc, applied: seq<Key>, rejected: seq<FieldError>)
    requires WellFormed(s) && Covers(s, configured)
    requires NoDuplicates(sent) && forall k :: k in sent <==> k in settings
    ensures next == With(s, configured, settings, Settable(s, settings))
    ensures Partitions(sent, applied, rejected)
    ensures applied == KeepIn(sent, Settable(s, settings)) && AsSet(applied) == Settable(s, settings)
  {
    next, applied, rejected := configured, [], [];
    ghost var done: seq<Key> := [];
    var i := 0;
    while i < |sent|
      invariant i <= |sent| && done == sent[..i] && Covers(s, next)
      invariant SetSofar(s, configured, settings, done, next, applied, rejected)
    {
      var key := sent[i];
      NextKey(sent, i);
      var d, message := SetField(s, next, settings, key);
      SetStep(s, configured, settings, done, next, applied, rejected, key, message);
      done := done + [key];
      if message.Some? {
        rejected := rejected + [FieldError(key, message.value)];
      } else {
        applied := applied + [key];
      }
      next := d;
      i := i + 1;
    }
    assert done == sent;
    SetEnd(s, configured, settings, sent, next, applied, rejected);
  }

  lemma NextKey(sent: seq<Key>, i: nat)
    requires NoDuplicates(sent) && i < |sent|
    ensures sent[i] !in sent[..i] && sent[..i + 1] == sent[..i] + [sent[i]]
  {
  }

  lemma SetEnd(s: Schema, configured: Doc, settings: map<Key, Raw>, sent: seq<Key>,
               next: Doc, applied: seq<Key>, rejected: seq<FieldError>)
    requires Covers(s, s.defaults) && Covers(s, configured)
    requires SetSofar(s, configured, settings, sent, next, applied, rejected)
    requires forall k :: k in sent <==> k in settings
    ensures AsSet(applied) == Settable(s, settings)
  {
    KeepMembers(sent, Settable(s, settings));
  }

  ghost predicate SetSofar(s: Schema, configured: Doc, settings: map<Key, Raw>, done: seq<Key>,
                           next: Doc, applied: seq<Key>, rejected: seq<FieldError>)
    requires Covers(s, s.defaults) && Covers(s, configured)
  {
    var wanted := Settable(s, settings);
    && Partitions(done, applied, rejected) && applied == KeepIn(done, wanted)
    && AsSet(applied) <= wanted && next == With(s, configured, settings, AsSet(applied))
  }

  lemma SetStep(s: Schema, configured: Doc, settings: map<Key, Raw>, done: seq<Key>,
                next: Doc, applied: seq<Key>, rejected: seq<FieldError>, key: Key, message: Option<Message>)
    requires Covers(s, s.defaults) && Covers(s, configured) && Covers(s, next)
    requires SetSofar(s, configured, settings, done, next, applied, rejected) && key !in done && key in settings
    requires message.None? <==> Requested(s, settings, key).Some?
    ensures if message.None?
            then SetSofar(s, configured, settings, done + [key],
                          next[key := Requested(s, settings, key).value], applied + [key], rejected)
            else SetSofar(s, configured, settings, done + [key],
                          next, applied, rejected + [FieldError(key, message.value)])
  {
    KeepSnoc(done, key, Settable(s, settings));
    PartitionSnoc(done, key, applied, rejected, message.GetOr(WrongType));
    if message.None? {
      WithOneMore(s, configured, settings, AsSet(applied), key);
      assert AsSet(applied + [key]) == AsSet(applied) + {key};
    }
  }

  lemma WithOneMore(s: Schema, d: Doc, settings: map<Key, Raw>, keys: set<Key>, key: Key)
    requires Covers(s, s.defaults) && Covers(s, d) && key in s.keys && Requested(s, settings, key).Some?
    requires forall k :: k in keys ==> Requested(s, settings, k).Some?
    ensures With(s, d, settings, keys + {key}) == With(s, d, settings, keys)[key := Requested(s, settings, key).value]
  {
  }

  /** The setting a failure is answered by: the key itself when the caller sent it,
      or the other end of the port range when the caller sent that. */
  function BlameKey(key: Key, touched: set<Key>): Option<Key> {
    if key in touched then Some(key)
    else if key == PortEnd && PortStart in touched then Some(PortStart)
    else if key == PortStart && PortEnd in touched then Some(PortEnd)
    else None
  }

  ghost predicate Blamed(s: Schema, d: Doc, touched: set<Key>, blame: Key)
    requires Covers(s, d)
  {
    exists k :: Fails(s, d, k) && BlameKey(k, touched) == Some(blame)
  }

  method FirstBlamable(s: Schema, d: Doc, touched: set<Key>) returns (blame: Option<FieldError>)
    requires WellFormed(s) && Covers(s, d)
    ensures blame.Some? ==> blame.value.key in touched && Blamed(s, d, touched, blame.value.key)
    ensures blame.None? ==> forall k :: Fails(s, d, k) ==> BlameKey(k, touched).None?
  {
    var errors := Validate(s, d);
    var i := 0;
    while i < |errors|
      invariant i <= |errors|
      invariant forall e :: e in errors[..i] ==> BlameKey(e.key, touched).None?
    {
      var key := BlameKey(errors[i].key, touched);
      if key.Some? {
        assert errors[i] in errors;
        ReportIsExact(s, d, errors[i].key);
        return Some(FieldError(key.value, errors[i].message));
      }
      assert errors[..i + 1] == errors[..i] + [errors[i]];
      i := i + 1;
    }
    assert errors[..i] == errors;
    forall k | Fails(s, d, k) ensures BlameKey(k, touched).None? {
      ReportIsExact(s, d, k);
    }
    return None;
  }

  /** The port settings of a document satisfy every rule about them. */
  predicate PortsFine(d: Doc) {
    PortStart in d && PortEnd in d && ValidPort(d[PortStart]) && ValidPort(d[PortEnd])
    && d[PortStart].i <= d[PortEnd].i
  }

  predicate GoodPort(v: Option<Value>) {
    v.Some? && ValidPort(v.value)
  }

  ghost predicate PortsValid(s: Schema, d: Doc)
    requires WellFormed(s) && Covers(s, d)
  {
    ValidPort(d[PortStart]) && ValidPort(d[PortEnd])
  }

  /** The start a request names stands when it is a port not above the end named with
      it, or not above the configured end. */
  ghost predicate StartStands(s: Schema, configured: Doc, settings: map<Key, Raw>)
    requires WellFormed(s) && Covers(s, configured) && PortsValid(s, configured)
  {
    var start, end := Requested(s, settings, PortStart), Requested(s, settings, PortEnd);
    GoodPort(start) && ((GoodPort(end) && start.value.i <= end.value.i) || start.value.i <= configured[PortEnd].i)
  }

  /** The end stands when it is a port not below the start named with it, if that is a
      port, and otherwise not below the configured start. */
  ghost predicate EndStands(s: Schema, configured: Doc, settings: map<Key, Raw>)
    requires WellFormed(s) && Covers(s, configured) && PortsValid(s, configured)
  {
    var start, end := Requested(s, settings, PortStart), Requested(s, settings, PortEnd);
    GoodPort(end) && (if GoodPort(start) then start.value.i else configured[PortStart].i) <= end.value.i
  }

  /** Only ports that do not stand have been withdrawn, and a start before its end only
      because it is no port. */
  ghost predicate PortsSettling(s: Schema, configured: Doc, settings: map<Key, Raw>, touched: set<Key>)
    requires WellFormed(s) && Covers(s, configured) && PortsValid(s, configured)
  {
    && (PortStart !in touched ==> !StartStands(s, configured, settings))
    && (PortEnd !in touched ==> !EndStands(s, configured, settings))
    && (PortStart !in touched && PortEnd in touched ==> !GoodPort(Requested(s, settings, PortStart)))
  }

  ghost predicate PortsSettled(s: Schema, configured: Doc, settings: map<Key, Raw>, applied: set<Key>)
    requires WellFormed(s) && Covers(s, configured) && PortsValid(s, configured)
  {
    && (PortStart in applied <==> StartStands(s, configured, settings))
    && (PortEnd in applied <==> EndStands(s, configured, settings))
  }

  /** What `settle` keeps: untouched keys hold their configured value and touched
      ones the requested value; a key was withdrawn only for its own rule, or, for
      a port, because the request as a whole left the port range unusable and the
      port does not stand. */
  ghost predicate Settling(s: Schema, configured: Doc, settings: map<Key, Raw>, next: Doc, touched: set<Key>)
    requires WellFormed(s) && Covers(s, configured)
  {
    var wanted := Settable(s, settings);
    && touched <= wanted && next == With(s, configured, settings, touched)
    && (forall k :: k in wanted && !IsPort(k) && k !in touched ==> s.rule(k, Requested(s, settings, k).value).Some?)
    && (PortsFine(With(s, configured, settings, wanted)) ==> forall k :: k in wanted && IsPort(k) ==> k in touched)
    && (PortsValid(s, configured) ==> PortsSettling(s, configured, settings, touched))
  }

  lemma {:induction false} WithdrawalSettles(
    s: Schema, configured: Doc, settings: map<Key, Raw>, next: Doc, touched: set<Key>, blame: Key)
    requires WellFormed(s) && Covers(s, configured) && Settling(s, configured, settings, next, touched)
    requires blame in touched && Covers(s, next) && Blamed(s, next, touched, blame)
    ensures Settling(s, configured, settings, RestoreField(s, next, configured, blame), touched - {blame})
  {
    WithOneLess(s, configured, settings, touched, blame);
    if PortsValid(s, configured) {
      WithdrawalSettlesPorts(s, configured, settings, next, touched, blame);
    }
    var k :| Fails(s, next, k) && BlameKey(k, touched) == Some(blame);
    assert IsPort(blame) ==> IsPort(k);
    if PortsFine(With(s, configured, settings, Settable(s, settings))) {
      FinePortsFailNothing(s, configured, settings, next, touched, k);
    }
  }

  lemma {:induction false} WithdrawalSettlesPorts(
    s: Schema, configured: Doc, settings: map<Key, Raw>, next: Doc, touched: set<Key>, blame: Key)
    requires WellFormed(s) && Covers(s, configured) && Settling(s, configured, settings, next, touched)
    requires blame in touched && Covers(s, next) && Blamed(s, next, touched, blame) && PortsValid(s, configured)
    ensures PortsSettling(s, configured, settings, touched - {blame})
  {
    if IsPort(blame) {
      assert IsPort(PortStart) && IsPort(PortEnd);
      assert next[PortStart] == (if PortStart in touched then Requested(s, settings, PortStart).value else configured[PortStart]);
      assert next[PortEnd] == (if PortEnd in touched then Requested(s, settings, PortEnd).value else configured[PortEnd]);
    }
  }

  lemma WithOneLess(s: Schema, d: Doc, settings: map<Key, Raw>, keys: set<Key>, key: Key)
    requires Covers(s, s.defaults) && Covers(s, d) && key in s.keys
    requires forall k :: k in keys ==> Requested(s, settings, k).Some?
    ensures With(s, d, settings, keys - {key}) == With(s, d, settings, keys)[key := d[key]]
  {
  }

  lemma FinePortsFailNothing(s: Schema, configured: Doc, settings: map<Key, Raw>, next: Doc, touched: set<Key>, k: Key)
    requires WellFormed(s) && Covers(s, configured) && Covers(s, next)
    requires Settling(s, configured, settings, next, touched)
    requires PortsFine(With(s, configured, settings, Settable(s, settings)))
    ensures IsPort(k) ==> !Fails(s, next, k)
  {
    var all := With(s, configured, settings, Settable(s, settings));
    assert IsPort(PortStart) && IsPort(PortEnd);
    assert next[PortStart] == all[PortStart] && next[PortEnd] == all[PortEnd];
  }

  /** While settling: what was refused is what `Set` refused and what has been
      withdrawn since. */
  ghost predicate Ledger(applied: seq<Key>, rejected: seq<FieldError>, touched: set<Key>, refused: seq<FieldError>) {
    && NoDuplicates(KeysOf(refused))
    && forall k :: k in KeysOf(refused) <==> k in KeysOf(rejected) || (k in applied && k !in touched)
  }

  lemma LedgerStart(sent: seq<Key>, applied: seq<Key>, rejected: seq<FieldError>)
    requires Partitions(sent, applied, rejected)
    ensures Ledger(applied, rejected, AsSet(applied), rejected)
  {
  }

  lemma LedgerStep(sent: seq<Key>, applied: seq<Key>, rejected: seq<FieldError>, touched: set<Key>,
                   refused: seq<FieldError>, error: FieldError)
    requires Partitions(sent, applied, rejected) && Ledger(applied, rejected, touched, refused)
    requires touched <= AsSet(applied) && error.key in touched
    ensures Ledger(applied, rejected, touched - {error.key}, refused + [error])
  {
    assert KeysOf(refused + [error]) == KeysOf(refused) + [error.key];
  }

  lemma {:induction false} LedgerEnd(sent: seq<Key>, applied: seq<Key>, rejected: seq<FieldError>, wanted: set<Key>,
                  touched: set<Key>, refused: seq<FieldError>)
    requires Partitions(sent, applied, rejected) && applied == KeepIn(sent, wanted)
    requires Ledger(applied, rejected, touched, refused) && touched <= wanted && touched <= AsSet(applied)
    ensures Partitions(sent, KeepIn(applied, touched), refused)
    ensures KeepIn(applied, touched) == KeepIn(sent, touched) && AsSet(KeepIn(applied, touched)) == touched
  {
    KeepTwice(sent, wanted, touched);
    KeepMembers(applied, touched);
    KeepDistinct(applied, touched);
  }

  lemma {:induction false} KeepDistinct(keys: seq<Key>, t: set<Key>)
    requires NoDuplicates(keys)
    ensures NoDuplicates(KeepIn(keys, t))
  {
    if keys != [] {
      var front, last := keys[..|keys| - 1], keys[|keys| - 1];
      assert keys == front + [last];
      KeepDistinct(front, t);
      KeepMembers(front, t);
      KeepSnoc(front, last, t);
    }
  }

  /** Withdraws one setting at a time and validates again, until no failure is left
      that this request is answerable for. */
  method Settle(s: Schema, set': Doc, configured: Doc, settings: map<Key, Raw>, sent: seq<Key>,
                applied: seq<Key>, rejected: seq<FieldError>)
    returns (next: Doc, kept: seq<Key>, refused: seq<FieldError>)
    requires WellFormed(s) && Covers(s, configured)
    requires Partitions(sent, applied, rejected)
    requires applied == KeepIn(sent, Settable(s, settings)) && AsSet(applied) == Settable(s, settings)
    requires set' == With(s, configured, settings, Settable(s, settings))
    ensures Partitions(sent, kept, refused) && kept == KeepIn(sent, AsSet(kept))
    ensures Settling(s, configured, settings, next, AsSet(kept))
    ensures Covers(s, next) && forall k :: Fails(s, next, k) ==> BlameKey(k, AsSet(kept)).None?
  {
    next, refused := set', rejected;
    var touched := AsSet(applied);
    LedgerStart(sent, applied, rejected);
    var found := true;
    while found
      invariant Settling(s, configured, settings, next, touched) && Covers(s, next)
      invariant Ledger(applied, rejected, touched, refused)
      invariant !found ==> forall k :: Fails(s, next, k) ==> BlameKey(k, touched).None?
      decreases |touched|, found
    {
      var blame := FirstBlamable(s, next, touched);
      found := blame.Some?;
      if found {
        var error := blame.value;
        WithdrawalSettles(s, configured, settings, next, touched, error.key);
        LedgerStep(sent, applied, rejected, touched, refused, error);
        next := RestoreField(s, next, configured, error.key);
        refused := refused + [error];
        touched := touched - {error.key};
      }
    }
    LedgerEnd(sent, applied, rejected, Settable(s, settings), touched, refused);
    kept := Keep(applied, touched);
  }

  method Keep(applied: seq<Key>, touched: set<Key>) returns (kept: seq<Key>)
    ensures kept == KeepIn(applied, touched)
  {
    kept := [];
    var i := 0;
    while i < |applied|
      invariant i <= |applied| && kept == KeepIn(applied[..i], touched)
    {
      assert applied[..i + 1] == applied[..i] + [applied[i]];
      KeepSnoc(applied[..i], applied[i], touched);
      if applied[i] in touched {
        kept := kept + [applied[i]];
      }
      i := i + 1;
    }
    assert applied[..i] == applied;
  }

  class ConfigUsecase {
    const schema: Schema
    var stored: Doc  // the document the configuration file resolves to, before it is sanitized

    ghost predicate Valid()
      reads this
    {
      WellFormed(schema) && Covers(schema, stored)
    }

    constructor (schema: Schema)
      requires WellFormed(schema)
      ensures Valid() && this.schema == schema && stored == schema.defaults
    {
      this.schema := schema;
      stored := schema.defaults;
    }

    /** Persists the settings a request names and reports the ones it refused;
        `sent` lists the keys of the request in order. */
    method Patch(settings: map<Key, Raw>, sent: seq<Key>) returns (applied: seq<Key>, rejected: seq<FieldError>)
      requires Valid() && NoDuplicates(sent) && forall k :: k in sent <==> k in settings
      modifies this
      ensures Valid() && Partitions(sent, applied, rejected) && applied == KeepIn(sent, AsSet(applied))
      ensures applied == [] ==> stored == old(stored)
      ensures applied != [] ==> Safe(schema, Sanitized(schema, old(stored)), settings, AsSet(applied), stored)
      ensures applied != [] ==> Stores(schema, Sanitized(schema, old(stored)), settings, AsSet(applied), stored)
      ensures PortsValid(schema, Sanitized(schema, old(stored)))
      ensures PortsSettled(schema, Sanitized(schema, old(stored)), settings, AsSet(applied))
    {
      if |sent| == 0 {
        return [], [];
      }
      var configured, _ := Sanitize(schema, stored);
      var next, set', refused := Set(schema, configured, settings, sent);
      next, applied, rejected := Settle(schema, next, configured, settings, sent, set', refused);
      if |applied| == 0 {
        return;
      }
      SettledIsSafe(schema, configured, settings, next, AsSet(applied));
      SafeStores(schema, configured, settings, AsSet(applied), next);
      stored := next;
    }
  }

  /** What a patch promises about the document it saves. */
  ghost predicate Safe(s: Schema, configured: Doc, settings: map<Key, Raw>, applied: set<Key>, saved: Doc)
    requires WellFormed(s) && Covers(s, configured) && Covers(s, saved)
  {
    var wanted := Settable(s, settings);
    // it is the configured document with exactly the applied keys as requested
    && applied <= wanted && saved == With(s, configured, settings, applied)
    // it fails no rule the configured document did not already fail: neither a key's
    // own rule nor the one over both ports
    && (forall k :: Fails(s, saved, k) ==> Fails(s, configured, k))
    && (forall k :: k in s.keys && s.rule(k, saved[k]).Some? ==> s.rule(k, configured[k]).Some?)
    && (RangeFails(saved) ==> RangeFails(configured))
    // outside the port range, a setting stands exactly when its own rule accepts it
    && (forall k :: k in wanted && !IsPort(k) ==>
          (k in applied <==> s.rule(k, Requested(s, settings, k).value).None?))
    // a request whose ports are fine taken together keeps them
    && (PortsFine(With(s, configured, settings, wanted)) ==> forall k :: k in wanted && IsPort(k) ==> k in applied)
    // and the ports that stand are exactly those that are kept
    && (PortsValid(s, configured) ==> PortsSettled(s, configured, settings, applied))
  }

  /** Key by key: an applied null puts the default back and any other applied value is
      stored as it decodes, every other key keeps what it had, a key the schema lacks or
      a value that does not decode is never applied, and a null outside the ports always is. */
  ghost predicate Stores(s: Schema, configured: Doc, settings: map<Key, Raw>, applied: set<Key>, saved: Doc)
    requires WellFormed(s) && Covers(s, configured)
  {
    && saved.Keys == configured.Keys
    && (forall k :: k in applied ==> k in s.keys && k in settings)
    && (forall k :: k in applied ==>
          if settings[k] == Null then saved[k] == s.defaults[k] else s.decode(k, settings[k]) == Some(saved[k]))
    && (forall k :: k in saved && k !in applied ==> saved[k] == configured[k])
    && (forall k :: k in settings && k in s.keys && settings[k] == Null && !IsPort(k) ==> k in applied)
  }

  lemma SafeStores(s: Schema, configured: Doc, settings: map<Key, Raw>, applied: set<Key>, saved: Doc)
    requires WellFormed(s) && Covers(s, configured) && Covers(s, saved)
    requires Safe(s, configured, settings, applied, saved)
    ensures Stores(s, configured, settings, applied, saved)
  {
    forall k | k in settings && k in s.keys && settings[k] == Null && !IsPort(k) ensures k in applied {
      assert Requested(s, settings, k) == Some(s.defaults[k]);
      assert k in Settable(s, settings);
    }
  }

  lemma SettledIsSafe(s: Schema, configured: Doc, settings: map<Key, Raw>, next: Doc, touched: set<Key>)
    requires WellFormed(s) && Covers(s, configured) && Covers(s, next)
    requires Settling(s, configured, settings, next, touched)
    requires forall k :: Fails(s, next, k) ==> BlameKey(k, touched).None?
    ensures Safe(s, configured, settings, touched, next)
  {
    SettledFailsNoMore(s, configured, settings, next, touched);
    if PortsValid(s, configured) {
      PortsSettle(s, configured, settings, next, touched);
    }
  }

  lemma PortsSettle(s: Schema, configured: Doc, settings: map<Key, Raw>, next: Doc, touched: set<Key>)
    requires WellFormed(s) && Covers(s, configured) && Covers(s, next)
    requires Settling(s, configured, settings, next, touched) && PortsValid(s, configured)
    requires forall k :: Fails(s, next, k) ==> BlameKey(k, touched).None?
    ensures PortsSettled(s, configured, settings, touched)
  {
    assert IsPort(PortStart) && IsPort(PortEnd);
    assert PortStart in touched ==> !Fails(s, next, PortStart);
    assert PortStart in touched || PortEnd in touched ==> !Fails(s, next, PortEnd);
    assert next[PortStart] == (if PortStart in touched then Requested(s, settings, PortStart).value else configured[PortStart]);
    assert next[PortEnd] == (if PortEnd in touched then Requested(s, settings, PortEnd).value else configured[PortEnd]);
  }

  /** Withdrawing the start was never needless. Withdrawing the end was exactly when the
      start named with it, a port above the configured end, went too, and the end alone
      is not below the configured start. */
  lemma NeedlessWithdrawal(s: Schema, configured: Doc, settings: map<Key, Raw>, applied: set<Key>, saved: Doc)
    requires WellFormed(s) && Covers(s, configured) && Covers(s, saved) && PortsValid(s, configured)
    requires Safe(s, configured, settings, applied, saved)
    ensures var start, end := Requested(s, settings, PortStart), Requested(s, settings, PortEnd);
            && (start.Some? && PortStart !in applied ==> !PortsFine(saved[PortStart := start.value]))
            && (end.Some? && PortEnd !in applied ==>
                  (PortsFine(saved[PortEnd := end.value]) <==>
                     && GoodPort(start) && GoodPort(end) && start.value.i > configured[PortEnd].i
                     && start.value.i > end.value.i >= configured[PortStart].i))
  {
    assert saved[PortStart] == (if PortStart in applied then Requested(s, settings, PortStart).value else configured[PortStart]);
    assert saved[PortEnd] == (if PortEnd in applied then Requested(s, settings, PortEnd).value else configured[PortEnd]);
  }

  lemma SettledFailsNoMore(s: Schema, configured: Doc, settings: map<Key, Raw>, next: Doc, touched: set<Key>)
    requires WellFormed(s) && Covers(s, configured) && Covers(s, next)
    requires Settling(s, configured, settings, next, touched)
    requires forall k :: Fails(s, next, k) ==> BlameKey(k, touched).None?
    ensures forall k :: Fails(s, next, k) ==> Fails(s, configured, k)
    ensures forall k :: k in s.keys && s.rule(k, next[k]).Some? ==> s.rule(k, configured[k]).Some?
    ensures RangeFails(next) ==> RangeFails(configured)
    ensures forall k :: k in touched && !IsPort(k) ==> s.rule(k, Requested(s, settings, k).value).None?
  {
    forall k | k in s.keys && s.rule(k, next[k]).Some? ensures s.rule(k, configured[k]).Some? {
      assert Fails(s, next, k);
      assert k !in touched;
    }
    if RangeFails(next) {
      assert Fails(s, next, PortEnd);
      assert PortStart !in touched && PortEnd !in touched;
    }
    forall k | k in touched && !IsPort(k) ensures s.rule(k, Requested(s, settings, k).value).None? {
      assert !Fails(s, next, k);
    }
  }
}
