/** The length-prefixed identity strings of a governed invocation: the logical operation key that
    deduplicates side effects, and the context fingerprint kept as evidence. */
module IdentityKeys {
  import opened Strings
  import opened Governance

  datatype OperationFields = OperationFields(
    organizationId: string, workflowRunId: string, workflowStepRunId: string, capabilityCode: string,
    requestedAction: Action, requestedPath: Option<string>, requestedCommand: Option<string>,
    inputReference: Option<string>)

  datatype ContextFields = ContextFields(
    organizationId: string, workflowRunId: string, workflowStepRunId: string, capabilityCode: string,
    providerId: string, requestedAction: Action, executionProfile: Profile,
    assuranceLevel: Option<string>, inputReference: Option<string>)

  /** What the key is meant to identify: an irrelevant path or command is no part of it. */
  datatype OperationIdentity = OperationIdentity(
    organizationId: string, workflowRunId: string, workflowStepRunId: string, capabilityCode: string,
    requestedAction: Action, target: Option<string>, inputReference: Option<string>)

  function Target(f: OperationFields): Option<string> {
    if IsFileMutation(f.requestedAction) then f.requestedPath
    else if f.requestedAction.RUN_COMMAND? then f.requestedCommand
    else None
  }

  function Identity(f: OperationFields): OperationIdentity {
    OperationIdentity(f.organizationId, f.workflowRunId, f.workflowStepRunId, f.capabilityCode,
                      f.requestedAction, Target(f), f.inputReference)
  }

  // ---- The builders ----

  datatype Field = Field(name: string, value: Option<string>)

  function EncodeField(x: Field): string {
    match x.value
    case None => ""
    case Some(v) => "|" + (x.name + ":" + Decimal(|v|) + ":" + v)
  }

  /** Every field that has a value, each preceded by the delimiter. */
  function Encode(fields: seq<Field>): string {
    if fields == [] then "" else EncodeField(fields[0]) + Encode(fields[1..])
  }

  /** The parts pushed so far join to the version followed by the encoding of `fields`. */
  ghost predicate Holds(parts: seq<string>, version: string, fields: seq<Field>) {
    parts != [] && Join(parts, "|") == version + Encode(fields)
  }

  /** Pushes `name:length:value` onto the parts unless the value is undefined. */
  method AppendLengthPrefixed(parts: seq<string>, name: string, value: Option<string>,
                              ghost version: string, ghost fields: seq<Field>)
    returns (extended: seq<string>)
    requires Holds(parts, version, fields)
    ensures Holds(extended, version, fields + [Field(name, value)])
  {
    extended := parts;
    HoldsExtend(parts, version, fields, Field(name, value));
    if value.Some? {
      extended := extended + [name + ":" + Decimal(|value.value|) + ":" + value.value];
    }
  }

  lemma HoldsExtend(parts: seq<string>, version: string, fields: seq<Field>, x: Field)
    requires Holds(parts, version, fields)
    ensures x.value.None? ==> Holds(parts, version, fields + [x])
    ensures x.value.Some? ==>
              Holds(parts + [x.name + ":" + Decimal(|x.value.value|) + ":" + x.value.value], version, fields + [x])
  {
    EncodeExtend(fields, x);
    if x.value.Some? {
      JoinStep(parts, version, Encode(fields), x.name + ":" + Decimal(|x.value.value|) + ":" + x.value.value);
    } else {
      assert Encode(fields + [x]) == Encode(fields);
    }
  }

  lemma JoinStep(parts: seq<string>, version: string, encoded: string, part: string)
    requires parts != [] && Join(parts, "|") == version + encoded
    ensures Join(parts + [part], "|") == version + (encoded + ("|" + part))
  {
    JoinExtend(parts, part);
    assert version + encoded + ("|" + part) == version + (encoded + ("|" + part));
  }

  lemma {:induction false} JoinExtend(parts: seq<string>, part: string)
    requires parts != []
    ensures Join(parts + [part], "|") == Join(parts, "|") + ("|" + part)
  {
    if |parts| == 1 {
    } else {
      assert (parts + [part])[1..] == parts[1..] + [part];
      JoinExtend(parts[1..], part);
    }
  }

  lemma {:induction false} EncodeExtend(fields: seq<Field>, x: Field)
    ensures Encode(fields + [x]) == Encode(fields) + EncodeField(x)
  {
    if fields == [] {
      assert Encode([x]) == EncodeField(x);
    } else {
      assert (fields + [x])[1..] == fields[1..] + [x];
      EncodeExtend(fields[1..], x);
    }
  }

  /** Action-aware target selection: exactly one authoritative source, other target fields ignored. */
  method AppendTarget(parts: seq<string>, f: OperationFields, ghost version: string) returns (extended: seq<string>)
    requires Holds(parts, version, OperationList(f)[..5])
    ensures Holds(extended, version, OperationList(f)[..7])
  {
    ghost var all := OperationList(f);
    extended := parts;
    TakeNext(all, 5);
    TakeNext(all, 6);
    if IsFileMutation(f.requestedAction) {
      extended := AppendLengthPrefixed(extended, "path", f.requestedPath, version, all[..5]);
      HoldsExtend(extended, version, all[..6], all[6]);
    } else if f.requestedAction.RUN_COMMAND? {
      HoldsExtend(extended, version, all[..5], all[5]);
      extended := AppendLengthPrefixed(extended, "cmd", f.requestedCommand, version, all[..6]);
    } else {
      HoldsExtend(extended, version, all[..5], all[5]);
      HoldsExtend(extended, version, all[..6], all[6]);
    }
  }

  function CommonList(org: string, run: string, step: string, cap: string): seq<Field> {
    [Field("org", Some(org)), Field("run", Some(run)), Field("step", Some(step)), Field("cap", Some(cap))]
  }

  /** The four fields every identity string starts with. */
  method AppendCommon(version: string, org: string, run: string, step: string, cap: string) returns (parts: seq<string>)
    ensures Holds(parts, version, CommonList(org, run, step, cap))
  {
    parts := [version];
    ghost var all := CommonList(org, run, step, cap);
    parts := AppendLengthPrefixed(parts, "org", Some(org), version, all[..0]);
    TakeNext(all, 0);
    parts := AppendLengthPrefixed(parts, "run", Some(run), version, all[..1]);
    TakeNext(all, 1);
    parts := AppendLengthPrefixed(parts, "step", Some(step), version, all[..2]);
    TakeNext(all, 2);
    parts := AppendLengthPrefixed(parts, "cap", Some(cap), version, all[..3]);
    TakeNext(all, 3);
    assert all[..4] == all;
  }

  method BuildLogicalOperationKey(f: OperationFields) returns (key: string)
    ensures key == LogicalOperationKey(f)
  {
    var v := "logop-v2";
    var parts := AppendCommon(v, f.organizationId, f.workflowRunId, f.workflowStepRunId, f.capabilityCode);
    ghost var all := OperationList(f);
    assert all[..4] == CommonList(f.organizationId, f.workflowRunId, f.workflowStepRunId, f.capabilityCode);
    parts := AppendLengthPrefixed(parts, "action", Some(ActionName(f.requestedAction)), v, all[..4]);
    TakeNext(all, 4);
    parts := AppendTarget(parts, f, v);
    TakeNext(all, 7);
    parts := AppendLengthPrefixed(parts, "in", f.inputReference, v, all[..7]);
    key := Join(parts, "|");
    assert all[..8] == all;
  }

  method AppendOptionals(parts: seq<string>, f: ContextFields, ghost version: string) returns (extended: seq<string>)
    requires Holds(parts, version, ContextList(f)[..7])
    ensures Holds(extended, version, ContextList(f)[..9])
  {
    ghost var all := ContextList(f);
    extended := parts;
    TakeNext(all, 7);
    TakeNext(all, 8);
    if f.assuranceLevel.Some? {
      extended := AppendLengthPrefixed(extended, "al", f.assuranceLevel, version, all[..7]);
    } else {
      HoldsExtend(extended, version, all[..7], all[7]);
    }
    if f.inputReference.Some? {
      extended := AppendLengthPrefixed(extended, "in", f.inputReference, version, all[..8]);
    } else {
      HoldsExtend(extended, version, all[..8], all[8]);
    }
  }

  method BuildInvocationFingerprint(f: ContextFields) returns (fingerprint: string)
    ensures fingerprint == InvocationFingerprint(f)
  {
    var v := "v1";
    var parts := AppendCommon(v, f.organizationId, f.workflowRunId, f.workflowStepRunId, f.capabilityCode);
    ghost var all := ContextList(f);
    assert all[..4] == CommonList(f.organizationId, f.workflowRunId, f.workflowStepRunId, f.capabilityCode);
    parts := AppendLengthPrefixed(parts, "prov", Some(f.providerId), v, all[..4]);
    TakeNext(all, 4);
    parts := AppendLengthPrefixed(parts, "action", Some(ActionName(f.requestedAction)), v, all[..5]);
    TakeNext(all, 5);
    parts := AppendLengthPrefixed(parts, "profile", Some(ProfileName(f.executionProfile)), v, all[..6]);
    TakeNext(all, 6);
    parts := AppendOptionals(parts, f, v);
    fingerprint := Join(parts, "|");
    assert all[..9] == all;
  }

  lemma TakeNext(all: seq<Field>, k: nat)
    requires k < |all|
    ensures all[..k] + [all[k]] == all[..k + 1]
  {
  }

  // ---- The strings they build ----

  function LogicalOperationKey(f: OperationFields): string {
    "logop-v2" + Encode(OperationList(f))
  }

  function InvocationFingerprint(f: ContextFields): string {
    "v1" + Encode(ContextList(f))
  }

  function OperationList(f: OperationFields): seq<Field> {
    [Field("org", Some(f.organizationId)), Field("run", Some(f.workflowRunId)),
     Field("step", Some(f.workflowStepRunId)), Field("cap", Some(f.capabilityCode)),
     Field("action", Some(ActionName(f.requestedAction))),
     Field("path", if IsFileMutation(f.requestedAction) then f.requestedPath else None),
     Field("cmd", if f.requestedAction.RUN_COMMAND? then f.requestedCommand else None),
     Field("in", f.inputReference)]
  }

  function ContextList(f: ContextFields): seq<Field> {
    [Field("org", Some(f.organizationId)), Field("run", Some(f.workflowRunId)),
     Field("step", Some(f.workflowStepRunId)), Field("cap", Some(f.capabilityCode)),
     Field("prov", Some(f.providerId)), Field("action", Some(ActionName(f.requestedAction))),
     Field("profile", Some(ProfileName(f.executionProfile))),
     Field("al", f.assuranceLevel), Field("in", f.inputReference)]
  }

  // ---- The decoder that undoes the encoder ----

  datatype Part = Part(name: string, value: string)

  /** The text before and after the first colon. */
  function CutAtColon(s: string): Option<(string, string)> {
    var k := IndexOfChar(s, ':');
    if k == |s| then None else Some((s[..k], s[k + 1..]))
  }

  /** Reads one `|name:length:value` and returns what follows it. */
  function ReadPart(s: string): (r: Option<(Part, string)>)
    ensures r.Some? ==> |r.value.1| < |s|
  {
    if s == [] || s[0] != '|' then None
    else
      match CutAtColon(s[1..])
      case None => None
      case Some((name, tail)) =>
        match CutAtColon(tail)
        case None => None
        case Some((digits, body)) =>
          if !AllDigits(digits) || ParseDecimal(digits) > |body| then None
          else Some((Part(name, body[..ParseDecimal(digits)]), body[ParseDecimal(digits)..]))
  }

  function Decode(s: string): Option<seq<Part>>
    decreases |s|
  {
    if s == [] then Some([])
    else
      match ReadPart(s)
      case None => None
      case Some((part, rest)) =>
        match Decode(rest)
        case None => None
        case Some(parts) => Some([part] + parts)
  }

  function Present(fields: seq<Field>): seq<Part> {
    if fields == [] then []
    else if fields[0].value.None? then Present(fields[1..])
    else [Part(fields[0].name, fields[0].value.value)] + Present(fields[1..])
  }

  ghost predicate PlainNames(fields: seq<Field>) {
    forall i | 0 <= i < |fields| :: ':' !in fields[i].name
  }

  lemma CutAtColonInverts(a: string, b: string)
    requires ':' !in a
    ensures CutAtColon(a + ":" + b) == Some((a, b))
  {
    IndexOfCharAt(a, ':', b);
    var s := a + ":" + b;
    assert s[..|a|] == a && s[|a| + 1..] == b;
  }

  lemma PartLayout(name: string, digits: string, v: string, later: string)
    ensures ("|" + (name + ":" + digits + ":" + v) + later)[1..] == name + ":" + (digits + ":" + (v + later))
  {
  }

  lemma ReadPartInverts(name: string, digits: string, v: string, later: string)
    requires ':' !in name && AllDigits(digits) && ParseDecimal(digits) == |v|
    ensures ReadPart("|" + (name + ":" + digits + ":" + v) + later) == Some((Part(name, v), later))
  {
    PartLayout(name, digits, v, later);
    ReadPartOf("|" + (name + ":" + digits + ":" + v) + later, name, digits, v + later);
    assert (v + later)[..|v|] == v && (v + later)[|v|..] == later;
  }

  lemma ReadPartOf(s: string, name: string, digits: string, body: string)
    requires s != [] && s[0] == '|' && s[1..] == name + ":" + (digits + ":" + body)
    requires ':' !in name && AllDigits(digits) && ParseDecimal(digits) <= |body|
    ensures ReadPart(s) == Some((Part(name, body[..ParseDecimal(digits)]), body[ParseDecimal(digits)..]))
  {
    CutAtColonInverts(name, digits + ":" + body);
    assert !IsDigit(':');
    CutAtColonInverts(digits, body);
    hide CutAtColon, ParseDecimal;
  }

  /** Whatever the values contain, delimiters included, decoding returns exactly the encoded fields. */
  lemma {:induction false} DecodeInvertsEncode(fields: seq<Field>)
    requires PlainNames(fields)
    ensures Decode(Encode(fields)) == Some(Present(fields))
    decreases |fields|
  {
    if fields == [] {
    } else {
      DecodeInvertsEncode(fields[1..]);
      var x := fields[0];
      if x.value.Some? {
        ParseDecimalInverts(|x.value.value|);
        ReadPartInverts(x.name, Decimal(|x.value.value|), x.value.value, Encode(fields[1..]));
      } else {
        assert Encode(fields) == Encode(fields[1..]);
      }
    }
  }

  // ---- Injectivity ----

  /** Field lists over the same distinct names. */
  ghost predicate SameShape(a: seq<Field>, b: seq<Field>) {
    && |a| == |b|
    && (forall i | 0 <= i < |a| :: a[i].name == b[i].name)
    && (forall i, j | 0 <= i < j < |a| :: a[i].name != a[j].name)
  }

  lemma {:induction false} PresentNames(fields: seq<Field>, name: string)
    requires forall i | 0 <= i < |fields| :: fields[i].name != name
    ensures forall p | p in Present(fields) :: p.name != name
  {
    if fields == [] {
    } else {
      PresentNames(fields[1..], name);
    }
  }

  lemma {:induction false} PresentIdentifies(a: seq<Field>, b: seq<Field>)
    requires SameShape(a, b) && Present(a) == Present(b)
    ensures a == b
  {
    if a == [] {
    } else {
      PresentNames(a[1..], a[0].name);
      PresentNames(b[1..], a[0].name);
      assert a[0].value.Some? ==> Present(a)[0].name == a[0].name;
      assert b[0].value.Some? ==> Present(b)[0].name == a[0].name;
      assert a[0].value.Some? == b[0].value.Some?;
      if a[0].value.Some? {
        assert Present(a)[0] == Present(b)[0];
        assert Present(a[1..]) == Present(a)[1..] == Present(b)[1..] == Present(b[1..]);
      }
      PresentIdentifies(a[1..], b[1..]);
      assert a == [a[0]] + a[1..] && b == [b[0]] + b[1..];
    }
  }

  lemma EncodeIdentifies(a: seq<Field>, b: seq<Field>)
    requires SameShape(a, b) && PlainNames(a) && Encode(a) == Encode(b)
    ensures a == b
  {
    DecodeInvertsEncode(a);
    DecodeInvertsEncode(b);
    PresentIdentifies(a, b);
  }

  /** Two logical operation keys are equal exactly when they identify the same operation. */
  lemma LogicalOperationKeyInjective(f: OperationFields, g: OperationFields)
    ensures LogicalOperationKey(f) == LogicalOperationKey(g) <==> Identity(f) == Identity(g)
  {
    var a, b := OperationList(f), OperationList(g);
    if LogicalOperationKey(f) == LogicalOperationKey(g) {
      assert LogicalOperationKey(f)[8..] == Encode(a) && LogicalOperationKey(g)[8..] == Encode(b);
      OperationShape(f, g);
      EncodeIdentifies(a, b);
      assert forall i | 0 <= i < 8 :: a[i].value == b[i].value;
      ActionNameInjective(f.requestedAction, g.requestedAction);
    }
  }

  lemma OperationShape(f: OperationFields, g: OperationFields)
    ensures SameShape(OperationList(f), OperationList(g)) && PlainNames(OperationList(f))
  {
  }

  /** Two fingerprints are equal exactly when every field of the governed context is equal. */
  lemma InvocationFingerprintInjective(f: ContextFields, g: ContextFields)
    ensures InvocationFingerprint(f) == InvocationFingerprint(g) <==> f == g
  {
    var a, b := ContextList(f), ContextList(g);
    if InvocationFingerprint(f) == InvocationFingerprint(g) {
      assert InvocationFingerprint(f)[2..] == Encode(a) && InvocationFingerprint(g)[2..] == Encode(b);
      ContextShape(f, g);
      EncodeIdentifies(a, b);
      assert forall i | 0 <= i < 9 :: a[i].value == b[i].value;
      ActionNameInjective(f.requestedAction, g.requestedAction);
      ProfileNameInjective(f.executionProfile, g.executionProfile);
    }
  }

  lemma ContextShape(f: ContextFields, g: ContextFields)
    ensures SameShape(ContextList(f), ContextList(g)) && PlainNames(ContextList(f))
  {
  }
}
