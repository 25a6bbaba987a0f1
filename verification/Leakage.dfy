/** The output boundary of a governed invocation: provider metadata is sanitised, every
    adapter-controlled text is redacted, and only then does the result leave the boundary. */
module Leakage {
  import opened Strings
  import opened Redaction

  /** Metadata as an adapter may return it. Objects keep their entries in enumeration order. A `Callable` is
      a function with its own properties and the value that a call of it returns. */
  datatype Json =
    | Null | Bool(b: bool) | Number(n: real) | Text(s: string) | Date(ms: int)
    | Arr(items: seq<Json>) | Obj(entries: seq<Entry>) | Callable(entries: seq<Entry>, answer: Json)

  datatype Entry = Entry(key: string, value: Json)

  /** The parts of the boundary that are regular expressions or string conversion. */
  datatype Rules = Rules(
    patterns: seq<Pattern>, isSecretKey: string -> bool, isSecretValue: string -> bool,
    hasSecretShape: string -> bool, toText: Json -> string)

  predicate HasKey(entries: seq<Entry>, key: string) {
    exists i | 0 <= i < |entries| :: entries[i].key == key
  }

  // ---- Metadata sanitiser ----

  function SanitizeValue(key: string, v: Json, rules: Rules): Json
    decreases v, 1
  {
    if rules.isSecretKey(key) then Text(REDACTED)
    else
      match v
      case Text(s) => if rules.isSecretValue(s) then Text(REDACTED) else v
      case Obj(entries) => Obj(SanitizeEntries(entries, rules))
      case Date(_) => Obj([])   // a Date is an object without enumerable entries
      case Arr(items) => Arr(SanitizeItems(key, items, rules))
      case _ => v
  }

  function SanitizeItems(key: string, items: seq<Json>, rules: Rules): seq<Json>
    decreases items, 0
  {
    if items == [] then []
    else [SanitizeValue(key, items[0], rules)] + SanitizeItems(key, items[1..], rules)
  }

  function SanitizeEntries(entries: seq<Entry>, rules: Rules): seq<Entry>
    decreases entries, 0
  {
    if entries == [] then []
    else [Entry(entries[0].key, SanitizeValue(entries[0].key, entries[0].value, rules))]
         + SanitizeEntries(entries[1..], rules)
  }

  /** At every depth: nothing but the marker under a secret-looking key, no secret-looking text, no date. */
  predicate Sanitised(key: string, v: Json, rules: Rules)
    decreases v, 1
  {
    if rules.isSecretKey(key) then v == Text(REDACTED)
    else
      match v
      case Text(s) => s == REDACTED || !rules.isSecretValue(s)
      case Obj(entries) => EntriesSanitised(entries, rules)
      case Date(_) => false
      case Arr(items) => forall i | 0 <= i < |items| :: Sanitised(key, items[i], rules)
      case _ => true
  }

  predicate EntriesSanitised(entries: seq<Entry>, rules: Rules)
    decreases entries, 0
  {
    forall i | 0 <= i < |entries| :: Sanitised(entries[i].key, entries[i].value, rules)
  }

  /** Sanitising establishes this for every metadata value, and keeps every key. */
  lemma {:induction false} SanitizeEstablishes(key: string, v: Json, rules: Rules)
    ensures Sanitised(key, SanitizeValue(key, v, rules), rules)
    decreases v, 1
  {
    if !rules.isSecretKey(key) {
      match v
      case Obj(entries) => SanitizeEntriesEstablish(entries, rules);
      case Arr(items) => SanitizeItemsEstablish(key, items, rules);
      case _ =>
    }
  }

  lemma {:induction false} SanitizeEntriesEstablish(entries: seq<Entry>, rules: Rules)
    ensures EntriesSanitised(SanitizeEntries(entries, rules), rules)
    ensures |SanitizeEntries(entries, rules)| == |entries|
    ensures forall i | 0 <= i < |entries| :: SanitizeEntries(entries, rules)[i].key == entries[i].key
    decreases entries, 0
  {
    if entries != [] {
      SanitizeEstablishes(entries[0].key, entries[0].value, rules);
      SanitizeEntriesEstablish(entries[1..], rules);
      var rest := SanitizeEntries(entries[1..], rules);
      var all := SanitizeEntries(entries, rules);
      assert forall i | 1 <= i < |all| :: all[i] == rest[i - 1];
    }
  }

  lemma {:induction false} SanitizeItemsEstablish(key: string, items: seq<Json>, rules: Rules)
    ensures forall i | 0 <= i < |SanitizeItems(key, items, rules)| :: Sanitised(key, SanitizeItems(key, items, rules)[i], rules)
    decreases items, 0
  {
    if items != [] {
      SanitizeEstablishes(key, items[0], rules);
      SanitizeItemsEstablish(key, items[1..], rules);
    }
  }

  /** A sanitised value passes unchanged, so sanitising twice is sanitising once. */
  lemma {:induction false} SanitizeKeeps(key: string, v: Json, rules: Rules)
    requires Sanitised(key, v, rules)
    ensures SanitizeValue(key, v, rules) == v
    decreases v, 1
  {
    if !rules.isSecretKey(key) {
      match v
      case Obj(entries) => SanitizeEntriesKeep(entries, rules);
      case Arr(items) => SanitizeItemsKeep(key, items, rules);
      case _ =>
    }
  }

  lemma {:induction false} SanitizeEntriesKeep(entries: seq<Entry>, rules: Rules)
    requires EntriesSanitised(entries, rules)
    ensures SanitizeEntries(entries, rules) == entries
    decreases entries, 0
  {
    if entries != [] {
      SanitizeKeeps(entries[0].key, entries[0].value, rules);
      SanitizeEntriesKeep(entries[1..], rules);
      assert entries == [entries[0]] + entries[1..];
    }
  }

  lemma {:induction false} SanitizeItemsKeep(key: string, items: seq<Json>, rules: Rules)
    requires forall i | 0 <= i < |items| :: Sanitised(key, items[i], rules)
    ensures SanitizeItems(key, items, rules) == items
    decreases items, 0
  {
    if items != [] {
      SanitizeKeeps(key, items[0], rules);
      SanitizeItemsKeep(key, items[1..], rules);
      assert items == [items[0]] + items[1..];
    }
  }

  // ---- Deep redaction ----

  function RedactDeep(v: Json, secrets: seq<string>): Json
    decreases v, 1
  {
    match v
    case Text(s) => Text(RedactAll(s, secrets))
    case Arr(items) => Arr(RedactItems(items, secrets))
    case Obj(entries) => Obj(RedactInto([], entries, secrets))
    case _ => v
  }

  function RedactItems(items: seq<Json>, secrets: seq<string>): seq<Json>
    decreases items, 0
  {
    if items == [] then [] else [RedactDeep(items[0], secrets)] + RedactItems(items[1..], secrets)
  }

  /** Fills `output`; when two keys redact to the same text the first entry wins. */
  function RedactInto(output: seq<Entry>, entries: seq<Entry>, secrets: seq<string>): seq<Entry>
    decreases entries, 0
  {
    if entries == [] then output
    else
      var safeKey := RedactAll(entries[0].key, secrets);
      if HasKey(output, safeKey) then RedactInto(output, entries[1..], secrets)
      else RedactInto(output + [Entry(safeKey, RedactDeep(entries[0].value, secrets))], entries[1..], secrets)
  }

  method RedactTrustedSecretsDeep(value: Json, secrets: seq<string>) returns (r: Json)
    ensures r == RedactDeep(value, secrets)
    decreases value
  {
    match value
    case Text(s) =>
      var t := RedactExactSecretValues(s, secrets);
      r := Text(t);
    case Arr(items) =>
      var out: seq<Json> := [];
      for i := 0 to |items|
        invariant out + RedactItems(items[i..], secrets) == RedactItems(items, secrets)
      {
        var entry := RedactTrustedSecretsDeep(items[i], secrets);
        assert items[i..][1..] == items[i + 1..];
        out := out + [entry];
      }
      r := Arr(out);
    case Obj(entries) =>
      var output: seq<Entry> := [];
      for i := 0 to |entries|
        invariant RedactInto(output, entries[i..], secrets) == RedactInto([], entries, secrets)
      {
        var safeKey := RedactExactSecretValues(entries[i].key, secrets);
        assert entries[i..][1..] == entries[i + 1..];
        if HasKey(output, safeKey) {
          continue;
        }
        var inner := RedactTrustedSecretsDeep(entries[i].value, secrets);
        output := output + [Entry(safeKey, inner)];
      }
      r := Obj(output);
    case _ =>
      r := value;
  }

  // ---- What JavaScript can hold ----

  /** The longest array and the longest string of ECMAScript. */
  const MAX_ITEMS := 0xFFFF_FFFF
  const MAX_UNITS := 0x1F_FFFF_FFFF_FFFF

  /** A value within the limits of the language; plain data unless callables are admitted. */
  predicate Data(v: Json, callables: bool) {
    match v
    case Arr(items) => |items| <= MAX_ITEMS && forall i | 0 <= i < |items| :: Data(items[i], callables)
    case Obj(entries) => forall i | 0 <= i < |entries| :: Data(entries[i].value, callables)
    case Callable(_, _) => callables
    case _ => true
  }

  predicate DataEntries(entries: seq<Entry>, callables: bool) {
    forall i | 0 <= i < |entries| :: Data(entries[i].value, callables)
  }

  lemma {:induction false} SanitizeData(key: string, v: Json, rules: Rules)
    requires Data(v, false)
    ensures Data(SanitizeValue(key, v, rules), false)
    decreases v, 1
  {
    match v
    case Obj(entries) => SanitizeEntriesData(entries, rules);
    case Arr(items) => SanitizeItemsData(key, items, rules);
    case _ =>
  }

  lemma {:induction false} SanitizeEntriesData(entries: seq<Entry>, rules: Rules)
    requires DataEntries(entries, false)
    ensures DataEntries(SanitizeEntries(entries, rules), false)
    decreases entries, 0
  {
    if entries != [] {
      SanitizeData(entries[0].key, entries[0].value, rules);
      SanitizeEntriesData(entries[1..], rules);
    }
  }

  lemma {:induction false} SanitizeItemsData(key: string, items: seq<Json>, rules: Rules)
    requires forall i | 0 <= i < |items| :: Data(items[i], false)
    ensures var r := SanitizeItems(key, items, rules); |r| == |items| && forall i | 0 <= i < |r| :: Data(r[i], false)
    decreases items, 0
  {
    if items != [] {
      SanitizeData(key, items[0], rules);
      SanitizeItemsData(key, items[1..], rules);
    }
  }

  // ---- Absence of a secret ----

  /** No string and no key in the value contains `t`, at any depth; a function's properties belong to it. */
  predicate Free(v: Json, t: string) {
    match v
    case Text(s) => !Contains(s, t)
    case Arr(items) => forall i | 0 <= i < |items| :: Free(items[i], t)
    case Obj(entries) => forall i | 0 <= i < |entries| :: !Contains(entries[i].key, t) && Free(entries[i].value, t)
    case Callable(entries, _) => forall i | 0 <= i < |entries| :: !Contains(entries[i].key, t) && Free(entries[i].value, t)
    case _ => true
  }

  predicate EntriesFree(entries: seq<Entry>, t: string) {
    forall i | 0 <= i < |entries| :: !Contains(entries[i].key, t) && Free(entries[i].value, t)
  }

  predicate TextsFree(texts: seq<string>, t: string) {
    forall i | 0 <= i < |texts| :: !Contains(texts[i], t)
  }

  /** Plain data is free of every trusted secret after redaction, and stays plain data. */
  lemma {:induction false} RedactDeepFree(v: Json, secrets: seq<string>, t: string)
    requires BracketFree(t) && !Contains(INNER, t) && t in secrets && Data(v, false)
    ensures Free(RedactDeep(v, secrets), t) && Data(RedactDeep(v, secrets), false)
    decreases v, 1
  {
    match v
    case Text(s) => RedactAllFree(s, secrets, t);
    case Arr(items) => RedactItemsFree(items, secrets, t);
    case Obj(entries) => RedactIntoFree([], entries, secrets, t);
    case _ =>
  }

  lemma {:induction false} RedactItemsFree(items: seq<Json>, secrets: seq<string>, t: string)
    requires BracketFree(t) && !Contains(INNER, t) && t in secrets && forall i | 0 <= i < |items| :: Data(items[i], false)
    ensures var r := RedactItems(items, secrets);
            |r| == |items| && forall i | 0 <= i < |r| :: Free(r[i], t) && Data(r[i], false)
    decreases items, 0
  {
    if items == [] {
    } else {
      RedactDeepFree(items[0], secrets, t);
      RedactItemsFree(items[1..], secrets, t);
    }
  }

  lemma {:induction false} RedactIntoFree(output: seq<Entry>, entries: seq<Entry>, secrets: seq<string>, t: string)
    requires BracketFree(t) && !Contains(INNER, t) && t in secrets && EntriesFree(output, t) && DataEntries(output, false)
    requires DataEntries(entries, false)
    ensures EntriesFree(RedactInto(output, entries, secrets), t) && DataEntries(RedactInto(output, entries, secrets), false)
    decreases entries, 0
  {
    if entries == [] {
    } else {
      var safeKey := RedactAll(entries[0].key, secrets);
      RedactAllFree(entries[0].key, secrets, t);
      if HasKey(output, safeKey) {
        RedactIntoFree(output, entries[1..], secrets, t);
      } else {
        RedactDeepFree(entries[0].value, secrets, t);
        RedactIntoFree(output + [Entry(safeKey, RedactDeep(entries[0].value, secrets))], entries[1..], secrets, t);
      }
    }
  }

  // ---- Redaction changes nothing else ----

  ghost predicate DistinctKeys(entries: seq<Entry>) {
    forall i, j | 0 <= i < j < |entries| :: entries[i].key != entries[j].key
  }

  /** Every object in the value has distinct keys, as every JavaScript object does. */
  ghost predicate WellFormed(v: Json) {
    match v
    case Arr(items) => forall i | 0 <= i < |items| :: WellFormed(items[i])
    case Obj(entries) => DistinctKeys(entries) && forall i | 0 <= i < |entries| :: WellFormed(entries[i].value)
    case _ => true
  }

  lemma RedactAbsent(s: string, secret: string)
    requires !Contains(s, secret)
    ensures RedactAll(s, [secret]) == s
  {
  }

  /** A value in which the secret does not occur passes unchanged. */
  lemma {:induction false} RedactDeepIdentity(v: Json, secret: string)
    requires WellFormed(v) && Free(v, secret)
    ensures RedactDeep(v, [secret]) == v
    decreases v, 1
  {
    match v
    case Text(s) => RedactAbsent(s, secret);
    case Arr(items) => RedactItemsIdentity(items, secret);
    case Obj(entries) =>
      RedactIntoIdentity([], entries, secret);
      assert [] + entries == entries;
    case _ =>
  }

  lemma {:induction false} RedactItemsIdentity(items: seq<Json>, secret: string)
    requires forall i | 0 <= i < |items| :: WellFormed(items[i]) && Free(items[i], secret)
    ensures RedactItems(items, [secret]) == items
    decreases items, 0
  {
    if items == [] {
    } else {
      RedactDeepIdentity(items[0], secret);
      RedactItemsIdentity(items[1..], secret);
    }
  }

  lemma {:induction false} RedactIntoIdentity(output: seq<Entry>, entries: seq<Entry>, secret: string)
    requires DistinctKeys(output + entries) && EntriesFree(entries, secret)
    requires forall i | 0 <= i < |entries| :: WellFormed(entries[i].value)
    ensures RedactInto(output, entries, [secret]) == output + entries
    decreases entries, 0
  {
    if entries == [] {
      assert output + entries == output;
    } else {
      var e := entries[0];
      RedactAbsent(e.key, secret);
      assert (output + entries)[|output|] == e;
      assert forall i | 0 <= i < |output| :: (output + entries)[i] == output[i];
      RedactDeepIdentity(e.value, secret);
      assert output + [e] + entries[1..] == output + entries;
      RedactIntoIdentity(output + [e], entries[1..], secret);
    }
  }

  // ---- The normalised result ----

  datatype AdapterError = AdapterError(message: string, metadata: Option<seq<Entry>>)

  datatype AdapterResult = AdapterResult(
    outputReference: Option<string>, artifactReferences: seq<string>, evidenceReferences: seq<string>,
    metadata: seq<Entry>, usage: Option<seq<Entry>>, error: Option<AdapterError>)

  /** A list that the boundary built, or what the adapter's own `map` returned in its place. */
  datatype Listing = Texts(texts: seq<string>) | Foreign(value: Json)
  datatype CallListing = Calls(calls: seq<seq<Entry>>) | ForeignCalls(value: Json)

  datatype SideEffects = SideEffects(
    filesCreated: Listing, filesModified: Listing, filesDeleted: Listing,
    commandsExecuted: Listing, networkCalls: CallListing, artifactsCreated: seq<string>)

  datatype NormalizedError = NormalizedError(message: string, metadata: Option<seq<Entry>>)

  datatype Normalized = Normalized(
    outputReference: Option<string>, artifactReferences: seq<string>, evidenceReferences: seq<string>,
    metadata: seq<Entry>, usage: Option<seq<Entry>>, error: Option<NormalizedError>, sideEffects: SideEffects)

  /** A provider-controlled field of the wrong type makes the normalisation throw. */
  datatype Outcome<+T> = Threw | Returned(value: T)

  function Lookup(entries: seq<Entry>, key: string): Json {
    if entries == [] then Null
    else if entries[0].key == key then entries[0].value
    else Lookup(entries[1..], key)
  }

  /** `v?.key`, with `Null` for undefined. */
  function Member(v: Json, key: string): Json {
    if v.Obj? || v.Callable? then Lookup(v.entries, key) else Null
  }

  /** The value of `v.map(...)` when `v` is no array but brings a function of that name. */
  function OwnMap(v: Json): Option<Json> {
    if Member(v, "map").Callable? then Some(Member(v, "map").answer) else None
  }

  function Without(entries: seq<Entry>, key: string): seq<Entry> {
    if entries == [] then []
    else if entries[0].key == key then Without(entries[1..], key)
    else [entries[0]] + Without(entries[1..], key)
  }

  predicate Truthy(v: Json) {
    match v
    case Null => false
    case Bool(b) => b
    case Number(n) => n != 0.0
    case Text(s) => s != []
    case _ => true
  }

  predicate IsReferenceChar(c: char) {
    'a' <= c <= 'z' || 'A' <= c <= 'Z' || IsDigit(c) || c in "._~:/?#%-"
  }

  /** An opaque `gov://` reference free of secret material, or nothing. */
  function SanitizeReference(value: string, secrets: seq<string>, rules: Rules): seq<string> {
    if |value| == 0 || |value| > 512 || !StartsWith(value, "gov://") || |value| == 6
       || (exists c | c in value[6..] :: !IsReferenceChar(c)) then []
    else if (exists i | 0 <= i < |secrets| :: secrets[i] != [] && Contains(value, secrets[i])) || rules.hasSecretShape(value) then []
    else [value]
  }

  function SanitizeReferences(values: seq<string>, secrets: seq<string>, rules: Rules): seq<string> {
    if values == [] then []
    else SanitizeReference(values[0], secrets, rules) + SanitizeReferences(values[1..], secrets, rules)
  }

  function TextList(items: seq<Json>, secrets: seq<string>, rules: Rules): seq<string> {
    seq(|items|, i requires 0 <= i < |items| => RedactText(rules.toText(items[i]), secrets, rules.patterns))
  }

  function SideEffectTexts(v: Json, secrets: seq<string>, rules: Rules): Outcome<Listing> {
    if !Truthy(v) then Returned(Texts([]))
    else if v.Arr? then Returned(Texts(TextList(v.items, secrets, rules)))
    else if OwnMap(v).Some? then Returned(Foreign(OwnMap(v).value))
    else Threw
  }

  /** The own enumerable entries that `{...call}` copies: an array or a string contributes its indices. */
  function Spread(call: Json): seq<Entry> {
    match call
    case Obj(entries) => entries
    case Arr(items) => seq(|items|, i requires 0 <= i < |items| => Entry(Decimal(i), items[i]))
    case Text(s) => seq(|s|, i requires 0 <= i < |s| => Entry(Decimal(i), Text([s[i]])))
    case Callable(entries, _) => entries
    case _ => []
  }

  /** Besides null, a string that redaction made longer than strings can be has thrown before. */
  function NetworkCall(call: Json, secrets: seq<string>, rules: Rules): Outcome<seq<Entry>> {
    if call.Null? || (call.Text? && |call.s| > MAX_UNITS) then Threw
    else
      var destination := Member(call, "destination");
      var text := if destination.Null? then "" else rules.toText(destination);
      Returned(Without(Spread(call), "destination")
               + [Entry("destination", Text(RedactText(text, secrets, rules.patterns)))])
  }

  function NetworkCalls(calls: seq<Json>, secrets: seq<string>, rules: Rules): Outcome<seq<seq<Entry>>> {
    if calls == [] then Returned([])
    else
      var first := NetworkCall(calls[0], secrets, rules);
      var rest := NetworkCalls(calls[1..], secrets, rules);
      if first.Threw? || rest.Threw? then Threw else Returned([first.value] + rest.value)
  }

  function NetworkCallList(v: Json, secrets: seq<string>, rules: Rules): Outcome<CallListing> {
    if !Truthy(v) then Returned(Calls([]))
    else if v.Arr? then
      var calls := NetworkCalls(v.items, secrets, rules);
      if calls.Threw? then Threw else Returned(Calls(calls.value))
    else if OwnMap(v).Some? then Returned(ForeignCalls(OwnMap(v).value))
    else Threw
  }

  function SafeMetadata(entries: seq<Entry>, secrets: seq<string>, rules: Rules): seq<Entry> {
    RedactInto([], SanitizeEntries(entries, rules), secrets)
  }

  function SafeOptional(entries: Option<seq<Entry>>, secrets: seq<string>, rules: Rules): Option<seq<Entry>> {
    match entries
    case None => None
    case Some(e) => Some(SafeMetadata(e, secrets, rules))
  }

  function Secrets(credential: Option<string>): seq<string> {
    if credential.Some? && credential.value != [] then [credential.value] else []
  }

  /** The side effects are read from the metadata that both filters let through. */
  function EffectsOf(se: Json, artifacts: seq<string>, secrets: seq<string>, rules: Rules): Outcome<SideEffects> {
    var created := SideEffectTexts(Member(se, "filesCreated"), secrets, rules);
    var modified := SideEffectTexts(Member(se, "filesModified"), secrets, rules);
    var deleted := SideEffectTexts(Member(se, "filesDeleted"), secrets, rules);
    var commands := SideEffectTexts(Member(se, "commandsExecuted"), secrets, rules);
    var calls := NetworkCallList(Member(se, "networkCalls"), secrets, rules);
    if created.Threw? || modified.Threw? || deleted.Threw? || commands.Threw? || calls.Threw? then Threw
    else Returned(SideEffects(created.value, modified.value, deleted.value, commands.value, calls.value, artifacts))
  }

  function NormalizeAdapterResult(a: AdapterResult, credential: Option<string>, rules: Rules): Outcome<Normalized> {
    var secrets := Secrets(credential);
    var metadata := SafeMetadata(a.metadata, secrets, rules);
    var artifacts := SanitizeReferences(a.artifactReferences, secrets, rules);
    var effects := EffectsOf(Lookup(metadata, "sideEffects"), artifacts, secrets, rules);
    if effects.Threw? then Threw
    else
      Returned(Normalized(
        match a.outputReference {
          case None => None
          case Some(r) => var s := SanitizeReference(r, secrets, rules); if s == [] then None else Some(s[0])
        },
        artifacts,
        SanitizeReferences(a.evidenceReferences, secrets, rules),
        Without(metadata, "sideEffects"),
        SafeOptional(a.usage, secrets, rules),
        match a.error {
          case None => None
          case Some(e) => Some(NormalizedError(RedactText(e.message, secrets, rules.patterns),
                                               SafeOptional(e.metadata, secrets, rules)))
        },
        effects.value))
  }

  // ---- Completeness ----

  predicate OptionalFree(entries: Option<seq<Entry>>, t: string) {
    entries.Some? ==> EntriesFree(entries.value, t)
  }

  /** No adapter-controlled string and no object key of the result contains `t`. */
  predicate ResultFree(r: Normalized, t: string) {
    && (r.outputReference.Some? ==> !Contains(r.outputReference.value, t))
    && TextsFree(r.artifactReferences, t) && TextsFree(r.evidenceReferences, t)
    && EntriesFree(r.metadata, t) && OptionalFree(r.usage, t)
    && (r.error.Some? ==> !Contains(r.error.value.message, t) && OptionalFree(r.error.value.metadata, t))
    && EffectsFree(r.sideEffects, t)
  }

  predicate EffectsFree(se: SideEffects, t: string) {
    && ListingFree(se.filesCreated, t) && ListingFree(se.filesModified, t)
    && ListingFree(se.filesDeleted, t) && ListingFree(se.commandsExecuted, t)
    && TextsFree(se.artifactsCreated, t)
    && (match se.networkCalls {
          case Calls(calls) => CallsFree(calls, t)
          case ForeignCalls(v) => Free(v, t)
        })
  }

  predicate ListingFree(l: Listing, t: string) {
    match l
    case Texts(texts) => TextsFree(texts, t)
    case Foreign(v) => Free(v, t)
  }

  /** `destination` is the boundary's own field name; every other key of a network call is the adapter's. */
  predicate CallFree(call: seq<Entry>, t: string) {
    forall i | 0 <= i < |call| ::
      Free(call[i].value, t) && (call[i].key == "destination" || !Contains(call[i].key, t))
  }

  predicate CallsFree(calls: seq<seq<Entry>>, t: string) {
    forall i | 0 <= i < |calls| :: CallFree(calls[i], t)
  }

  predicate OutcomeFree(o: Outcome<Normalized>, t: string) {
    o.Returned? ==> ResultFree(o.value, t)
  }

  /** `t` occurs in the numeral of an index that an array or a string can have. */
  ghost predicate Indexed(t: string) {
    exists i: nat :: i < MAX_UNITS && Contains(Decimal(i), t)
  }

  /** What decides whether a credential can be redacted: the marker must not spell it, and no index. */
  ghost predicate Redactable(t: string) {
    !Contains(INNER, t) && !Indexed(t)
  }

  /** What a caller can check of it before the call: up to fifteen digits always occur in some index, sixteen
      only as an index of their own, more never; nothing but digits does. */
  lemma IndexedExactly(t: string)
    requires t != []
    ensures Indexed(t) <==>
              AllDigits(t) && (|t| <= 15 || (|t| == 16 && t[0] != '0' && ParseDecimal(t) < MAX_UNITS))
  {
    if Indexed(t) {
      var i: nat :| i < MAX_UNITS && Contains(Decimal(i), t);
      IndexContains(i, t);
    }
    if AllDigits(t) && |t| <= 15 {
      ShortIsIndexed(t);
    } else if AllDigits(t) && |t| == 16 && t[0] != '0' && ParseDecimal(t) < MAX_UNITS {
      DecimalInverts(t);
      assert At(t, 0, t);
    }
  }

  lemma TenToThe16()
    ensures Pow10(15) == 1_000_000_000_000_000 && Pow10(16) == 10_000_000_000_000_000
  {
    assert Pow10(3) == 1000;
    assert Pow10(6) == 1_000_000;
    assert Pow10(9) == 1_000_000_000;
    assert Pow10(12) == 1_000_000_000_000;
  }

  lemma IndexContains(i: nat, t: string)
    requires t != [] && i < MAX_UNITS && Contains(Decimal(i), t)
    ensures AllDigits(t) && (|t| <= 15 || (|t| == 16 && t[0] != '0' && ParseDecimal(t) < MAX_UNITS))
  {
    var s := Decimal(i);
    var k :| 0 <= k <= |s| && At(s, k, t);
    assert forall c | c in t :: c in s;
    TenToThe16();
    DecimalLength(i, 16);
    if |t| >= 16 {
      assert s == t;
      ParseDecimalInverts(i);
      NoLeadingZero(i);
    }
  }

  lemma {:induction false} NoLeadingZero(n: nat)
    ensures |Decimal(n)| > 1 ==> Decimal(n)[0] != '0'
  {
    if n >= 10 {
      NoLeadingZero(n / 10);
    }
  }

  lemma ShortIsIndexed(t: string)
    requires AllDigits(t) && |t| <= 15
    ensures Indexed(t)
  {
    var numeral := "1" + t;
    LeadingOne(t);
    Pow10Monotone(|t|, 15);
    TenToThe16();
    hide Pow10, ParseDecimal, Decimal;
    DecimalInverts(numeral);
    assert numeral[1..1 + |t|] == t;
    assert At(numeral, 1, t);
  }

  lemma CredentialIsPlain(t: string)
    requires IsCredential(t)
    ensures BracketFree(t) && '\U{2026}' !in t
  {
  }

  lemma SafeMetadataFree(entries: seq<Entry>, t: string, rules: Rules)
    requires BracketFree(t) && !Contains(INNER, t) && DataEntries(entries, false)
    ensures EntriesFree(SafeMetadata(entries, [t], rules), t) && DataEntries(SafeMetadata(entries, [t], rules), false)
  {
    SanitizeEntriesData(entries, rules);
    RedactIntoFree([], SanitizeEntries(entries, rules), [t], t);
  }

  lemma {:induction false} LookupFree(entries: seq<Entry>, key: string, t: string)
    requires EntriesFree(entries, t) && DataEntries(entries, false)
    ensures Free(Lookup(entries, key), t) && Data(Lookup(entries, key), false)
  {
    if entries == [] {
    } else if entries[0].key != key {
      LookupFree(entries[1..], key, t);
    }
  }

  lemma MemberFree(v: Json, key: string, t: string)
    requires Free(v, t) && Data(v, false)
    ensures Free(Member(v, key), t) && Data(Member(v, key), false)
  {
    if v.Obj? {
      LookupFree(v.entries, key, t);
    }
  }

  lemma {:induction false} WithoutFree(entries: seq<Entry>, key: string, t: string)
    requires EntriesFree(entries, t)
    ensures EntriesFree(Without(entries, key), t)
  {
    if entries == [] {
    } else {
      WithoutFree(entries[1..], key, t);
    }
  }

  lemma {:induction false} ReferencesFree(values: seq<string>, t: string, rules: Rules)
    requires t != []
    ensures TextsFree(SanitizeReferences(values, [t], rules), t)
  {
    if values == [] {
    } else {
      assert [t][0] == t;
      ReferencesFree(values[1..], t, rules);
    }
  }

  lemma TextListFree(items: seq<Json>, t: string, rules: Rules)
    requires BracketFree(t) && '\U{2026}' !in t && !Contains(INNER, t)
    ensures TextsFree(TextList(items, [t], rules), t)
  {
    forall i | 0 <= i < |items|
      ensures !Contains(TextList(items, [t], rules)[i], t)
    {
      RedactTextFree(rules.toText(items[i]), [t], rules.patterns, t);
    }
  }

  lemma SpreadFree(call: Json, t: string)
    requires t != [] && Free(call, t) && !Indexed(t) && Data(call, false) && (call.Text? ==> |call.s| <= MAX_UNITS)
    ensures EntriesFree(Spread(call), t)
  {
    match call
    case Arr(items) =>
    case Text(s) =>
      forall i | 0 <= i < |s| ensures !Contains([s[i]], t) {
        SliceContains(s, i, i + 1, t);
        assert s[i..i + 1] == [s[i]];
      }
    case _ =>
  }

  lemma NetworkCallFree(call: Json, t: string, rules: Rules)
    requires BracketFree(t) && '\U{2026}' !in t && Redactable(t) && Free(call, t) && Data(call, false)
    ensures NetworkCall(call, [t], rules).Returned? ==> CallFree(NetworkCall(call, [t], rules).value, t)
  {
    if NetworkCall(call, [t], rules).Returned? {
      SpreadFree(call, t);
    }
    if EntriesFree(Spread(call), t) {
      WithoutFree(Spread(call), "destination", t);
    }
    var destination := Member(call, "destination");
    RedactTextFree(if destination.Null? then "" else rules.toText(destination), [t], rules.patterns, t);
  }

  lemma {:induction false} NetworkCallsFree(calls: seq<Json>, t: string, rules: Rules)
    requires BracketFree(t) && '\U{2026}' !in t && Redactable(t)
    requires forall i | 0 <= i < |calls| :: Free(calls[i], t) && Data(calls[i], false)
    ensures NetworkCalls(calls, [t], rules).Returned? ==> CallsFree(NetworkCalls(calls, [t], rules).value, t)
  {
    if calls == [] {
    } else {
      NetworkCallFree(calls[0], t, rules);
      NetworkCallsFree(calls[1..], t, rules);
    }
  }

  lemma NoOwnMap(v: Json)
    requires Data(v, false)
    ensures OwnMap(v).None?
  {
    if v.Obj? {
      LookupData(v.entries, "map");
    }
  }

  lemma {:induction false} LookupData(entries: seq<Entry>, key: string)
    requires DataEntries(entries, false)
    ensures Data(Lookup(entries, key), false)
  {
    if entries != [] && entries[0].key != key {
      LookupData(entries[1..], key);
    }
  }

  lemma SideEffectTextsFree(v: Json, t: string, rules: Rules)
    requires BracketFree(t) && '\U{2026}' !in t && !Contains(INNER, t) && Data(v, false)
    ensures SideEffectTexts(v, [t], rules).Returned? ==> ListingFree(SideEffectTexts(v, [t], rules).value, t)
  {
    NoOwnMap(v);
    if v.Arr? {
      TextListFree(v.items, t, rules);
    }
  }

  lemma SafeOptionalFree(entries: Option<seq<Entry>>, t: string, rules: Rules)
    requires BracketFree(t) && !Contains(INNER, t) && (entries.Some? ==> DataEntries(entries.value, false))
    ensures OptionalFree(SafeOptional(entries, [t], rules), t)
  {
    if entries.Some? {
      SafeMetadataFree(entries.value, t, rules);
    }
  }

  /** What an adapter can return: values within the limits of the language. */
  predicate DataResult(a: AdapterResult, callables: bool) {
    && DataEntries(a.metadata, callables)
    && (a.usage.Some? ==> DataEntries(a.usage.value, callables))
    && (a.error.Some? && a.error.value.metadata.Some? ==> DataEntries(a.error.value.metadata.value, callables))
  }

  /** The credential of the invocation leaves the boundary in no string and no key, at any depth, whatever
      plain data the adapter returned and whatever the secret-shape patterns replace. */
  lemma NormalizedResultFree(a: AdapterResult, t: string, rules: Rules)
    requires IsCredential(t) && Redactable(t) && DataResult(a, false)
    ensures OutcomeFree(NormalizeAdapterResult(a, Some(t), rules), t)
  {
    CredentialIsPlain(t);
    var metadata := SafeMetadata(a.metadata, [t], rules);
    var se := Lookup(metadata, "sideEffects");
    SafeMetadataFree(a.metadata, t, rules);
    LookupFree(metadata, "sideEffects", t);
    WithoutFree(metadata, "sideEffects", t);
    OthersFree(a, t, rules);
    EffectsOfFree(se, SanitizeReferences(a.artifactReferences, [t], rules), t, rules);
    hide SafeMetadata, EffectsOf, EffectsFree, SanitizeReferences, SafeOptional, Redactable, IsCredential;
  }

  lemma EffectsOfFree(se: Json, artifacts: seq<string>, t: string, rules: Rules)
    requires BracketFree(t) && '\U{2026}' !in t && Redactable(t) && Free(se, t) && Data(se, false) && TextsFree(artifacts, t)
    ensures EffectsOf(se, artifacts, [t], rules).Returned? ==> EffectsFree(EffectsOf(se, artifacts, [t], rules).value, t)
  {
    ListFree(se, "filesCreated", t, rules);
    ListFree(se, "filesModified", t, rules);
    ListFree(se, "filesDeleted", t, rules);
    ListFree(se, "commandsExecuted", t, rules);
    CallListFree(se, t, rules);
    hide SideEffectTexts, NetworkCallList, Member, ListingFree, CallsFree, Free, Data;
  }

  lemma ListFree(se: Json, key: string, t: string, rules: Rules)
    requires BracketFree(t) && '\U{2026}' !in t && !Contains(INNER, t) && Free(se, t) && Data(se, false)
    ensures var l := SideEffectTexts(Member(se, key), [t], rules); l.Returned? ==> ListingFree(l.value, t)
  {
    MemberFree(se, key, t);
    SideEffectTextsFree(Member(se, key), t, rules);
  }

  lemma CallListFree(se: Json, t: string, rules: Rules)
    requires BracketFree(t) && '\U{2026}' !in t && Redactable(t) && Free(se, t) && Data(se, false)
    ensures var l := NetworkCallList(Member(se, "networkCalls"), [t], rules);
            l.Returned? ==> l.value.Calls? && CallsFree(l.value.calls, t)
  {
    MemberFree(se, "networkCalls", t);
    var calls := Member(se, "networkCalls");
    NoOwnMap(calls);
    if calls.Arr? {
      NetworkCallsFree(calls.items, t, rules);
    }
  }

  lemma OthersFree(a: AdapterResult, t: string, rules: Rules)
    requires BracketFree(t) && '\U{2026}' !in t && !Contains(INNER, t) && DataResult(a, false)
    ensures a.outputReference.Some? ==> TextsFree(SanitizeReference(a.outputReference.value, [t], rules), t)
    ensures TextsFree(SanitizeReferences(a.artifactReferences, [t], rules), t)
    ensures TextsFree(SanitizeReferences(a.evidenceReferences, [t], rules), t)
    ensures OptionalFree(SafeOptional(a.usage, [t], rules), t)
    ensures a.error.Some? ==>
              !Contains(RedactText(a.error.value.message, [t], rules.patterns), t)
              && OptionalFree(SafeOptional(a.error.value.metadata, [t], rules), t)
  {
    assert [t][0] == t;
    ReferencesFree(a.artifactReferences, t, rules);
    ReferencesFree(a.evidenceReferences, t, rules);
    SafeOptionalFree(a.usage, t, rules);
    if a.error.Some? {
      RedactTextFree(a.error.value.message, [t], rules.patterns, t);
      SafeOptionalFree(a.error.value.metadata, t, rules);
    }
  }

  // ---- What does escape ----

  const PLAIN := AdapterResult(None, [], [], [], None, None)

  /** A credential that is part of the word inside the marker is written by the marker itself. */
  lemma MarkerWordEscapes(t: string, rules: Rules)
    requires IsCredential(t) && Contains(INNER, t)
    ensures !OutcomeFree(NormalizeAdapterResult(PLAIN.(usage := Some([Entry("", Text(t))])), Some(t), rules), t)
  {
    UsageOnly([Entry("", Text(t))], t, rules);
    var e := Entry("", SanitizeValue("", Text(t), rules));
    SingleEntry(Entry("", Text(t)), e, [t], rules);
    EscapedText(t, rules);
    var safe := SafeMetadata([Entry("", Text(t))], [t], rules);
    assert !Free(safe[0].value, t);
  }

  lemma UsageOnly(entries: seq<Entry>, t: string, rules: Rules)
    requires t != []
    ensures OutcomeFree(NormalizeAdapterResult(PLAIN.(usage := Some(entries)), Some(t), rules), t)
            ==> EntriesFree(SafeMetadata(entries, [t], rules), t)
  {
  }

  lemma SingleEntry(raw: Entry, e: Entry, secrets: seq<string>, rules: Rules)
    requires e == Entry(raw.key, SanitizeValue(raw.key, raw.value, rules))
    ensures SafeMetadata([raw], secrets, rules) == [Entry(RedactAll(e.key, secrets), RedactDeep(e.value, secrets))]
  {
    assert [raw][1..] == [] && [e][1..] == [];
    assert SanitizeEntries([raw], rules) == [e];
    var r := Entry(RedactAll(e.key, secrets), RedactDeep(e.value, secrets));
    assert RedactInto([], [e], secrets) == RedactInto([] + [r], [e][1..], secrets);
  }

  lemma EscapedText(t: string, rules: Rules)
    requires t != [] && Contains(INNER, t)
    ensures !Free(RedactDeep(SanitizeValue("", Text(t), rules), [t]), t)
  {
    MarkerSpells(t);
    RedactSelf(t);
    RedactMarker(t);
  }

  /** Redacting the marker leaves a text that still contains the marker. */
  lemma RedactMarker(t: string)
    requires t != [] && Contains(INNER, t)
    ensures Contains(RedactAll(REDACTED, [t]), t)
  {
    MarkerSpells(t);
    SplitPieces(REDACTED, t);
    var pieces := Split(REDACTED, t);
    assert |pieces| > 1 by {
      assert FirstIndex(REDACTED, t) >= 0;
      SplitPieces(REDACTED[FirstIndex(REDACTED, t) + |t|..], t);
    }
    var rest := Join(pieces[1..], REDACTED);
    var r := Join(pieces, REDACTED);
    assert r == pieces[0] + REDACTED + rest;
    var i :| 0 <= i <= |REDACTED| && At(REDACTED, i, t);
    var n := |pieces[0]|;
    assert REDACTED == r[n..n + 10];
    SliceContains(r, n, n + 10, t);
    assert RedactAll(REDACTED, [t]) == RedactAll(RedactOne(REDACTED, t), [t][1..]);
    assert [t][1..] == [];
  }

  /** Metadata that is sanitised already and in which the secret does not occur passes unchanged. */
  lemma SafeUnchanged(entries: seq<Entry>, t: string, rules: Rules)
    requires EntriesSanitised(entries, rules) && EntriesFree(entries, t) && WellFormed(Obj(entries))
    ensures SafeMetadata(entries, [t], rules) == entries
  {
    SanitizeEntriesKeep(entries, rules);
    assert [] + entries == entries;
    RedactIntoIdentity([], entries, t);
  }

  /** Metadata that only holds one kind of side effect. */
  function OneEffect(kind: string, v: Json): seq<Entry> {
    [Entry("sideEffects", Obj([Entry(kind, v)]))]
  }

  lemma OneEffectSafe(kind: string, v: Json, t: string, rules: Rules)
    requires !rules.isSecretKey("sideEffects") && !Contains("sideEffects", t)
    requires !rules.isSecretKey(kind) && !Contains(kind, t)
    requires Sanitised(kind, v, rules) && Free(v, t) && WellFormed(v)
    ensures SafeMetadata(OneEffect(kind, v), [t], rules) == OneEffect(kind, v)
  {
    SafeUnchanged(OneEffect(kind, v), t, rules);
  }

  lemma OneEffectMember(kind: string, v: Json, key: string)
    ensures Member(Obj([Entry(kind, v)]), key) == if key == kind then v else Null
  {
    assert [Entry(kind, v)][1..] == [];
    assert Lookup([], key) == Null;
  }

  lemma OneEffectData(kind: string, v: Json, callables: bool)
    requires Data(v, callables)
    ensures DataResult(PLAIN.(metadata := OneEffect(kind, v)), callables)
  {
    assert Data(Obj([Entry(kind, v)]), callables);
  }

  /** When the metadata passes as it is, the result's side effects are read from it. */
  lemma OneEffectResult(kind: string, v: Json, t: string, rules: Rules)
    requires t != [] && SafeMetadata(OneEffect(kind, v), [t], rules) == OneEffect(kind, v)
    ensures var o, e := NormalizeAdapterResult(PLAIN.(metadata := OneEffect(kind, v)), Some(t), rules), EffectsOf(Obj([Entry(kind, v)]), [], [t], rules);
            o.Returned? == e.Returned? && (o.Returned? ==> o.value.sideEffects == e.value)
  {
    hide SafeMetadata, EffectsOf;
    assert OneEffect(kind, v)[0].key == "sideEffects";
    assert Lookup(OneEffect(kind, v), "sideEffects") == Obj([Entry(kind, v)]);
  }

  function Spaces(n: nat): string {
    seq(n, _ => ' ')
  }

  function NumericEscape(n: nat): AdapterResult {
    PLAIN.(metadata := OneEffect("networkCalls", Arr([Text(Spaces(n + 1))])))
  }

  /** The regular expressions leave these names and blank texts alone. */
  ghost predicate Lenient(rules: Rules) {
    && !rules.isSecretKey("") && !rules.isSecretKey("sideEffects") && !rules.isSecretKey("networkCalls")
    && !rules.isSecretKey("filesCreated") && !rules.isSecretKey("map")
    && forall n: nat :: !rules.isSecretValue(Spaces(n))
  }

  lemma SpacesFree(n: nat, t: string)
    requires t != [] && AllDigits(t)
    ensures !Contains(Spaces(n), t)
  {
    var s := Spaces(n);
    assert IsDigit(t[0]) && !IsDigit(' ');
    forall i | 0 <= i <= |s| ensures !At(s, i, t) {
      assert i + |t| <= |s| ==> s[i..i + |t|][0] == ' ';
    }
  }

  /** A credential that occurs in the numeral of an index is reproduced as a key when a network call is a
      string, whose units are spread under their indices. */
  lemma NumericEscapes(t: string, i: nat, rules: Rules)
    requires IsCredential(t) && i < MAX_UNITS && Contains(Decimal(i), t) && Lenient(rules)
    ensures DataResult(NumericEscape(i), false)
    ensures !OutcomeFree(NormalizeAdapterResult(NumericEscape(i), Some(t), rules), t)
  {
    IndexContains(i, t);
    WordHasNoDigits(t);
    SpacesFree(i + 1, t);
    NumericSafe(t, i, rules);
    var v := Arr([Text(Spaces(i + 1))]);
    OneEffectData("networkCalls", v, false);
    OneEffectResult("networkCalls", v, t, rules);
    NumericEffects(t, i, rules);
    hide NormalizeAdapterResult, EffectsOf, EffectsFree, OneEffect, Spaces, DataResult;
  }

  lemma NumericSafe(t: string, i: nat, rules: Rules)
    requires Lenient(rules) && !Contains("sideEffects", t) && !Contains("networkCalls", t) && !Contains(Spaces(i + 1), t)
    ensures var v := Arr([Text(Spaces(i + 1))]);
            SafeMetadata(OneEffect("networkCalls", v), [t], rules) == OneEffect("networkCalls", v)
  {
    OneEffectSafe("networkCalls", Arr([Text(Spaces(i + 1))]), t, rules);
  }

  lemma NumericEffects(t: string, i: nat, rules: Rules)
    requires i < MAX_UNITS && Contains(Decimal(i), t)
    ensures var e := EffectsOf(Obj([Entry("networkCalls", Arr([Text(Spaces(i + 1))]))]), [], [t], rules);
            e.Returned? && !EffectsFree(e.value, t)
  {
    var v := Arr([Text(Spaces(i + 1))]);
    OneEffectMember("networkCalls", v, "filesCreated");
    OneEffectMember("networkCalls", v, "filesModified");
    OneEffectMember("networkCalls", v, "filesDeleted");
    OneEffectMember("networkCalls", v, "commandsExecuted");
    OneEffectMember("networkCalls", v, "networkCalls");
    SingleCall(t, i, rules);
    hide Member, NetworkCalls, CallsFree, Spaces;
  }

  lemma SingleCall(t: string, i: nat, rules: Rules)
    requires i < MAX_UNITS && Contains(Decimal(i), t)
    ensures var calls := NetworkCalls([Text(Spaces(i + 1))], [t], rules); calls.Returned? && !CallsFree(calls.value, t)
  {
    var call := Text(Spaces(i + 1));
    var kept := Without(Spread(call), "destination");
    var r := NetworkCall(call, [t], rules).value;
    SingleCallList(call, [t], rules);
    var e := Entry(Decimal(i), Text([Spaces(i + 1)[i]]));
    assert Spread(call)[i] == e;
    assert Decimal(i) != "destination" by {
      assert IsDigit(Decimal(i)[0]) && !IsDigit("destination"[0]);
    }
    WithoutKeeps(Spread(call), "destination", i);
    var j :| 0 <= j < |kept| && kept[j] == e;
    assert r[j] == kept[j];
    assert !CallFree([r][0], t);
  }

  lemma SingleCallList(call: Json, secrets: seq<string>, rules: Rules)
    requires NetworkCall(call, secrets, rules).Returned?
    ensures NetworkCalls([call], secrets, rules) == Returned([NetworkCall(call, secrets, rules).value])
  {
    assert [call][1..] == [];
    var f := NetworkCall(call, secrets, rules).value;
    assert [f] + [] == [f];
  }

  lemma {:induction false} WithoutKeeps(entries: seq<Entry>, key: string, k: nat)
    requires k < |entries| && entries[k].key != key
    ensures entries[k] in Without(entries, key)
  {
    if k == 0 {
    } else {
      WithoutKeeps(entries[1..], key, k - 1);
    }
  }

  lemma WordHasNoDigits(t: string)
    requires t != [] && AllDigits(t)
    ensures !Contains("sideEffects", t) && !Contains("networkCalls", t)
  {
    assert forall i | 0 <= i < 11 :: !IsDigit("sideEffects"[i]);
    assert forall i | 0 <= i < 12 :: !IsDigit("networkCalls"[i]);
    assert IsDigit(t[0]);
    forall i | 0 <= i <= 11 ensures !At("sideEffects", i, t) {
      assert i + |t| <= 11 ==> "sideEffects"[i..i + |t|][0] == "sideEffects"[i];
    }
    forall i | 0 <= i <= 12 ensures !At("networkCalls", i, t) {
      assert i + |t| <= 12 ==> "networkCalls"[i..i + |t|][0] == "networkCalls"[i];
    }
  }

  /** Functions pass both filters as they are: a side effect list that brings its own `map` puts what it
      likes into the result, every credential included that is not part of the names on the way. */
  lemma OwnMapEscapes(t: string, rules: Rules)
    requires IsCredential(t) && Lenient(rules)
    requires !Contains("sideEffects", t) && !Contains("filesCreated", t) && !Contains("map", t)
    ensures DataResult(MapEscape(t), true)
    ensures !OutcomeFree(NormalizeAdapterResult(MapEscape(t), Some(t), rules), t)
  {
    MapSafe(t, rules);
    var list := Obj([Entry("map", Callable([], Arr([Text(t)])))]);
    OneEffectData("filesCreated", list, true);
    OneEffectResult("filesCreated", list, t, rules);
    MapEffects(t, rules);
    hide NormalizeAdapterResult, EffectsOf, EffectsFree, OneEffect, DataResult;
  }

  lemma MapSafe(t: string, rules: Rules)
    requires Lenient(rules) && !Contains("sideEffects", t) && !Contains("filesCreated", t) && !Contains("map", t)
    ensures var list := Obj([Entry("map", Callable([], Arr([Text(t)])))]);
            SafeMetadata(OneEffect("filesCreated", list), [t], rules) == OneEffect("filesCreated", list)
  {
    OneEffectSafe("filesCreated", Obj([Entry("map", Callable([], Arr([Text(t)])))]), t, rules);
  }

  lemma MapEffects(t: string, rules: Rules)
    ensures var e := EffectsOf(Obj([Entry("filesCreated", Obj([Entry("map", Callable([], Arr([Text(t)])))]))]), [], [t], rules);
            e.Returned? && !EffectsFree(e.value, t)
  {
    var list := Obj([Entry("map", Callable([], Arr([Text(t)])))]);
    OneEffectMember("filesCreated", list, "filesCreated");
    OneEffectMember("filesCreated", list, "filesModified");
    OneEffectMember("filesCreated", list, "filesDeleted");
    OneEffectMember("filesCreated", list, "commandsExecuted");
    OneEffectMember("filesCreated", list, "networkCalls");
    OneEffectMember("map", Callable([], Arr([Text(t)])), "map");
    assert !Free([Text(t)][0], t) by { assert At(t, 0, t); }
    hide Member;
  }

  function MapEscape(t: string): AdapterResult {
    PLAIN.(metadata := OneEffect("filesCreated", Obj([Entry("map", Callable([], Arr([Text(t)])))])))
  }

  /** ... and a function's own properties carry any credential at all. */
  lemma CallableEscapes(t: string, rules: Rules)
    requires IsCredential(t) && Lenient(rules)
    ensures DataResult(PropertyEscape(t), true)
    ensures !OutcomeFree(NormalizeAdapterResult(PropertyEscape(t), Some(t), rules), t)
  {
    var e := Entry("", Callable([Entry("", Text(t))], Null));
    UsageOnly([e], t, rules);
    SingleEntry(e, e, [t], rules);
    var safe := SafeMetadata([e], [t], rules);
    assert At(t, 0, t) && !Free([Entry("", Text(t))][0].value, t);
    assert safe[0].value == e.value;
  }

  function PropertyEscape(t: string): AdapterResult {
    PLAIN.(usage := Some([Entry("", Callable([Entry("", Text(t))], Null))]))
  }

  ghost predicate NeverEscapes(t: string, rules: Rules, callables: bool) {
    forall a: AdapterResult | DataResult(a, callables) :: OutcomeFree(NormalizeAdapterResult(a, Some(t), rules), t)
  }

  /** Exactly when a credential never escapes: adapters return plain data, the marker does not spell the
      credential, and no index does. */
  lemma NormalizationExact(t: string, rules: Rules, callables: bool)
    requires IsCredential(t) && Lenient(rules)
    ensures NeverEscapes(t, rules, callables) <==> !callables && Redactable(t)
  {
    hide OutcomeFree, NormalizeAdapterResult, Lenient;
    if !callables && Redactable(t) {
      forall a: AdapterResult | DataResult(a, false) ensures OutcomeFree(NormalizeAdapterResult(a, Some(t), rules), t) {
        NormalizedResultFree(a, t, rules);
      }
    } else if callables {
      CallableEscapes(t, rules);
    } else if Contains(INNER, t) {
      MarkerWordEscapes(t, rules);
    } else {
      var i: nat :| i < MAX_UNITS && Contains(Decimal(i), t);
      NumericEscapes(t, i, rules);
    }
  }
}
