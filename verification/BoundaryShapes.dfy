/** The known secret shapes at the output boundary: what a normalised result can still show of them. */
module BoundaryShapes {
  import opened Strings
  import opened Redaction
  import opened SecretShapes
  import opened Leakage

  /** The rules of the boundary with its own patterns; the key and value tests stay open. */
  ghost predicate KnownShapes(rules: Rules) {
    && rules.patterns == PatternsOf(SHAPES)
    && forall v: string :: rules.hasSecretShape(v) <==> exists shape :: Exposed(shape, v)
  }

  /** Within the bound, and showing no shape but one that ends where the bound cut a longer text. */
  ghost predicate ShapeSafe(t: string) {
    && |t| <= MAX_SAFE_TEXT_LENGTH + 1
    && forall shape, i: nat, j: nat | Occurs(shape, t, i, j) ::
         Closes(shape) && j == MAX_SAFE_TEXT_LENGTH && |t| == MAX_SAFE_TEXT_LENGTH + 1
  }

  /** A reference that may leave the boundary. */
  ghost predicate Governed(v: string, secrets: seq<string>) {
    && 6 < |v| <= 512 && v[..6] == "gov://" && (forall k | 6 <= k < |v| :: IsReferenceChar(v[k]))
    && (forall secret | secret in secrets && secret != [] :: !Contains(v, secret))
    && forall shape :: !Exposed(shape, v)
  }

  lemma ReferenceExactly(v: string, secrets: seq<string>, rules: Rules)
    requires KnownShapes(rules)
    ensures SanitizeReference(v, secrets, rules) == if Governed(v, secrets) then [v] else []
  {
    hide Exposed, IsReferenceChar, Contains;
    if |v| > 6 {
      assert StartsWith(v, "gov://") <==> v[..6] == "gov://" by { assert v[0..6] == v[..6]; }
      assert forall k | 6 <= k < |v| :: v[k] == v[6..][k - 6];
    }
  }

  ghost function GovernedOnes(values: seq<string>, secrets: seq<string>): seq<string> {
    if values == [] then []
    else (if Governed(values[0], secrets) then [values[0]] else []) + GovernedOnes(values[1..], secrets)
  }

  /** Of a list of references exactly the governed ones are kept, in order. */
  lemma {:induction false} ReferencesExactly(values: seq<string>, secrets: seq<string>, rules: Rules)
    requires KnownShapes(rules)
    ensures SanitizeReferences(values, secrets, rules) == GovernedOnes(values, secrets)
  {
    hide Governed, KnownShapes, SanitizeReference;
    if values != [] {
      ReferenceExactly(values[0], secrets, rules);
      ReferencesExactly(values[1..], secrets, rules);
    }
  }

  lemma TextIsSafe(s: string, secrets: seq<string>, rules: Rules)
    requires KnownShapes(rules)
    ensures ShapeSafe(RedactText(s, secrets, rules.patterns))
  {
    hide Occurs, RedactText, MaskAll;
    PlainTextPasses(s, secrets, rules.patterns);
    var t := RedactText(s, secrets, PatternsOf(SHAPES));
    forall shape, i: nat, j: nat | Occurs(shape, t, i, j)
      ensures Closes(shape) && j == MAX_SAFE_TEXT_LENGTH && |t| == MAX_SAFE_TEXT_LENGTH + 1
    {
      ShapesRedacted(s, secrets, shape, i, j);
    }
  }

  ghost predicate ListingSafe(l: Listing) {
    l.Texts? ==> forall t | t in l.texts :: ShapeSafe(t)
  }

  /** The destination that the boundary wrote is the last entry of a call and the only one of that name. */
  ghost predicate CallSafe(call: seq<Entry>) {
    && call != [] && call[|call| - 1].key == "destination"
    && call[|call| - 1].value.Text? && ShapeSafe(call[|call| - 1].value.s)
    && forall k | 0 <= k < |call| - 1 :: call[k].key != "destination"
  }

  ghost predicate CallsSafe(l: CallListing) {
    l.Calls? ==> forall k | 0 <= k < |l.calls| :: CallSafe(l.calls[k])
  }

  lemma SideEffectTextsSafe(v: Json, secrets: seq<string>, rules: Rules)
    requires KnownShapes(rules)
    ensures var o := SideEffectTexts(v, secrets, rules); o.Returned? ==> ListingSafe(o.value)
  {
    hide KnownShapes, ShapeSafe, RedactText;
    if v.Arr? {
      var texts := TextList(v.items, secrets, rules);
      forall k | 0 <= k < |texts| ensures ShapeSafe(texts[k]) {
        TextIsSafe(rules.toText(v.items[k]), secrets, rules);
      }
    }
  }

  lemma {:induction false} WithoutKey(entries: seq<Entry>, key: string)
    ensures forall k | 0 <= k < |Without(entries, key)| :: Without(entries, key)[k].key != key
  {
    if entries != [] {
      WithoutKey(entries[1..], key);
    }
  }

  lemma CallIsSafe(call: Json, secrets: seq<string>, rules: Rules)
    requires KnownShapes(rules)
    ensures var o := NetworkCall(call, secrets, rules); o.Returned? ==> CallSafe(o.value)
  {
    hide KnownShapes, ShapeSafe, RedactText, Without, Spread;
    var destination := Member(call, "destination");
    TextIsSafe(if destination.Null? then "" else rules.toText(destination), secrets, rules);
    WithoutKey(Spread(call), "destination");
  }

  lemma {:induction false} CallsAreSafe(calls: seq<Json>, secrets: seq<string>, rules: Rules)
    requires KnownShapes(rules)
    ensures var o := NetworkCalls(calls, secrets, rules); o.Returned? ==> CallsSafe(Calls(o.value))
  {
    hide KnownShapes, CallSafe, NetworkCall;
    if calls != [] {
      CallIsSafe(calls[0], secrets, rules);
      CallsAreSafe(calls[1..], secrets, rules);
    }
  }

  /** No text that the boundary writes shows a known secret shape, and exactly the governed references pass:
      in the error message, the file and command lists, the destinations, and the three kinds of references. */
  lemma BoundaryHidesShapes(a: AdapterResult, credential: Option<string>, rules: Rules)
    requires KnownShapes(rules) && NormalizeAdapterResult(a, credential, rules).Returned?
    ensures var r := NormalizeAdapterResult(a, credential, rules).value;
            var secrets := Secrets(credential);
            && (r.error.Some? <==> a.error.Some?) && (r.error.Some? ==> ShapeSafe(r.error.value.message))
            && ListingSafe(r.sideEffects.filesCreated) && ListingSafe(r.sideEffects.filesModified)
            && ListingSafe(r.sideEffects.filesDeleted) && ListingSafe(r.sideEffects.commandsExecuted)
            && CallsSafe(r.sideEffects.networkCalls)
            && r.artifactReferences == GovernedOnes(a.artifactReferences, secrets)
            && r.evidenceReferences == GovernedOnes(a.evidenceReferences, secrets)
            && r.sideEffects.artifactsCreated == r.artifactReferences
            && r.outputReference ==
                 if a.outputReference.Some? && Governed(a.outputReference.value, secrets) then a.outputReference else None
  {
    var secrets := Secrets(credential);
    hide KnownShapes, ShapeSafe, RedactText, Governed, ListingSafe, CallsSafe, SideEffectTexts, SafeMetadata, SanitizeReference;
    var se := Lookup(SafeMetadata(a.metadata, secrets, rules), "sideEffects");
    SideEffectTextsSafe(Member(se, "filesCreated"), secrets, rules);
    SideEffectTextsSafe(Member(se, "filesModified"), secrets, rules);
    SideEffectTextsSafe(Member(se, "filesDeleted"), secrets, rules);
    SideEffectTextsSafe(Member(se, "commandsExecuted"), secrets, rules);
    NetworkCallsSafe(Member(se, "networkCalls"), secrets, rules);
    ReferencesExactly(a.artifactReferences, secrets, rules);
    ReferencesExactly(a.evidenceReferences, secrets, rules);
    if a.outputReference.Some? {
      ReferenceExactly(a.outputReference.value, secrets, rules);
    }
    if a.error.Some? {
      TextIsSafe(a.error.value.message, secrets, rules);
    }
    hide Member, Lookup, SanitizeReferences, NetworkCallList, GovernedOnes;
  }

  lemma NetworkCallsSafe(v: Json, secrets: seq<string>, rules: Rules)
    requires KnownShapes(rules)
    ensures var o := NetworkCallList(v, secrets, rules); o.Returned? ==> CallsSafe(o.value)
  {
    hide KnownShapes, CallSafe, NetworkCalls;
    if v.Arr? {
      CallsAreSafe(v.items, secrets, rules);
    }
  }
}
