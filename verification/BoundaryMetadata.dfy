/** What reaches the other side of the output boundary when the credential does not occur in it: the metadata,
    sanitised entry by entry, and the side effects, list by list. */
module BoundaryMetadata {
  import opened Strings
  import opened Redaction
  import opened Leakage

  /** A secret that the marker neither spells nor overlaps. */
  predicate Unspelled(t: string) {
    BracketFree(t) && !Contains(INNER, t)
  }

  lemma MarkerIsFree(t: string)
    requires Unspelled(t)
    ensures !Contains(REDACTED, t)
  {
    if Contains(REDACTED, t) {
      assert "" + REDACTED + "" == REDACTED;
      MarkerBreaks("", "", t);
    }
  }

  // ---- Sanitising brings nothing in ----

  lemma {:induction false} SanitizeStaysFree(key: string, v: Json, t: string, rules: Rules)
    requires Unspelled(t) && Free(v, t) && WellFormed(v)
    ensures Free(SanitizeValue(key, v, rules), t) && WellFormed(SanitizeValue(key, v, rules))
    decreases v, 1
  {
    MarkerIsFree(t);
    hide Unspelled;
    match v
    case Obj(entries) => SanitizeEntriesStayFree(entries, t, rules);
    case Arr(items) => SanitizeItemsStayFree(key, items, t, rules);
    case _ =>
  }

  lemma {:induction false} SanitizeItemsStayFree(key: string, items: seq<Json>, t: string, rules: Rules)
    requires Unspelled(t) && forall i | 0 <= i < |items| :: Free(items[i], t) && WellFormed(items[i])
    ensures var r := SanitizeItems(key, items, rules);
            |r| == |items| && forall i | 0 <= i < |r| :: Free(r[i], t) && WellFormed(r[i])
    decreases items, 0
  {
    hide Unspelled;
    if items != [] {
      SanitizeStaysFree(key, items[0], t, rules);
      SanitizeItemsStayFree(key, items[1..], t, rules);
    }
  }

  lemma {:induction false} SanitizeEntriesStayFree(entries: seq<Entry>, t: string, rules: Rules)
    requires Unspelled(t) && EntriesFree(entries, t) && WellFormed(Obj(entries))
    ensures EntriesFree(SanitizeEntries(entries, rules), t) && WellFormed(Obj(SanitizeEntries(entries, rules)))
    decreases entries, 0
  {
    hide Unspelled;
    if entries != [] {
      var r := SanitizeEntries(entries, rules);
      SanitizeStaysFree(entries[0].key, entries[0].value, t, rules);
      SanitizeEntriesStayFree(entries[1..], t, rules);
      SanitizeEntriesEstablish(entries, rules);
      assert forall i | 1 <= i < |r| :: r[i] == SanitizeEntries(entries[1..], rules)[i - 1];
    }
  }

  /** Then the second filter has nothing to do. */
  lemma SafeIsSanitised(entries: seq<Entry>, t: string, rules: Rules)
    requires Unspelled(t) && EntriesFree(entries, t) && WellFormed(Obj(entries))
    ensures SafeMetadata(entries, [t], rules) == SanitizeEntries(entries, rules)
  {
    SanitizeEntriesStayFree(entries, t, rules);
    var safe := SanitizeEntries(entries, rules);
    assert [] + safe == safe;
    RedactIntoIdentity([], safe, t);
  }

  // ---- Entry by entry ----

  lemma {:induction false} LookupSanitised(entries: seq<Entry>, key: string, rules: Rules)
    ensures HasKey(entries, key) ==> Lookup(SanitizeEntries(entries, rules), key) == SanitizeValue(key, Lookup(entries, key), rules)
    ensures !HasKey(entries, key) ==> Lookup(SanitizeEntries(entries, rules), key) == Null
    decreases |entries|
  {
    hide SanitizeValue;
    if entries != [] {
      LookupSanitised(entries[1..], key, rules);
      if entries[0].key != key {
        assert forall i | 1 <= i < |entries| :: entries[i] == entries[1..][i - 1];
      }
    }
  }

  lemma {:induction false} LookupWithout(entries: seq<Entry>, other: string, key: string)
    requires key != other
    ensures Lookup(Without(entries, other), key) == Lookup(entries, key)
    decreases |entries|
  {
    if entries != [] {
      LookupWithout(entries[1..], other, key);
    }
  }

  lemma {:induction false} WithoutSanitised(entries: seq<Entry>, other: string, rules: Rules)
    requires EntriesSanitised(entries, rules)
    ensures EntriesSanitised(Without(entries, other), rules) && !HasKey(Without(entries, other), other)
    decreases |entries|
  {
    if entries != [] {
      WithoutSanitised(entries[1..], other, rules);
    }
  }

  /** The entries that leave the boundary: all of them sanitised, each the sanitised value of the entry of that
      name, and none named `dropped`. */
  ghost predicate Passes(entries: seq<Entry>, out: seq<Entry>, dropped: Option<string>, rules: Rules) {
    && EntriesSanitised(out, rules) && (dropped.Some? ==> !HasKey(out, dropped.value))
    && forall key | Some(key) != dropped ::
         Lookup(out, key) == if HasKey(entries, key) then SanitizeValue(key, Lookup(entries, key), rules) else Null
  }

  lemma SafePasses(entries: seq<Entry>, t: string, rules: Rules)
    requires Unspelled(t) && EntriesFree(entries, t) && WellFormed(Obj(entries))
    ensures Passes(entries, SafeMetadata(entries, [t], rules), None, rules)
  {
    SafeIsSanitised(entries, t, rules);
    SanitizeEntriesEstablish(entries, rules);
    hide SafeMetadata, EntriesSanitised, SanitizeEntries, Lookup, HasKey;
    forall key: string
      ensures Lookup(SanitizeEntries(entries, rules), key) == if HasKey(entries, key) then SanitizeValue(key, Lookup(entries, key), rules) else Null
    {
      LookupSanitised(entries, key, rules);
    }
  }

  lemma WithoutPasses(entries: seq<Entry>, out: seq<Entry>, dropped: string, rules: Rules)
    requires Passes(entries, out, None, rules)
    ensures Passes(entries, Without(out, dropped), Some(dropped), rules)
  {
    WithoutSanitised(out, dropped, rules);
    hide EntriesSanitised, Lookup, HasKey, Without, SanitizeValue;
    forall key: string | key != dropped ensures Lookup(Without(out, dropped), key) == Lookup(out, key) {
      LookupWithout(out, dropped, key);
    }
  }

  // ---- Side effects ----

  /** The list holds the redacted text of each item, in order. */
  ghost predicate Lists(l: Listing, v: Json, secrets: seq<string>, rules: Rules) {
    v.Arr? ==>
      && l.Texts? && |l.texts| == |v.items|
      && forall i | 0 <= i < |v.items| :: l.texts[i] == RedactText(rules.toText(v.items[i]), secrets, rules.patterns)
  }

  ghost predicate EffectsListed(e: SideEffects, se: Json, secrets: seq<string>, rules: Rules) {
    && Lists(e.filesCreated, Member(se, "filesCreated"), secrets, rules)
    && Lists(e.filesModified, Member(se, "filesModified"), secrets, rules)
    && Lists(e.filesDeleted, Member(se, "filesDeleted"), secrets, rules)
    && Lists(e.commandsExecuted, Member(se, "commandsExecuted"), secrets, rules)
    && (Member(se, "networkCalls").Arr? ==> e.networkCalls.Calls? && |e.networkCalls.calls| == |Member(se, "networkCalls").items|)
  }

  lemma {:induction false} CallsCount(calls: seq<Json>, secrets: seq<string>, rules: Rules)
    ensures NetworkCalls(calls, secrets, rules).Returned? ==> |NetworkCalls(calls, secrets, rules).value| == |calls|
    decreases |calls|
  {
    hide NetworkCall;
    if calls != [] {
      CallsCount(calls[1..], secrets, rules);
    }
  }

  lemma EffectsAreListed(se: Json, artifacts: seq<string>, secrets: seq<string>, rules: Rules)
    requires EffectsOf(se, artifacts, secrets, rules).Returned?
    ensures EffectsListed(EffectsOf(se, artifacts, secrets, rules).value, se, secrets, rules)
  {
    hide RedactText, Member, NetworkCalls;
    if Member(se, "networkCalls").Arr? {
      CallsCount(Member(se, "networkCalls").items, secrets, rules);
    }
  }

  /** Where the credential occurs nowhere in what the adapter returned, the metadata, the usage and the metadata
      of the error pass sanitised, entry by entry; the side effects are taken out of the metadata and listed in
      full; and the error keeps its message, redacted. */
  lemma ForeignResultPasses(a: AdapterResult, t: string, rules: Rules)
    requires Unspelled(t) && EntriesFree(a.metadata, t) && WellFormed(Obj(a.metadata))
    requires a.usage.Some? ==> EntriesFree(a.usage.value, t) && WellFormed(Obj(a.usage.value))
    requires a.error.Some? && a.error.value.metadata.Some? ==>
               EntriesFree(a.error.value.metadata.value, t) && WellFormed(Obj(a.error.value.metadata.value))
    requires NormalizeAdapterResult(a, Some(t), rules).Returned?
    ensures var r := NormalizeAdapterResult(a, Some(t), rules).value;
            && Passes(a.metadata, r.metadata, Some("sideEffects"), rules)
            && (a.usage.None? <==> r.usage.None?)
            && (a.usage.Some? ==> Passes(a.usage.value, r.usage.value, None, rules))
            && (a.error.None? <==> r.error.None?)
            && (a.error.Some? ==>
                  && r.error.value.message == RedactText(a.error.value.message, [t], rules.patterns)
                  && (a.error.value.metadata.None? <==> r.error.value.metadata.None?)
                  && (a.error.value.metadata.Some? ==>
                        Passes(a.error.value.metadata.value, r.error.value.metadata.value, None, rules)))
            && (HasKey(a.metadata, "sideEffects") ==>
                  EffectsListed(r.sideEffects, SanitizeValue("sideEffects", Lookup(a.metadata, "sideEffects"), rules), [t], rules))
  {
    var metadata := SafeMetadata(a.metadata, [t], rules);
    SafePasses(a.metadata, t, rules);
    WithoutPasses(a.metadata, metadata, "sideEffects", rules);
    assert HasKey(a.metadata, "sideEffects") ==>
             Lookup(metadata, "sideEffects") == SanitizeValue("sideEffects", Lookup(a.metadata, "sideEffects"), rules);
    if a.usage.Some? {
      SafePasses(a.usage.value, t, rules);
    }
    if a.error.Some? && a.error.value.metadata.Some? {
      SafePasses(a.error.value.metadata.value, t, rules);
    }
    hide Passes, EffectsOf, EffectsListed, Unspelled, SafeMetadata, SanitizeValue, RedactText, SanitizeReference, SanitizeReferences, Without;
    EffectsAreListed(Lookup(metadata, "sideEffects"), SanitizeReferences(a.artifactReferences, [t], rules), [t], rules);
  }
}
