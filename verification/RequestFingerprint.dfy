/** The fingerprint of an operator request: the bytes of its canonical JSON text, which SHA-256 then hashes.
    Texts are UTF-16 code units; unpaired surrogates are escaped as JSON.stringify escapes them. */
module RequestFingerprint {
  import opened Strings
  import opened Prompt

  // ---- What a request asks for ----

  datatype Evidence = Evidence(approvalId: Text, missionId: Text, repository: Text, branch: Text)

  datatype Budget = Budget(maxDurationMs: Option<int>, maxTokens: Option<int>, maxCostMinorUnits: Option<int>)

  datatype Content = Content(
    capabilityCode: Text, codeBuildApproval: Option<Evidence>, prompt: Text, assuranceLevel: Option<Text>, budget: Option<Budget>)

  function EffectiveBudget(b: Option<Budget>): Budget {
    if b.Some? then b.value else Budget(None, None, None)
  }

  // ---- JSON strings ----

  const QUOTE: Unit := 0x22
  const BACKSLASH: Unit := 0x5C
  const LETTER_U: Unit := 0x75

  function HexUnit(d: int): Unit
    requires 0 <= d < 16
  {
    if d < 10 then 48 + d else 87 + d
  }

  function HexValue(u: Unit): Option<int> {
    if 48 <= u <= 57 then Some(u - 48) else if 97 <= u <= 102 then Some(u - 87) else None
  }

  function Hex4(u: Unit): Text {
    [HexUnit(u / 0x1000), HexUnit(u / 0x100 % 16), HexUnit(u / 16 % 16), HexUnit(u % 16)]
  }

  /** The letter of a two-character escape. */
  function ShortEscape(u: Unit): Option<Unit> {
    if u == QUOTE || u == BACKSLASH then Some(u)
    else if u == 8 then Some(0x62)
    else if u == 9 then Some(0x74)
    else if u == 10 then Some(0x6E)
    else if u == 12 then Some(0x66)
    else if u == 13 then Some(0x72)
    else None
  }

  function EscapeUnit(u: Unit): Text {
    if ShortEscape(u).Some? then [BACKSLASH, ShortEscape(u).value]
    else if u < 0x20 || High(u) || Low(u) then [BACKSLASH, LETTER_U] + Hex4(u)
    else [u]
  }

  function QuoteBody(s: Text): Text {
    if s == [] then []
    else if Pair(s) then [s[0], s[1]] + QuoteBody(s[2..])
    else EscapeUnit(s[0]) + QuoteBody(s[1..])
  }

  function Quoted(s: Text): Text {
    [QUOTE] + (QuoteBody(s) + [QUOTE])
  }

  // ---- Reading them back ----

  function ShortUnescape(u: Unit): Option<Unit> {
    if u == QUOTE || u == BACKSLASH then Some(u)
    else if u == 0x62 then Some(8)
    else if u == 0x74 then Some(9)
    else if u == 0x6E then Some(10)
    else if u == 0x66 then Some(12)
    else if u == 0x72 then Some(13)
    else None
  }

  function HexRead(t: Text): Option<Unit>
    requires |t| >= 4
  {
    var a, b, c, d := HexValue(t[0]), HexValue(t[1]), HexValue(t[2]), HexValue(t[3]);
    if a.Some? && b.Some? && c.Some? && d.Some? then Some(((a.value * 16 + b.value) * 16 + c.value) * 16 + d.value) else None
  }

  /** One code unit and how many units spell it. */
  function ReadUnit(t: Text): (r: Option<(Unit, nat)>)
    requires t != []
    ensures r.Some? ==> 1 <= r.value.1 <= |t|
  {
    if t[0] != BACKSLASH then Some((t[0], 1))
    else if |t| >= 2 && ShortUnescape(t[1]).Some? then Some((ShortUnescape(t[1]).value, 2))
    else if |t| >= 6 && t[1] == LETTER_U && HexRead(t[2..]).Some? then Some((HexRead(t[2..]).value, 6))
    else None
  }

  /** The text up to the closing quote, and what follows it. */
  function ReadBody(t: Text): Option<(Text, Text)>
    decreases |t|
  {
    if t == [] then None
    else if t[0] == QUOTE then Some(([], t[1..]))
    else
      match ReadUnit(t)
      case None => None
      case Some((u, n)) =>
        match ReadBody(t[n..])
        case None => None
        case Some((s, rest)) => Some(([u] + s, rest))
  }

  lemma HexDigit(d: int)
    requires 0 <= d < 16
    ensures HexValue(HexUnit(d)) == Some(d)
  {
  }

  lemma HexSum(u: int)
    requires 0 <= u < 0x10000
    ensures 0 <= u / 0x1000 < 16 && ((u / 0x1000 * 16 + u / 0x100 % 16) * 16 + u / 16 % 16) * 16 + u % 16 == u
  {
    var h := u / 16;
    var g := u / 0x100;
    assert u == h * 16 + u % 16;
    assert g == h / 16 && h == g * 16 + h % 16;
    assert u / 0x1000 == g / 16 && g == g / 16 * 16 + g % 16;
  }

  lemma HexInverts(u: Unit)
    ensures HexRead(Hex4(u)) == Some(u)
  {
    HexSum(u);
    HexDigit(u / 0x1000);
    HexDigit(u / 0x100 % 16);
    HexDigit(u / 16 % 16);
    HexDigit(u % 16);
    hide HexUnit, HexValue;
  }

  lemma ReadEscaped(u: Unit, rest: Text)
    ensures EscapeUnit(u) != [] && EscapeUnit(u)[0] != QUOTE && ReadUnit(EscapeUnit(u) + rest) == Some((u, |EscapeUnit(u)|))
  {
    var e := EscapeUnit(u);
    var t := e + rest;
    assert forall i | 0 <= i < |e| :: t[i] == e[i];
    if ShortEscape(u).None? && (u < 0x20 || High(u) || Low(u)) {
      HexInverts(u);
      assert t[2..][..4] == Hex4(u);
      assert HexRead(t[2..]) == HexRead(Hex4(u));
    }
  }

  lemma ReadRaw(u: Unit, rest: Text)
    requires High(u) || Low(u)
    ensures u != QUOTE && ReadUnit([u] + rest) == Some((u, 1))
  {
  }

  /** Reads one more unit in front of a text that can be read. */
  lemma ReadOneMore(u: Unit, spelled: Text, later: Text, s: Text, rest: Text)
    requires spelled != [] && spelled[0] != QUOTE && ReadUnit(spelled + later) == Some((u, |spelled|))
    requires ReadBody(later) == Some((s, rest))
    ensures ReadBody(spelled + later) == Some(([u] + s, rest))
  {
    hide ReadUnit;
    var t := spelled + later;
    assert t[|spelled|..] == later && t[0] == spelled[0];
  }

  /** Reading undoes quoting, whatever follows. */
  lemma {:induction false} ReadInvertsQuote(s: Text, rest: Text)
    ensures ReadBody(QuoteBody(s) + ([QUOTE] + rest)) == Some((s, rest))
    decreases |s|
  {
    hide ReadUnit, ReadBody, EscapeUnit;
    var tail := [QUOTE] + rest;
    if s == [] {
      ReadEnd(rest);
      assert QuoteBody(s) + tail == tail;
    } else if Pair(s) {
      var later := QuoteBody(s[2..]) + tail;
      ReadInvertsQuote(s[2..], rest);
      ReadRaw(s[1], later);
      ReadOneMore(s[1], [s[1]], later, s[2..], rest);
      ReadRaw(s[0], [s[1]] + later);
      ReadOneMore(s[0], [s[0]], [s[1]] + later, [s[1]] + s[2..], rest);
      assert QuoteBody(s) + tail == [s[0]] + ([s[1]] + later);
      assert s == [s[0]] + ([s[1]] + s[2..]);
    } else {
      var later := QuoteBody(s[1..]) + tail;
      ReadInvertsQuote(s[1..], rest);
      ReadEscaped(s[0], later);
      ReadOneMore(s[0], EscapeUnit(s[0]), later, s[1..], rest);
      assert QuoteBody(s) + tail == EscapeUnit(s[0]) + later;
      assert s == [s[0]] + s[1..];
    }
  }

  lemma ReadEnd(rest: Text)
    ensures ReadBody([QUOTE] + rest) == Some(([], rest))
  {
    assert ([QUOTE] + rest)[1..] == rest;
  }

  /** A quoted string can be told from whatever follows it. */
  lemma QuotedPrefix(x: Text, r: Text, y: Text, q: Text)
    requires Quoted(x) + r == Quoted(y) + q
    ensures x == y && r == q
  {
    QuotedTail(x, r);
    QuotedTail(y, q);
    ReadInvertsQuote(x, r);
    ReadInvertsQuote(y, q);
  }

  lemma QuotedTail(x: Text, r: Text)
    ensures (Quoted(x) + r)[1..] == QuoteBody(x) + ([QUOTE] + r)
  {
    hide QuoteBody;
  }

  // ---- Numbers and nulls ----

  function Null(): Text { Units("null") }

  function Num(n: int): Text {
    if n < 0 then [45] + Units(Decimal(-n)) else Units(Decimal(n))
  }

  function OptNum(n: Option<int>): Text {
    if n.Some? then Num(n.value) else Null()
  }

  function OptQuoted(s: Option<Text>): Text {
    if s.Some? then Quoted(s.value) else Null()
  }

  predicate DigitUnit(u: Unit) { 48 <= u <= 57 }

  predicate Digits(t: Text) { forall i | 0 <= i < |t| :: DigitUnit(t[i]) }

  /** What follows a number: something, but no digit. */
  predicate Delimits(r: Text) { r != [] && !DigitUnit(r[0]) }

  lemma DigitsPrefix(a: Text, r: Text, b: Text, q: Text)
    requires Digits(a) && Digits(b) && Delimits(r) && Delimits(q) && a + r == b + q
    ensures a == b && r == q
  {
    var t := a + r;
    assert t[|a|] == r[0] && t[|b|] == q[0];
    assert forall i | 0 <= i < |a| :: t[i] == a[i];
    assert forall i | 0 <= i < |b| :: t[i] == b[i];
    assert |a| == |b|;
    assert a == t[..|a|] && r == t[|a|..];
  }

  lemma DecimalUnits(n: nat)
    ensures var t := Units(Decimal(n)); t != [] && Digits(t)
  {
    assert forall i | 0 <= i < |Decimal(n)| :: Decimal(n)[i] in Decimal(n);
  }

  lemma DecimalUnitsInjective(m: nat, n: nat)
    requires Units(Decimal(m)) == Units(Decimal(n))
    ensures m == n
  {
    var a, b := Decimal(m), Decimal(n);
    assert |Units(a)| == |a| && |Units(b)| == |b|;
    forall i | 0 <= i < |a| ensures a[i] == b[i] {
      assert a[i] in a && b[i] in b;
      assert Units(a)[i] == a[i] as int && Units(b)[i] == b[i] as int;
    }
    ParseDecimalInverts(m);
    ParseDecimalInverts(n);
  }

  lemma NullText()
    ensures |Null()| == 4 && Null()[0] == 110
  {
  }

  lemma NumHead(n: int)
    ensures Num(n) != [] && Num(n)[0] != 110
    ensures n < 0 <==> Num(n)[0] == 45
  {
    DecimalUnits(if n < 0 then -n else n);
  }

  lemma NatPrefix(m: nat, r: Text, n: nat, q: Text)
    requires Delimits(r) && Delimits(q) && Units(Decimal(m)) + r == Units(Decimal(n)) + q
    ensures m == n && r == q
  {
    DecimalUnits(m);
    DecimalUnits(n);
    hide Units;
    DigitsPrefix(Units(Decimal(m)), r, Units(Decimal(n)), q);
    DecimalUnitsInjective(m, n);
  }

  lemma NumPrefix(m: int, r: Text, n: int, q: Text)
    requires Delimits(r) && Delimits(q) && Num(m) + r == Num(n) + q
    ensures m == n && r == q
  {
    NumHead(m);
    NumHead(n);
    hide Units;
    assert (Num(m) + r)[0] == Num(m)[0] && (Num(n) + q)[0] == Num(n)[0];
    if m < 0 {
      Minus(m, r);
      Minus(n, q);
      NatPrefix(-m, r, -n, q);
    } else {
      NatPrefix(m, r, n, q);
    }
  }

  lemma Minus(n: int, r: Text)
    requires n < 0
    ensures (Num(n) + r)[1..] == Units(Decimal(-n)) + r
  {
    hide Units;
  }

  lemma OptNumPrefix(x: Option<int>, r: Text, y: Option<int>, q: Text)
    requires Delimits(r) && Delimits(q) && OptNum(x) + r == OptNum(y) + q
    ensures x == y && r == q
  {
    NullText();
    if x.Some? { NumHead(x.value); }
    if y.Some? { NumHead(y.value); }
    assert (OptNum(x) + r)[0] == OptNum(x)[0] && (OptNum(y) + q)[0] == OptNum(y)[0];
    hide Num, Null;
    if x.Some? && y.Some? {
      NumPrefix(x.value, r, y.value, q);
    } else {
      assert x.None? && y.None?;
      Cancel(Null(), r, q);
    }
  }

  lemma Cancel(k: Text, r: Text, q: Text)
    requires k + r == k + q
    ensures r == q
  {
    assert (k + r)[|k|..] == r && (k + q)[|k|..] == q;
  }

  lemma OptQuotedPrefix(x: Option<Text>, r: Text, y: Option<Text>, q: Text)
    requires OptQuoted(x) + r == OptQuoted(y) + q
    ensures x == y && r == q
  {
    NullText();
    assert forall s: Text :: Quoted(s)[0] == QUOTE;
    assert (OptQuoted(x) + r)[0] == OptQuoted(x)[0] && (OptQuoted(y) + q)[0] == OptQuoted(y)[0];
    hide Quoted, Null;
    if x.Some? && y.Some? {
      QuotedPrefix(x.value, r, y.value, q);
    } else {
      assert x.None? && y.None?;
      Cancel(Null(), r, q);
    }
  }

  // ---- The canonical record ----

  function Key(name: string): Text {
    Units(name)
  }

  function EvidenceTail(e: Evidence): Text {
    Quoted(e.approvalId) + (Key(",\"missionId\":") + (Quoted(e.missionId) + (Key(",\"repository\":")
      + (Quoted(e.repository) + (Key(",\"branch\":") + (Quoted(e.branch) + Key("}")))))))
  }

  function OptEvidence(e: Option<Evidence>): Text {
    if e.Some? then Key("{\"approvalId\":") + EvidenceTail(e.value) else Null()
  }

  function CostPart(b: Budget): Text { OptNum(b.maxCostMinorUnits) + Key("}}") }
  function TokensPart(b: Budget): Text { OptNum(b.maxTokens) + (Key(",\"maxCostMinorUnits\":") + CostPart(b)) }
  function BudgetPart(b: Budget): Text { OptNum(b.maxDurationMs) + (Key(",\"maxTokens\":") + TokensPart(b)) }

  function LevelPart(c: Content): Text {
    OptQuoted(c.assuranceLevel) + (Key(",\"budget\":{\"maxDurationMs\":") + BudgetPart(EffectiveBudget(c.budget)))
  }

  function PromptPart(c: Content): Text { Quoted(c.prompt) + (Key(",\"assuranceLevel\":") + LevelPart(c)) }
  function ApprovalPart(c: Content): Text { OptEvidence(c.codeBuildApproval) + (Key(",\"prompt\":") + PromptPart(c)) }
  function CapabilityPart(c: Content): Text { Quoted(c.capabilityCode) + (Key(",\"codeBuildApproval\":") + ApprovalPart(c)) }

  /** The text that `JSON.stringify` makes of the canonical record. */
  function Canonical(c: Content): Text {
    Key("{\"capabilityCode\":") + CapabilityPart(c)
  }

  /** The bytes that are hashed. */
  function FingerprintOf(c: Content): seq<Byte> {
    Utf8(Canonical(c))
  }

  lemma KeyHead(name: string)
    requires name != [] && (name[0] == ',' || name[0] == '}')
    ensures Key(name) != [] && !DigitUnit(Key(name)[0])
  {
  }

  lemma KeyDelimits(name: string, rest: Text)
    requires name != [] && (name[0] == ',' || name[0] == '}')
    ensures Delimits(Key(name) + rest)
  {
    KeyHead(name);
  }

  lemma BudgetPrefix(x: Budget, y: Budget)
    requires BudgetPart(x) == BudgetPart(y)
    ensures x == y
  {
    hide OptNum, Key;
    KeyDelimits(",\"maxTokens\":", TokensPart(x));
    KeyDelimits(",\"maxTokens\":", TokensPart(y));
    OptNumPrefix(x.maxDurationMs, Key(",\"maxTokens\":") + TokensPart(x), y.maxDurationMs, Key(",\"maxTokens\":") + TokensPart(y));
    Cancel(Key(",\"maxTokens\":"), TokensPart(x), TokensPart(y));
    KeyDelimits(",\"maxCostMinorUnits\":", CostPart(x));
    KeyDelimits(",\"maxCostMinorUnits\":", CostPart(y));
    OptNumPrefix(x.maxTokens, Key(",\"maxCostMinorUnits\":") + CostPart(x), y.maxTokens, Key(",\"maxCostMinorUnits\":") + CostPart(y));
    Cancel(Key(",\"maxCostMinorUnits\":"), CostPart(x), CostPart(y));
    KeyHead("}}");
    OptNumPrefix(x.maxCostMinorUnits, Key("}}"), y.maxCostMinorUnits, Key("}}"));
  }

  /** Strips the next string and the name after it from both sides. */
  lemma StringPrefix(x: Text, y: Text, key: Text, r: Text, q: Text)
    requires Quoted(x) + (key + r) == Quoted(y) + (key + q)
    ensures x == y && r == q
  {
    hide Quoted;
    QuotedPrefix(x, key + r, y, key + q);
    Cancel(key, r, q);
  }

  lemma Regroup(a: Text, b: Text, c: Text)
    ensures a + b + c == a + (b + c)
  {
  }

  lemma EvidenceRegroup(e: Evidence, r: Text)
    ensures EvidenceTail(e) + r
         == Quoted(e.approvalId) + (Key(",\"missionId\":") + (Quoted(e.missionId) + (Key(",\"repository\":")
              + (Quoted(e.repository) + (Key(",\"branch\":") + (Quoted(e.branch) + (Key("}") + r)))))))
  {
    hide Quoted, Key;
    var t4 := Quoted(e.branch) + Key("}");
    var t3 := Quoted(e.repository) + (Key(",\"branch\":") + t4);
    var t2 := Quoted(e.missionId) + (Key(",\"repository\":") + t3);
    Regroup(Quoted(e.branch), Key("}"), r);
    Regroup(Key(",\"branch\":"), t4, r);
    Regroup(Quoted(e.repository), Key(",\"branch\":") + t4, r);
    Regroup(Key(",\"repository\":"), t3, r);
    Regroup(Quoted(e.missionId), Key(",\"repository\":") + t3, r);
    Regroup(Key(",\"missionId\":"), t2, r);
    Regroup(Quoted(e.approvalId), Key(",\"missionId\":") + t2, r);
  }

  lemma EvidencePrefix(x: Evidence, r: Text, y: Evidence, q: Text)
    requires EvidenceTail(x) + r == EvidenceTail(y) + q
    ensures x == y && r == q
  {
    hide Quoted, Key, EvidenceTail;
    EvidenceRegroup(x, r);
    EvidenceRegroup(y, q);
    var x4, y4 := Quoted(x.branch) + (Key("}") + r), Quoted(y.branch) + (Key("}") + q);
    var x3, y3 := Quoted(x.repository) + (Key(",\"branch\":") + x4), Quoted(y.repository) + (Key(",\"branch\":") + y4);
    var x2, y2 := Quoted(x.missionId) + (Key(",\"repository\":") + x3), Quoted(y.missionId) + (Key(",\"repository\":") + y3);
    StringPrefix(x.approvalId, y.approvalId, Key(",\"missionId\":"), x2, y2);
    StringPrefix(x.missionId, y.missionId, Key(",\"repository\":"), x3, y3);
    StringPrefix(x.repository, y.repository, Key(",\"branch\":"), x4, y4);
    StringPrefix(x.branch, y.branch, Key("}"), r, q);
  }

  lemma EvidenceKey()
    ensures Key("{\"approvalId\":") != [] && Key("{\"approvalId\":")[0] == 123
  {
  }

  lemma OptEvidencePrefix(x: Option<Evidence>, r: Text, y: Option<Evidence>, q: Text)
    requires OptEvidence(x) + r == OptEvidence(y) + q
    ensures x == y && r == q
  {
    NullText();
    EvidenceKey();
    hide Null, Key, EvidenceTail;
    assert (OptEvidence(x) + r)[0] == OptEvidence(x)[0] && (OptEvidence(y) + q)[0] == OptEvidence(y)[0];
    if x.Some? && y.Some? {
      var k := Key("{\"approvalId\":");
      Regroup(k, EvidenceTail(x.value), r);
      Regroup(k, EvidenceTail(y.value), q);
      Cancel(k, EvidenceTail(x.value) + r, EvidenceTail(y.value) + q);
      EvidencePrefix(x.value, r, y.value, q);
    } else {
      assert x.None? && y.None?;
      Cancel(Null(), r, q);
    }
  }

  /** What a request asks for, an absent budget being one without limits. */
  predicate SameContent(x: Content, y: Content) {
    && x.capabilityCode == y.capabilityCode && x.prompt == y.prompt && x.assuranceLevel == y.assuranceLevel
    && x.codeBuildApproval == y.codeBuildApproval && EffectiveBudget(x.budget) == EffectiveBudget(y.budget)
  }

  /** The canonical text determines the content. */
  lemma CanonicalInjective(x: Content, y: Content)
    requires Canonical(x) == Canonical(y)
    ensures SameContent(x, y)
  {
    hide Quoted, Key, OptEvidence, OptQuoted, BudgetPart;
    Cancel(Key("{\"capabilityCode\":"), CapabilityPart(x), CapabilityPart(y));
    StringPrefix(x.capabilityCode, y.capabilityCode, Key(",\"codeBuildApproval\":"), ApprovalPart(x), ApprovalPart(y));
    OptEvidencePrefix(x.codeBuildApproval, Key(",\"prompt\":") + PromptPart(x), y.codeBuildApproval, Key(",\"prompt\":") + PromptPart(y));
    Cancel(Key(",\"prompt\":"), PromptPart(x), PromptPart(y));
    StringPrefix(x.prompt, y.prompt, Key(",\"assuranceLevel\":"), LevelPart(x), LevelPart(y));
    var k := Key(",\"budget\":{\"maxDurationMs\":");
    var b, d := EffectiveBudget(x.budget), EffectiveBudget(y.budget);
    OptQuotedPrefix(x.assuranceLevel, k + BudgetPart(b), y.assuranceLevel, k + BudgetPart(d));
    Cancel(k, BudgetPart(b), BudgetPart(d));
    BudgetPrefix(b, d);
  }

  // ---- From text to bytes ----

  /** Every surrogate is half of a pair. */
  predicate Paired(t: Text) {
    t == []
    || (Pair(t) && Paired(t[2..]))
    || (!High(t[0]) && !Low(t[0]) && Paired(t[1..]))
  }

  function FromScalar(c: int): seq<int> {
    if c < 0x10000 then [c] else [0xD800 + (c - 0x10000) / 0x400, 0xDC00 + (c - 0x10000) % 0x400]
  }

  function FromScalars(cs: seq<Scalar>): seq<int> {
    if cs == [] then [] else FromScalar(cs[0]) + FromScalars(cs[1..])
  }

  lemma FromJoined(high: Unit, low: Unit)
    requires High(high) && Low(low)
    ensures FromScalar(Joined(high, low)) == [high, low]
  {
  }

  /** Decoding into code points loses nothing of a text without unpaired surrogates. */
  lemma {:induction false} FromScalarsInverts(t: Text)
    requires Paired(t)
    ensures FromScalars(Scalars(t)) == t
    decreases |t|
  {
    if t == [] {
    } else if Pair(t) {
      FromJoined(t[0], t[1]);
      FromScalarsInverts(t[2..]);
      assert Scalars(t)[1..] == Scalars(t[2..]);
      assert t == [t[0], t[1]] + t[2..];
    } else {
      FromScalarsInverts(t[1..]);
      assert Scalars(t)[1..] == Scalars(t[1..]);
      assert t == [t[0]] + t[1..];
    }
  }

  lemma {:induction false} PairedConcat(a: Text, b: Text)
    requires Paired(a) && Paired(b)
    ensures Paired(a + b)
    decreases |a|
  {
    if a == [] {
      assert a + b == b;
    } else if Pair(a) {
      assert (a + b)[2..] == a[2..] + b;
      PairedConcat(a[2..], b);
    } else {
      assert (a + b)[1..] == a[1..] + b;
      PairedConcat(a[1..], b);
    }
  }

  lemma {:induction false} NoSurrogates(t: Text)
    requires forall i | 0 <= i < |t| :: !High(t[i]) && !Low(t[i])
    ensures Paired(t)
    decreases |t|
  {
    if t != [] {
      NoSurrogates(t[1..]);
    }
  }

  lemma EscapePaired(u: Unit)
    ensures Paired(EscapeUnit(u))
  {
    NoSurrogates(EscapeUnit(u));
  }

  /** A quoted string has no unpaired surrogate, whatever the original had. */
  lemma {:induction false} QuoteBodyPaired(s: Text)
    ensures Paired(QuoteBody(s))
    decreases |s|
  {
    if s == [] {
    } else if Pair(s) {
      QuoteBodyPaired(s[2..]);
      var t := QuoteBody(s);
      assert t[2..] == QuoteBody(s[2..]) && Pair(t);
    } else {
      EscapePaired(s[0]);
      QuoteBodyPaired(s[1..]);
      PairedConcat(EscapeUnit(s[0]), QuoteBody(s[1..]));
    }
  }

  lemma QuotedPaired(s: Text)
    ensures Paired(Quoted(s))
  {
    hide QuoteBody;
    NoSurrogates([QUOTE]);
    QuoteBodyPaired(s);
    PairedConcat(QuoteBody(s), [QUOTE]);
    PairedConcat([QUOTE], QuoteBody(s) + [QUOTE]);
  }

  /** A `char` is no surrogate. */
  lemma KeyPaired(name: string)
    ensures Paired(Key(name))
  {
    NoSurrogates(Key(name));
  }

  lemma OptNumPaired(n: Option<int>)
    ensures Paired(OptNum(n))
  {
    if n.Some? {
      DecimalUnits(if n.value < 0 then -n.value else n.value);
    }
    NoSurrogates(OptNum(n));
  }

  lemma OptQuotedPaired(s: Option<Text>)
    ensures Paired(OptQuoted(s))
  {
    if s.Some? {
      QuotedPaired(s.value);
    } else {
      NullPaired();
    }
  }

  lemma NullPaired()
    ensures Paired(Null())
  {
    NoSurrogates(Null());
  }

  /** Both parts around a name are paired, so the whole is. */
  lemma JoinPaired(a: Text, name: string, b: Text)
    requires Paired(a) && Paired(b)
    ensures Paired(a + (Key(name) + b))
  {
    hide Paired;
    KeyPaired(name);
    PairedConcat(Key(name), b);
    PairedConcat(a, Key(name) + b);
  }

  lemma EvidencePaired(e: Option<Evidence>)
    ensures Paired(OptEvidence(e))
  {
    hide Paired, Quoted, Key;
    if e.Some? {
      var v := e.value;
      QuotedPaired(v.approvalId);
      QuotedPaired(v.missionId);
      QuotedPaired(v.repository);
      QuotedPaired(v.branch);
      KeyPaired("}");
      PairedConcat(Quoted(v.branch), Key("}"));
      var t4 := Quoted(v.branch) + Key("}");
      JoinPaired(Quoted(v.repository), ",\"branch\":", t4);
      var t3 := Quoted(v.repository) + (Key(",\"branch\":") + t4);
      JoinPaired(Quoted(v.missionId), ",\"repository\":", t3);
      var t2 := Quoted(v.missionId) + (Key(",\"repository\":") + t3);
      JoinPaired(Quoted(v.approvalId), ",\"missionId\":", t2);
      KeyPaired("{\"approvalId\":");
      PairedConcat(Key("{\"approvalId\":"), EvidenceTail(v));
    } else {
      NullPaired();
    }
  }

  lemma BudgetPaired(b: Budget)
    ensures Paired(BudgetPart(b))
  {
    hide Paired, OptNum, Key;
    OptNumPaired(b.maxDurationMs);
    OptNumPaired(b.maxTokens);
    OptNumPaired(b.maxCostMinorUnits);
    KeyPaired("}}");
    PairedConcat(OptNum(b.maxCostMinorUnits), Key("}}"));
    JoinPaired(OptNum(b.maxTokens), ",\"maxCostMinorUnits\":", CostPart(b));
    JoinPaired(OptNum(b.maxDurationMs), ",\"maxTokens\":", TokensPart(b));
  }

  lemma LevelPaired(c: Content)
    ensures Paired(LevelPart(c))
  {
    hide Paired, OptQuoted, BudgetPart, Key;
    BudgetPaired(EffectiveBudget(c.budget));
    OptQuotedPaired(c.assuranceLevel);
    JoinPaired(OptQuoted(c.assuranceLevel), ",\"budget\":{\"maxDurationMs\":", BudgetPart(EffectiveBudget(c.budget)));
  }

  lemma ApprovalPaired(c: Content)
    ensures Paired(ApprovalPart(c))
  {
    hide Paired, Quoted, OptEvidence, LevelPart, Key;
    LevelPaired(c);
    QuotedPaired(c.prompt);
    JoinPaired(Quoted(c.prompt), ",\"assuranceLevel\":", LevelPart(c));
    EvidencePaired(c.codeBuildApproval);
    JoinPaired(OptEvidence(c.codeBuildApproval), ",\"prompt\":", PromptPart(c));
  }

  lemma CanonicalPaired(c: Content)
    ensures Paired(Canonical(c))
  {
    hide Paired, Quoted, ApprovalPart, Key;
    ApprovalPaired(c);
    QuotedPaired(c.capabilityCode);
    JoinPaired(Quoted(c.capabilityCode), ",\"codeBuildApproval\":", ApprovalPart(c));
    KeyPaired("{\"capabilityCode\":");
    PairedConcat(Key("{\"capabilityCode\":"), CapabilityPart(c));
  }

  lemma Utf8Injective(a: Text, b: Text)
    requires Paired(a) && Paired(b) && Utf8(a) == Utf8(b)
    ensures a == b
  {
    Utf8RoundTrip(Scalars(a));
    Utf8RoundTrip(Scalars(b));
    FromScalarsInverts(a);
    FromScalarsInverts(b);
  }

  /** Two requests have the same fingerprint exactly when they ask for the same: whatever quotes, control
      characters or unpaired surrogates their texts contain, and an absent budget being one without limits. */
  lemma FingerprintExactly(x: Content, y: Content)
    ensures FingerprintOf(x) == FingerprintOf(y) <==> SameContent(x, y)
  {
    hide Canonical, Utf8, Paired;
    if FingerprintOf(x) == FingerprintOf(y) {
      CanonicalPaired(x);
      CanonicalPaired(y);
      Utf8Injective(Canonical(x), Canonical(y));
      CanonicalInjective(x, y);
    }
    if SameContent(x, y) {
      SameCanonical(x, y);
    }
  }

  lemma SameCanonical(x: Content, y: Content)
    requires SameContent(x, y)
    ensures Canonical(x) == Canonical(y)
  {
  }
}
