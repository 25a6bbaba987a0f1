/** The law of the chain splitter: chaining two commands concatenates their segments. */
module ShellChains {
  import opened Strings
  import opened ShellScanners

  // ---- Blanks around a text ----

  lemma TrimUnique(s: string, lo: nat, hi: nat)
    requires lo <= hi <= |s| && (forall j | 0 <= j < lo :: IsSpace(s[j])) && (forall j | hi <= j < |s| :: IsSpace(s[j]))
    requires lo < hi ==> !IsSpace(s[lo]) && !IsSpace(s[hi - 1])
    ensures Trim(s) == s[lo..hi]
  {
    hide IsSpace;
    var a := SkipSpaces(s, 0);
    var b := DropSpaces(s, a, |s|);
    if lo < hi {
      assert a == lo && b == hi;
    } else {
      assert forall j | 0 <= j < |s| :: IsSpace(s[j]);
      assert a == |s|;
    }
  }

  lemma TrimBounds(s: string) returns (lo: nat, hi: nat)
    ensures lo <= hi <= |s| && (forall j | 0 <= j < lo :: IsSpace(s[j])) && (forall j | hi <= j < |s| :: IsSpace(s[j]))
    ensures lo < hi ==> !IsSpace(s[lo]) && !IsSpace(s[hi - 1])
    ensures Trim(s) == s[lo..hi]
  {
    hide IsSpace;
    lo := SkipSpaces(s, 0);
    hi := DropSpaces(s, lo, |s|);
  }

  lemma TrimLead(c: char, x: string)
    requires IsSpace(c)
    ensures Trim([c] + x) == Trim(x)
  {
    hide IsSpace, Trim;
    var lo, hi := TrimBounds(x);
    var t := [c] + x;
    forall j | 0 <= j < lo + 1 ensures IsSpace(t[j]) {
      assert j > 0 ==> t[j] == x[j - 1];
    }
    forall j | hi + 1 <= j < |t| ensures IsSpace(t[j]) {
      assert t[j] == x[j - 1];
    }
    if lo < hi {
      assert t[lo + 1] == x[lo] && t[hi] == x[hi - 1];
    }
    TrimUnique(t, lo + 1, hi + 1);
    assert t[lo + 1..hi + 1] == x[lo..hi];
  }

  lemma TrimTrail(x: string, c: char)
    requires IsSpace(c)
    ensures Trim(x + [c]) == Trim(x)
  {
    hide IsSpace, Trim;
    var lo, hi := TrimBounds(x);
    var t := x + [c];
    assert forall j | 0 <= j < |x| :: t[j] == x[j];
    TrimUnique(t, lo, hi);
    assert t[lo..hi] == x[lo..hi];
  }

  // ---- Splitting below the trim ----

  function Whole(t: string): seq<string> {
    SplitFrom(t, 0, 0)
  }

  lemma {:induction false} QuotePrefix(u: string, w: string, i: nat)
    requires i <= |u|
    ensures QuoteAt(u + w, i) == QuoteAt(u, i)
    decreases i
  {
    if i > 0 {
      QuotePrefix(u, w, i - 1);
      assert (u + w)[i - 1] == u[i - 1];
    }
  }

  lemma OperatorShift(t: string, m: nat, i: nat)
    requires m + i < |t|
    ensures OperatorAt(t, m + i) == OperatorAt(t[m..], i) && OperatorLength(t, m + i) == OperatorLength(t[m..], i)
  {
    var w := t[m..];
    assert w[i] == t[m + i];
    if i + 1 < |w| {
      assert w[i + 1] == t[m + i + 1];
    }
  }

  /** From an unquoted position on, splitting sees only what follows. */
  lemma {:induction false} SplitShift(t: string, m: nat, s: nat, i: nat)
    requires m <= |t| && QuoteAt(t, m) == Plain && s <= i <= |t| - m
    ensures SplitFrom(t, m + s, m + i) == SplitFrom(t[m..], s, i)
    decreases |t| - m - i
  {
    hide SplitFrom, Emit, QuoteAt, OperatorAt;
    var w := t[m..];
    assert t[m..|t|] == w;
    QuoteAtSlice(t, m, |t|, i);
    SliceOfSlice(t, m, |t|, s, i);
    if m + i == |t| {
      SplitAtEnd(t, m + s);
      SplitAtEnd(w, s);
    } else {
      OperatorShift(t, m, i);
      if QuoteAt(t, m + i) == Plain && OperatorAt(t, m + i) {
        SplitAtOperator(t, m + s, m + i);
        SplitAtOperator(w, s, i);
        SplitShift(t, m, i + OperatorLength(t, m + i), i + OperatorLength(t, m + i));
      } else {
        SplitSkips(t, m + s, m + i);
        SplitSkips(w, s, i);
        SplitShift(t, m, s, i + 1);
      }
    }
  }

  lemma {:induction false} SplitLead(c: char, v: string, i: nat)
    requires IsSpace(c) && i <= |v|
    ensures SplitFrom([c] + v, 0, i + 1) == SplitFrom(v, 0, i)
    decreases |v| - i
  {
    hide SplitFrom, QuoteAt, OperatorAt, OperatorLength, IsSpace, Trim;
    var t := [c] + v;
    assert t[1..] == v && t[1..|t|] == v;
    BlankKeepsPlain(t);
    QuoteAtSlice(t, 1, |t|, i);
    assert t[0..i + 1] == [c] + v[0..i];
    TrimLead(c, v[0..i]);
    if i == |v| {
      SplitAtEnd(t, 0);
      SplitAtEnd(v, 0);
    } else {
      OperatorShift(t, 1, i);
      if QuoteAt(v, i) == Plain && OperatorAt(v, i) {
        SplitAtOperator(t, 0, i + 1);
        SplitAtOperator(v, 0, i);
        var n := i + OperatorLength(v, i);
        SplitShift(t, 1, n, n);
      } else {
        SplitSkips(t, 0, i + 1);
        SplitSkips(v, 0, i);
        SplitLead(c, v, i + 1);
      }
    }
  }

  lemma BlankKeepsPlain(t: string)
    requires t != [] && IsSpace(t[0])
    ensures QuoteAt(t, 1) == Plain && !OperatorAt(t, 0)
  {
    assert QuoteAt(t, 0) == Plain;
  }

  /** A blank in front changes nothing. */
  lemma WholeLead(c: char, v: string)
    requires IsSpace(c)
    ensures Whole([c] + v) == Whole(v)
  {
    hide SplitFrom, QuoteAt, OperatorAt, IsSpace;
    BlankKeepsPlain([c] + v);
    SplitSkips([c] + v, 0, 0);
    SplitLead(c, v, 0);
  }

  lemma OperatorPrefix(u: string, w: string, i: nat)
    requires i < |u| && w != [] && IsSpace(w[0])
    ensures OperatorAt(u + w, i) == OperatorAt(u, i) && OperatorLength(u + w, i) == OperatorLength(u, i)
  {
    var t := u + w;
    assert t[i] == u[i];
    if i + 1 < |u| {
      assert t[i + 1] == u[i + 1];
    } else {
      assert t[i + 1] == w[0];
    }
  }

  lemma BlankIsNoOperator(t: string, i: nat)
    requires i < |t| && IsSpace(t[i])
    ensures !OperatorAt(t, i)
  {
  }

  lemma {:induction false} SplitTrail(v: string, c: char, s: nat, i: nat)
    requires IsSpace(c) && s <= i <= |v|
    ensures SplitFrom(v + [c], s, i) == SplitFrom(v, s, i)
    decreases |v| - i
  {
    hide SplitFrom, QuoteAt, OperatorAt, IsSpace, Trim;
    var t := v + [c];
    QuotePrefix(v, [c], i);
    assert t[s..i] == v[s..i];
    if i == |v| {
      BlankIsNoOperator(t, i);
      SplitSkips(t, s, i);
      SplitAtEnd(t, s);
      SplitAtEnd(v, s);
      assert t[s..|t|] == v[s..|v|] + [c];
      TrimTrail(v[s..|v|], c);
    } else {
      OperatorPrefix(v, [c], i);
      if QuoteAt(v, i) == Plain && OperatorAt(v, i) {
        SplitAtOperator(t, s, i);
        SplitAtOperator(v, s, i);
        SplitTrail(v, c, i + OperatorLength(v, i), i + OperatorLength(v, i));
      } else {
        SplitSkips(t, s, i);
        SplitSkips(v, s, i);
        SplitTrail(v, c, s, i + 1);
      }
    }
  }

  /** Trimming the whole first does not change its segments. */
  lemma {:induction false} WholeTrim(t: string)
    ensures Whole(Trim(t)) == Whole(t)
    decreases |t|
  {
    hide SplitFrom, Trim, IsSpace, Whole;
    if t != [] && IsSpace(t[0]) {
      assert t == [t[0]] + t[1..];
      WholeLead(t[0], t[1..]);
      TrimLead(t[0], t[1..]);
      WholeTrim(t[1..]);
    } else if t != [] && IsSpace(t[|t| - 1]) {
      var v := t[..|t| - 1];
      assert t == v + [t[|t| - 1]];
      WholeTrail(v, t[|t| - 1]);
      TrimTrail(v, t[|t| - 1]);
      WholeTrim(v);
    } else {
      TrimIsTrimmed(t);
      assert Trimmed(t);
    }
  }

  lemma WholeTrail(v: string, c: char)
    requires IsSpace(c)
    ensures Whole(v + [c]) == Whole(v)
  {
    hide SplitFrom;
    SplitTrail(v, c, 0, 0);
  }

  // ---- The chain law ----

  predicate IsOperator(op: string) {
    op == "&&" || op == "||" || op == ";" || op == "|"
  }

  function Chained(u: string, op: string, v: string): string {
    u + (" " + (op + (" " + v)))
  }

  lemma OperatorInPlace(u: string, op: string, v: string)
    requires IsOperator(op)
    ensures var t, n := Chained(u, op, v), |u| + 1;
            && n + |op| < |t| && t[|u|] == ' ' && t[n + |op|] == ' ' && t[n + |op| + 1..] == v
            && OperatorAt(t, n) && OperatorLength(t, n) == |op|
            && t[n] != '\'' && t[n] != '"' && t[n + |op| - 1] != '\'' && t[n + |op| - 1] != '"'
  {
    var t, n := Chained(u, op, v), |u| + 1;
    assert t[n..n + |op|] == op;
    assert t[n] == op[0];
    assert t[n + |op| - 1] == op[|op| - 1];
    assert t[n + |op|] == ' ';
  }

  lemma PlainAround(u: string, op: string, v: string)
    requires IsOperator(op) && QuoteAt(u, |u|) == Plain
    ensures var t, n := Chained(u, op, v), |u| + 1;
            n + |op| < |t| && QuoteAt(t, |u|) == Plain && QuoteAt(t, n) == Plain && QuoteAt(t, n + |op|) == Plain
  {
    hide QuoteAt, Chained, IsOperator;
    OperatorInPlace(u, op, v);
    var t, n := Chained(u, op, v), |u| + 1;
    assert QuoteAt(t, |u|) == Plain by {
      assert t == u + (" " + (op + (" " + v))) by { ChainedIs(u, op, v); }
      QuotePrefix(u, " " + (op + (" " + v)), |u|);
    }
    QuoteStep(t, |u|);
    PlainAfterOperator(t, n);
  }

  lemma ChainedIs(u: string, op: string, v: string)
    ensures Chained(u, op, v) == u + (" " + (op + (" " + v)))
  {
  }

  lemma AtSeam(u: string, op: string, v: string, s: nat)
    requires IsOperator(op) && QuoteAt(u, |u|) == Plain && s <= |u|
    ensures |u| <= |Chained(u, op, v)| && SplitFrom(Chained(u, op, v), s, |u|) == Emit(u[s..]) + Whole(v)
  {
    hide QuoteAt, IsOperator, SplitFrom, OperatorAt, OperatorLength, Trim, Chained;
    var t, n := Chained(u, op, v), |u| + 1;
    OperatorInPlace(u, op, v);
    PlainAround(u, op, v);
    BlankIsNoOperator(t, |u|);
    SplitSkips(t, s, |u|);
    SplitAtOperator(t, s, n);
    ChainedIs(u, op, v);
    assert t[s..n] == u[s..] + [' '];
    TrimTrail(u[s..], ' ');
    var m := n + |op|;
    SplitShift(t, m, 0, 0);
    assert t[m..] == [' '] + v;
    WholeLead(' ', v);
  }

  lemma {:induction false} ChainFrom(u: string, op: string, v: string, s: nat, i: nat)
    requires IsOperator(op) && QuoteAt(u, |u|) == Plain && s <= i <= |u|
    ensures |u| <= |Chained(u, op, v)| && SplitFrom(Chained(u, op, v), s, i) == SplitFrom(u, s, i) + Whole(v)
    decreases |u| - i
  {
    hide QuoteAt, IsOperator, SplitFrom, OperatorAt, Emit, Whole, Chained;
    var t := Chained(u, op, v);
    ChainedIs(u, op, v);
    var w := " " + (op + (" " + v));
    assert t == u + w && w[0] == ' ';
    if i == |u| {
      AtSeam(u, op, v, s);
      SplitAtEnd(u, s);
      assert u[s..] == u[s..|u|];
    } else {
      QuotePrefix(u, w, i);
      OperatorPrefix(u, w, i);
      if QuoteAt(u, i) == Plain && OperatorAt(u, i) {
        SplitAtOperator(t, s, i);
        SplitAtOperator(u, s, i);
        assert t[s..i] == u[s..i];
        var n := i + OperatorLength(u, i);
        ChainFrom(u, op, v, n, n);
        Regroup(Emit(u[s..i]), SplitFrom(u, n, n), Whole(v));
      } else {
        SplitSkips(t, s, i);
        SplitSkips(u, s, i);
        ChainFrom(u, op, v, s, i + 1);
      }
    }
  }

  /** Chaining concatenates: for every operator set off by blanks and every first command that ends
      outside quotes, no segment is lost, merged or reordered. */
  lemma ChainLaw(u: string, op: string, v: string)
    requires IsOperator(op) && QuoteAt(u, |u|) == Plain
    ensures SplitChains(Chained(u, op, v)) == SplitChains(u) + SplitChains(v)
  {
    hide QuoteAt, IsOperator, SplitFrom, Trim, Chained;
    ChainFrom(u, op, v, 0, 0);
    WholeTrim(Chained(u, op, v));
    WholeTrim(u);
    WholeTrim(v);
  }

  /** A text without an unquoted operator is its own only segment. */
  lemma SingleLaw(u: string)
    requires Unchained(Trim(u)) && !AllSpaces(u)
    ensures SplitChains(u) == [Trim(u)]
  {
    hide SplitFrom, Unchained;
    TrimIsTrimmed(u);
    TrimIsTrimmed(Trim(u));
    UnchainedIsFixed(Trim(u));
  }
}
