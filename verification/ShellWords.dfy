/** The law of the tokenizer: words spelled in any mixture of bare characters, quotations and escapes are
    read back. */
module ShellWords {
  import opened Strings
  import opened ShellScanners

  /** One way to spell a part of a word. */
  datatype Piece =
    | Bare(text: string)
    | InSingleQuotes(text: string)
    | InDoubleQuotes(text: string)
    | Escaped(c: char)

  predicate PlainChar(c: char) {
    !IsSpace(c) && c != '\'' && c != '"' && c != '\\'
  }

  predicate Spellable(p: Piece) {
    match p
    case Bare(text) => forall i | 0 <= i < |text| :: PlainChar(text[i])
    case InSingleQuotes(text) => '\'' !in text
    case _ => true
  }

  function Content(p: Piece): string {
    if p.Escaped? then [p.c] else p.text
  }

  /** Inside double quotes only the quote and the backslash need an escape. */
  function Doubled(text: string): string {
    if text == [] then ""
    else (if text[0] == '"' || text[0] == '\\' then ['\\', text[0]] else [text[0]]) + Doubled(text[1..])
  }

  function Spelled(p: Piece): string {
    match p
    case Bare(text) => text
    case InSingleQuotes(text) => "'" + text + "'"
    case InDoubleQuotes(text) => "\"" + (Doubled(text) + "\"")
    case Escaped(c) => ['\\', c]
  }

  const PLAIN := Scan(Plain, false)

  lemma {:induction false} BareReads(text: string, rest: string, current: string)
    requires forall i | 0 <= i < |text| :: PlainChar(text[i])
    ensures TokensFrom(text + rest, current, PLAIN) == TokensFrom(rest, current + text, PLAIN)
    decreases |text|
  {
    if text == [] {
      assert text + rest == rest && current + text == current;
    } else {
      assert (text + rest)[1..] == text[1..] + rest;
      assert PlainChar(text[0]);
      BareReads(text[1..], rest, current + [text[0]]);
      assert current + [text[0]] + text[1..] == current + text;
    }
  }

  lemma ReadOne(c: char, rest: string, current: string, st: Scan)
    ensures TokensFrom([c] + rest, current, st) ==
              if st.escaped then TokensFrom(rest, current + [c], Advance(st, c))
              else if Advance(st, c) != st then TokensFrom(rest, current, Advance(st, c))
              else if IsSpace(c) && st.quote == Plain then Flush(current) + TokensFrom(rest, "", st)
              else TokensFrom(rest, current + [c], st)
  {
    hide IsSpace;
    assert ([c] + rest)[1..] == rest;
  }

  lemma {:induction false} DoubledReads(text: string, rest: string, current: string)
    ensures TokensFrom(Doubled(text) + rest, current, Scan(Double, false)) == TokensFrom(rest, current + text, Scan(Double, false))
    decreases |text|
  {
    hide TokensFrom, IsSpace;
    if text == [] {
      assert Doubled(text) + rest == rest && current + text == current;
    } else {
      var c, later := text[0], Doubled(text[1..]) + rest;
      DoubledReads(text[1..], rest, current + [c]);
      assert current + [c] + text[1..] == current + text;
      if c == '"' || c == '\\' {
        assert Doubled(text) + rest == ['\\'] + ([c] + later);
        ReadOne('\\', [c] + later, current, Scan(Double, false));
        ReadOne(c, later, current, Scan(Double, true));
      } else {
        assert Doubled(text) + rest == [c] + later;
        ReadOne(c, later, current, Scan(Double, false));
      }
    }
  }

  /** Whatever follows, a piece adds its content to the word under way. */
  lemma PieceReads(p: Piece, rest: string, current: string)
    requires Spellable(p)
    ensures TokensFrom(Spelled(p) + rest, current, PLAIN) == TokensFrom(rest, current + Content(p), PLAIN)
  {
    hide TokensFrom, IsSpace, PlainChar, Doubled;
    match p
    case Bare(text) => BareReads(text, rest, current);
    case InSingleQuotes(text) =>
      assert Spelled(p) + rest == ['\''] + (text + (['\''] + rest));
      ReadOne('\'', text + (['\''] + rest), current, PLAIN);
      SingleQuotedBody(text, ['\''] + rest, current);
      ReadOne('\'', rest, current + text, Scan(Single, false));
    case InDoubleQuotes(text) =>
      assert Spelled(p) + rest == ['"'] + (Doubled(text) + (['"'] + rest));
      ReadOne('"', Doubled(text) + (['"'] + rest), current, PLAIN);
      DoubledReads(text, ['"'] + rest, current);
      ReadOne('"', rest, current + text, Scan(Double, false));
    case Escaped(c) =>
      assert Spelled(p) + rest == ['\\'] + ([c] + rest);
      ReadOne('\\', [c] + rest, current, PLAIN);
      ReadOne(c, rest, current, Scan(Plain, true));
  }

  type Word = seq<Piece>

  function WordContent(w: Word): string {
    if w == [] then "" else Content(w[0]) + WordContent(w[1..])
  }

  function WordSpelled(w: Word): string {
    if w == [] then "" else Spelled(w[0]) + WordSpelled(w[1..])
  }

  predicate SpellableWord(w: Word) {
    WordContent(w) != [] && forall i | 0 <= i < |w| :: Spellable(w[i])
  }

  lemma {:induction false} PiecesRead(w: Word, rest: string, current: string)
    requires forall i | 0 <= i < |w| :: Spellable(w[i])
    ensures TokensFrom(WordSpelled(w) + rest, current, PLAIN) == TokensFrom(rest, current + WordContent(w), PLAIN)
    decreases |w|
  {
    hide TokensFrom, Spelled, Content, Spellable;
    if w == [] {
      assert WordSpelled(w) + rest == rest && current + WordContent(w) == current;
    } else {
      assert WordSpelled(w) + rest == Spelled(w[0]) + (WordSpelled(w[1..]) + rest);
      PieceReads(w[0], WordSpelled(w[1..]) + rest, current);
      PiecesRead(w[1..], rest, current + Content(w[0]));
      assert current + Content(w[0]) + WordContent(w[1..]) == current + WordContent(w);
    }
  }

  /** The words with a blank after each. */
  function Line(words: seq<Word>): string {
    if words == [] then "" else WordSpelled(words[0]) + ([' '] + Line(words[1..]))
  }

  function Contents(words: seq<Word>): seq<string> {
    seq(|words|, i requires 0 <= i < |words| => WordContent(words[i]))
  }

  /** However each word is spelled, the tokenizer reads the words: none is lost, cut or joined. */
  lemma {:induction false} TokenizeInvertsSpelling(words: seq<Word>)
    requires forall i | 0 <= i < |words| :: SpellableWord(words[i])
    ensures Tokens(Line(words)) == Contents(words)
    decreases |words|
  {
    hide TokensFrom, WordSpelled, WordContent;
    if words == [] {
      assert Tokens("") == [] by { ReadNothing(); }
    } else {
      var w, later := words[0], Line(words[1..]);
      assert SpellableWord(w);
      PiecesRead(w, [' '] + later, "");
      assert "" + WordContent(w) == WordContent(w);
      ReadOne(' ', later, WordContent(w), PLAIN);
      TokenizeInvertsSpelling(words[1..]);
      assert Contents(words) == [WordContent(w)] + Contents(words[1..]);
    }
  }

  lemma ReadNothing()
    ensures Tokens("") == []
  {
  }
}
