/** Python 2.7's `shlex.split(s)`: a POSIX-mode lexer with `whitespace_split`
    set and comments off. Words are separated by white space; single quotes
    keep everything up to the next single quote; double quotes keep
    everything up to the next double quote except that a backslash before a
    backslash or a double quote escapes it; outside quotes a backslash
    escapes the next character. A quote or an escape left open at the end of
    the text raises ValueError, modelled as `None`. */
module Shlex {

  datatype Option<T> = None | Some(value: T)

  /** The lexer's state between two characters (the `state` attribute of a
      `shlex` object). `Between` is the state before a word starts. */
  datatype State = Between | Word | SingleQuoted | DoubleQuoted | Escaped(inDouble: bool)

  /** `shlex.whitespace`. */
  predicate IsShlexSpace(c: char)
  {
    c == ' ' || c == '\t' || c == '\r' || c == '\n'
  }

  /** A character that the lexer copies into a word as it is when it is not
      inside quotes. */
  predicate IsPlain(c: char)
  {
    !IsShlexSpace(c) && c != '\'' && c != '"' && c != '\\'
  }

  /** The word ends: it is kept if it has characters or was quoted (so `''`
      is an empty word). */
  function Emit(acc: seq<string>, token: string, quoted: bool): seq<string>
  {
    if token != [] || quoted then acc + [token] else acc
  }

  /** Lexes `s` from state `st`, with `token` read so far of the current word
      (quoted when `quoted`) and the finished words in `acc`. */
  function Lex(s: string, st: State, token: string, quoted: bool, acc: seq<string>): Option<seq<string>>
    decreases |s|
  {
    if s == [] then
      match st
      case Between => Some(acc)
      case Word => Some(Emit(acc, token, quoted))
      case _ => None
    else
      var c, rest := s[0], s[1..];
      match st
      case Between =>
        if IsShlexSpace(c) then Lex(rest, Between, token, quoted, acc)
        else if c == '\'' then Lex(rest, SingleQuoted, token, true, acc)
        else if c == '"' then Lex(rest, DoubleQuoted, token, true, acc)
        else if c == '\\' then Lex(rest, Escaped(false), token, quoted, acc)
        else Lex(rest, Word, token + [c], quoted, acc)
      case Word =>
        if IsShlexSpace(c) then Lex(rest, Between, "", false, Emit(acc, token, quoted))
        else if c == '\'' then Lex(rest, SingleQuoted, token, true, acc)
        else if c == '"' then Lex(rest, DoubleQuoted, token, true, acc)
        else if c == '\\' then Lex(rest, Escaped(false), token, quoted, acc)
        else Lex(rest, Word, token + [c], quoted, acc)
      case SingleQuoted =>
        if c == '\'' then Lex(rest, Word, token, quoted, acc)
        else Lex(rest, SingleQuoted, token + [c], quoted, acc)
      case DoubleQuoted =>
        if c == '"' then Lex(rest, Word, token, quoted, acc)
        else if c == '\\' then Lex(rest, Escaped(true), token, quoted, acc)
        else Lex(rest, DoubleQuoted, token + [c], quoted, acc)
      case Escaped(inDouble) =>
        var kept := if inDouble && c != '\\' && c != '"' then token + ['\\', c] else token + [c];
        Lex(rest, if inDouble then DoubleQuoted else Word, kept, quoted, acc)
  }

  /** `shlex.split(s)`. */
  function Split(s: string): Option<seq<string>>
  {
    Lex(s, Between, "", false, [])
  }

  predicate AllPlain(w: string)
  {
    forall i :: 0 <= i < |w| ==> IsPlain(w[i])
  }

  predicate NoSingleQuote(w: string)
  {
    forall i :: 0 <= i < |w| ==> w[i] != '\''
  }

  /** Inside a word, a run of plain characters is copied into the word. */
  lemma {:induction false} LexPlainRun(w: string, rest: string, token: string, quoted: bool, acc: seq<string>)
    requires AllPlain(w)
    ensures Lex(w + rest, Word, token, quoted, acc) == Lex(rest, Word, token + w, quoted, acc)
    decreases |w|
  {
    if w == [] {
      assert w + rest == rest && token + w == token;
    } else {
      assert (w + rest)[0] == w[0] && (w + rest)[1..] == w[1..] + rest;
      LexPlainRun(w[1..], rest, token + [w[0]], quoted, acc);
      assert token + [w[0]] + w[1..] == token + w;
    }
  }

  /** Inside single quotes, everything up to the closing quote is copied. */
  lemma {:induction false} LexQuotedRun(w: string, rest: string, token: string, quoted: bool, acc: seq<string>)
    requires NoSingleQuote(w)
    ensures Lex(w + rest, SingleQuoted, token, quoted, acc) == Lex(rest, SingleQuoted, token + w, quoted, acc)
    decreases |w|
  {
    if w == [] {
      assert w + rest == rest && token + w == token;
    } else {
      assert (w + rest)[0] == w[0] && (w + rest)[1..] == w[1..] + rest;
      LexQuotedRun(w[1..], rest, token + [w[0]], quoted, acc);
      assert token + [w[0]] + w[1..] == token + w;
    }
  }

  /** A non-empty plain word followed by a space is one word. */
  lemma SplitPlainWord(w: string, rest: string, acc: seq<string>)
    requires w != [] && AllPlain(w)
    ensures Lex(w + " " + rest, Between, "", false, acc) == Lex(rest, Between, "", false, acc + [w])
  {
    var s := w + " " + rest;
    assert s[0] == w[0] && s[1..] == w[1..] + (" " + rest);
    assert AllPlain(w[1..]);
    assert "" + [w[0]] == [w[0]];
    assert (" " + rest)[0] == ' ' && (" " + rest)[1..] == rest;
    calc {
      Lex(s, Between, "", false, acc);
      Lex(w[1..] + (" " + rest), Word, [w[0]], false, acc);
      { LexPlainRun(w[1..], " " + rest, [w[0]], false, acc); }
      Lex(" " + rest, Word, [w[0]] + w[1..], false, acc);
      { assert [w[0]] + w[1..] == w; }
      Lex(" " + rest, Word, w, false, acc);
      Lex(rest, Between, "", false, acc + [w]);
    }
  }

  /** A single-quoted word followed by a space is one word, quotes removed. */
  lemma SplitQuotedWord(w: string, rest: string, acc: seq<string>)
    requires NoSingleQuote(w)
    ensures Lex("'" + w + "'" + " " + rest, Between, "", false, acc) == Lex(rest, Between, "", false, acc + [w])
  {
    var tail := "'" + " " + rest;
    var s := "'" + w + "'" + " " + rest;
    assert s[0] == '\'' && s[1..] == w + tail;
    LexQuotedRun(w, tail, "", true, acc);
    assert "" + w == w;
    assert tail[0] == '\'' && tail[1..] == " " + rest;
    assert (" " + rest)[0] == ' ' && (" " + rest)[1..] == rest;
  }

  /** A single-quoted word that ends the text is the last word. */
  lemma SplitQuotedLast(w: string, acc: seq<string>)
    requires NoSingleQuote(w)
    ensures Lex("'" + w + "'", Between, "", false, acc) == Some(acc + [w])
  {
    var s := "'" + w + "'";
    assert s[0] == '\'' && s[1..] == w + "'";
    LexQuotedRun(w, "'", "", true, acc);
    assert "" + w == w;
    assert "'"[1..] == [];
  }

  /** An unterminated single quote is an error. */
  lemma {:induction false} UnclosedQuote(w: string)
    requires NoSingleQuote(w)
    ensures Split("'" + w) == None
  {
    var s := "'" + w;
    assert s[0] == '\'' && s[1..] == w + [];
    LexQuotedRun(w, [], "", true, []);
  }
}
