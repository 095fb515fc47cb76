/**
 * The token grammar of the WebAssembly text-format lexer, as pure functions
 * over the input (a sequence of Unicode scalars) and a position in it.
 * Every function returns the position where its construct ends, so that the
 * stepwise lexer in wast_lexer.dfy can be proved to reach the same position.
 *
 * The rules follow sections 6.2 and 6.3 of the WebAssembly Core
 * Specification 1.0, restricted to the tokens this lexer produces:
 * keywords, unsigned literals (decimal, or hexadecimal after `0x`, with `_`
 * between digits) and a terminal `unknown` token for anything else.
 */
module WastGrammar {
  import opened Results

  datatype Token =
    | Keyword(text: string)
    | Unsigned(value: nat)
    | Unknown(scalar: char)

  /** The result of one lexing step: the token (None at end of input) and
    * the position just after it. */
  datatype Scan = Scan(token: Option<Token>, end: nat)

  predicate IsWhitespace(c: char) {
    c == ' ' || c == '\t' || c == '\n' || c == '\r'
  }

  predicate IsDigit(c: char) {
    '0' <= c <= '9'
  }

  predicate IsHexDigit(c: char) {
    IsDigit(c) || 'a' <= c <= 'f' || 'A' <= c <= 'F'
  }

  predicate IsLetter(c: char) {
    'a' <= c <= 'z' || 'A' <= c <= 'Z'
  }

  /** `idchar` of section 6.3.5: letters, digits and the printable
    * punctuation other than quotes, parentheses, comma, semicolon and
    * brackets. */
  predicate IsIdChar(c: char) {
    IsLetter(c) || IsDigit(c) ||
    c in {'!', '#', '$', '%', '&', '\'', '*', '+', '-', '.', '/', ':',
          '<', '=', '>', '?', '@', '\\', '^', '_', '`', '|', '~'}
  }

  predicate IsDigitOf(c: char, hex: bool) {
    if hex then IsHexDigit(c) else IsDigit(c)
  }

  function Base(hex: bool): nat {
    if hex then 16 else 10
  }

  /** The value of a hexadecimal digit (0 for any other character). */
  function DigitValue(c: char): (d: nat)
    ensures IsDigitOf(c, true) ==> d < 16
    ensures IsDigitOf(c, false) ==> d < 10
  {
    if IsDigit(c) then (c - '0') as nat
    else if 'a' <= c <= 'f' then (c - 'a') as nat + 10
    else if 'A' <= c <= 'F' then (c - 'A') as nat + 10
    else 0
  }

  predicate StartsLineComment(s: seq<char>, i: nat) {
    i + 1 < |s| && s[i] == ';' && s[i + 1] == ';'
  }

  predicate StartsBlockComment(s: seq<char>, i: nat) {
    i + 1 < |s| && s[i] == '(' && s[i + 1] == ';'
  }

  predicate StartsTrivia(s: seq<char>, i: nat) {
    (i < |s| && IsWhitespace(s[i])) || StartsLineComment(s, i) || StartsBlockComment(s, i)
  }

  predicate Closes(s: seq<char>, k: nat) {
    k + 1 < |s| && s[k] == ';' && s[k + 1] == ')'
  }

  /** The end of a line comment's text: the first newline at or after `i`
    * (which is not part of the comment), or the end of input. */
  function LineEnd(s: seq<char>, i: nat): (j: nat)
    requires i <= |s|
    ensures i <= j <= |s|
    decreases |s| - i
  {
    if i == |s| || s[i] == '\n' then i else LineEnd(s, i + 1)
  }

  /** The end of a block comment whose text starts at `i`: just after the
    * first `;)` at or after `i`. Comments do not nest; a comment that is
    * never closed runs to the end of input. */
  function CommentEnd(s: seq<char>, i: nat): (j: nat)
    requires i <= |s|
    ensures i <= j <= |s|
    decreases |s| - i
  {
    if i + 1 >= |s| then |s|
    else if Closes(s, i) then i + 2
    else CommentEnd(s, i + 1)
  }

  /** The end of the whitespace and comments starting at `i`. */
  function TriviaEnd(s: seq<char>, i: nat): (j: nat)
    requires i <= |s|
    ensures i <= j <= |s|
    decreases |s| - i
  {
    if i == |s| then i
    else if IsWhitespace(s[i]) then TriviaEnd(s, i + 1)
    else if StartsLineComment(s, i) then TriviaEnd(s, LineEnd(s, i + 2))
    else if StartsBlockComment(s, i) then TriviaEnd(s, CommentEnd(s, i + 2))
    else i
  }

  /** The end of the maximal run of `idchar` starting at `i`. */
  function IdEnd(s: seq<char>, i: nat): (j: nat)
    requires i <= |s|
    ensures i <= j <= |s|
    decreases |s| - i
  {
    if i < |s| && IsIdChar(s[i]) then IdEnd(s, i + 1) else i
  }

  /** The end of a digit run that continues at `i`, just after a digit: a
    * further digit, or a `_` followed by a digit, extends it. */
  function DigitRunEnd(s: seq<char>, i: nat, hex: bool): (j: nat)
    requires i <= |s|
    ensures i <= j <= |s|
    decreases |s| - i
  {
    if i < |s| && IsDigitOf(s[i], hex) then DigitRunEnd(s, i + 1, hex)
    else if i + 1 < |s| && s[i] == '_' && IsDigitOf(s[i + 1], hex) then DigitRunEnd(s, i + 2, hex)
    else i
  }

  /** The value of a digit string read most significant digit first, with
    * every `_` skipped. */
  function Value(t: seq<char>, hex: bool): nat
    decreases |t|
  {
    if |t| == 0 then 0
    else if t[|t| - 1] == '_' then Value(t[..|t| - 1], hex)
    else Value(t[..|t| - 1], hex) * Base(hex) + DigitValue(t[|t| - 1])
  }

  /** Appending one character to a digit string: a `_` leaves the value
    * as it is, a digit shifts it by one place. */
  lemma ValueAppend(t: seq<char>, c: char, hex: bool)
    ensures Value(t + [c], hex)
         == if c == '_' then Value(t, hex) else Value(t, hex) * Base(hex) + DigitValue(c)
  {
    assert (t + [c])[..|t|] == t;
  }

  /** One more character of a digit string read into the value `v`. */
  function Push(v: nat, c: char, hex: bool): nat {
    if c == '_' then v else v * Base(hex) + DigitValue(c)
  }

  /** Reading the digit string of `s` from `start` one character further. */
  lemma ValueExtends(s: seq<char>, start: nat, i: nat, hex: bool)
    requires start <= i < |s|
    ensures Value(s[start..i + 1], hex) == Push(Value(s[start..i], hex), s[i], hex)
  {
    assert s[start..i + 1] == s[start..i] + [s[i]];
    ValueAppend(s[start..i], s[i], hex);
  }

  /** Whether a hexadecimal literal starts at `t`: `0x` and a hex digit. */
  predicate StartsHex(s: seq<char>, t: nat) {
    t + 2 < |s| && s[t] == '0' && s[t + 1] == 'x' && IsHexDigit(s[t + 2])
  }

  /** The token that starts at `t`, a position past any trivia. A digit
    * starts a number (hexadecimal only when `0x` is followed by a hex
    * digit, so that `0x` alone is the number 0 followed by the rest); any
    * other `idchar` starts a keyword; anything else is an unknown scalar. */
  function ReadToken(s: seq<char>, t: nat): (r: Scan)
    requires t < |s|
    ensures r.token.Some? && t < r.end <= |s|
    ensures r.token.value.Unsigned? <==> IsDigit(s[t])
    ensures r.token.value.Keyword? ==> IsIdChar(s[t]) && r.token.value.text == s[t..r.end]
    ensures r.token.value.Unknown? <==> !IsIdChar(s[t])
    ensures r.token.value.Unknown? ==> r.token.value.scalar == s[t] && r.end == t + 1
  {
    if StartsHex(s, t) then
      var e := DigitRunEnd(s, t + 3, true);
      Scan(Some(Unsigned(Value(s[t + 2..e], true))), e)
    else if IsDigit(s[t]) then
      var e := DigitRunEnd(s, t + 1, false);
      Scan(Some(Unsigned(Value(s[t..e], false))), e)
    else if IsIdChar(s[t]) then
      var e := IdEnd(s, t);
      Scan(Some(Keyword(s[t..e])), e)
    else Scan(Some(Unknown(s[t])), t + 1)
  }

  /** One step of the lexer from position `i`: skip trivia, then read one
    * token, or report the end of input. */
  function NextToken(s: seq<char>, i: nat): (r: Scan)
    requires i <= |s|
    ensures r.token.None? ==> r.end == |s|
    ensures r.token.Some? ==> i < r.end <= |s|
  {
    var t := TriviaEnd(s, i);
    if t == |s| then Scan(None, t) else ReadToken(s, t)
  }

  /** The tokens from position `i`, collected until the end of input or up
    * to and including the first unknown token. Every token takes at least
    * one scalar, and an unknown token can only be the last. */
  function Tokenize(s: seq<char>, i: nat): (r: seq<Token>)
    requires i <= |s|
    ensures |r| <= |s| - i
    ensures forall k :: 0 <= k < |r| - 1 ==> !r[k].Unknown?
    decreases |s| - i
  {
    var sc := NextToken(s, i);
    match sc.token
    case None => []
    case Some(tok) =>
      if tok.Unknown? then [tok]
      else
        var rest := Tokenize(s, sc.end);
        assert forall k :: 0 < k < |rest| + 1 ==> ([tok] + rest)[k] == rest[k - 1];
        [tok] + rest
  }

  function Tokens(s: seq<char>): seq<Token> {
    Tokenize(s, 0)
  }
}
