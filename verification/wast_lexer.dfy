/**
 * The stateful text-format lexer: a cursor over the input's scalars that
 * `Next` advances by one token, and the collecting loop that drives it.
 * Every method is proved to end where the grammar functions of
 * wast_grammar.dfy say the construct ends.
 */
module WastLexer {
  import opened Results
  import opened WastGrammar

  class Lexer {
    const input: seq<char>
    var pos: nat

    predicate Valid()
      reads this
    {
      pos <= |input|
    }

    constructor (input: seq<char>)
      ensures Valid() && this.input == input && pos == 0
    {
      this.input := input;
      pos := 0;
    }

    /** Skips whitespace, line comments and block comments. */
    method SkipTrivia()
      requires Valid()
      modifies this
      ensures Valid() && pos == TriviaEnd(input, old(pos))
    {
      while StartsTrivia(input, pos)
        invariant Valid()
        invariant TriviaEnd(input, pos) == TriviaEnd(input, old(pos))
        decreases |input| - pos
      {
        if IsWhitespace(input[pos]) {
          pos := pos + 1;
        } else if StartsLineComment(input, pos) {
          pos := pos + 2;
          ghost var start := pos;
          while pos < |input| && input[pos] != '\n'
            invariant start <= pos <= |input|
            invariant LineEnd(input, pos) == LineEnd(input, start)
          {
            pos := pos + 1;
          }
        } else {
          pos := pos + 2;
          ghost var start := pos;
          while pos + 1 < |input| && !Closes(input, pos)
            invariant start <= pos <= |input|
            invariant CommentEnd(input, pos) == CommentEnd(input, start)
          {
            pos := pos + 1;
          }
          pos := if pos + 1 < |input| then pos + 2 else |input|;
        }
      }
    }

    /** Reads a digit run starting at a digit and returns its value. */
    method ScanDigits(hex: bool) returns (value: nat)
      requires Valid() && pos < |input| && IsDigitOf(input[pos], hex)
      modifies this
      ensures Valid() && pos == DigitRunEnd(input, old(pos) + 1, hex)
      ensures value == Value(input[old(pos)..pos], hex)
    {
      var s, start := input, pos;
      ValueExtends(s, start, start, hex);
      assert s[start..start] == [];
      value := Push(0, s[start], hex);
      var i := start + 1;
      while true
        invariant start < i <= |s|
        invariant DigitRunEnd(s, i, hex) == DigitRunEnd(s, start + 1, hex)
        invariant value == Value(s[start..i], hex)
        decreases |s| - i
      {
        if i < |s| && IsDigitOf(s[i], hex) {
          ValueExtends(s, start, i, hex);
          value := Push(value, s[i], hex);
          i := i + 1;
        } else if i + 1 < |s| && s[i] == '_' && IsDigitOf(s[i + 1], hex) {
          ValueExtends(s, start, i, hex);
          ValueExtends(s, start, i + 1, hex);
          value := Push(value, s[i + 1], hex);
          i := i + 2;
        } else {
          break;
        }
      }
      pos := i;
    }

    /** Reads the maximal run of `idchar` at the cursor. */
    method ScanIdChars()
      requires Valid()
      modifies this
      ensures Valid() && pos == IdEnd(input, old(pos))
    {
      while pos < |input| && IsIdChar(input[pos])
        invariant Valid()
        invariant IdEnd(input, pos) == IdEnd(input, old(pos))
        decreases |input| - pos
      {
        pos := pos + 1;
      }
    }

    /** Produces the next token, or None at the end of input. */
    method Next() returns (tok: Option<Token>)
      requires Valid()
      modifies this
      ensures Valid()
      ensures tok == NextToken(input, old(pos)).token
      ensures pos == NextToken(input, old(pos)).end
    {
      SkipTrivia();
      if pos == |input| {
        return None;
      }
      var t := pos;
      if StartsHex(input, t) {
        pos := pos + 2;
        var value := ScanDigits(true);
        tok := Some(Unsigned(value));
      } else if IsDigit(input[t]) {
        var value := ScanDigits(false);
        tok := Some(Unsigned(value));
      } else if IsIdChar(input[t]) {
        ScanIdChars();
        tok := Some(Keyword(input[t..pos]));
      } else {
        pos := pos + 1;
        tok := Some(Unknown(input[t]));
      }
    }
  }

  /** Collects the tokens of `input` until the end of input or up to and
    * including the first unknown token. */
  method Run(input: seq<char>) returns (tokens: seq<Token>)
    ensures tokens == Tokens(input)
    ensures forall k :: 0 <= k < |tokens| - 1 ==> !tokens[k].Unknown?
  {
    var lexer := new Lexer(input);
    tokens := [];
    while true
      invariant lexer.Valid() && lexer.input == input
      invariant tokens + Tokenize(input, lexer.pos) == Tokens(input)
      invariant forall k :: 0 <= k < |tokens| ==> !tokens[k].Unknown?
      decreases |input| - lexer.pos
    {
      ghost var before := lexer.pos;
      var tok := lexer.Next();
      if tok.None? {
        assert Tokenize(input, before) == [];
        break;
      }
      ghost var rest := tokens;
      tokens := tokens + [tok.value];
      if tok.value.Unknown? {
        assert Tokenize(input, before) == [tok.value];
        break;
      }
      assert Tokenize(input, before) == [tok.value] + Tokenize(input, lexer.pos);
      assert rest + Tokenize(input, before) == tokens + Tokenize(input, lexer.pos);
    }
  }
}
