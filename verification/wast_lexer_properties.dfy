/**
 * What the text-format lexer promises: each grammar function stops at the
 * first place its construct ends, whitespace and comments produce nothing,
 * keywords are maximal `idchar` runs, unsigned literals read back the number
 * they spell (underscores ignored), `0x` without a hex digit splits, and an
 * unknown scalar is the last token.
 */
module WastLexerProperties {
  import opened Results
  import opened WastGrammar

  lemma {:induction false} LineEndIsFirstNewline(s: seq<char>, i: nat)
    requires i <= |s|
    ensures forall k :: i <= k < LineEnd(s, i) ==> s[k] != '\n'
    ensures LineEnd(s, i) == |s| || s[LineEnd(s, i)] == '\n'
    decreases |s| - i
  {
    if i < |s| && s[i] != '\n' {
      LineEndIsFirstNewline(s, i + 1);
    }
  }

  lemma {:induction false} CommentEndIsFirstClose(s: seq<char>, i: nat)
    requires i <= |s|
    ensures var j := CommentEnd(s, i);
         || (i + 2 <= j && Closes(s, j - 2) && forall k :: i <= k < j - 2 ==> !Closes(s, k))
         || (j == |s| && forall k :: i <= k < |s| ==> !Closes(s, k))
    decreases |s| - i
  {
    if i + 1 < |s| && !Closes(s, i) {
      CommentEndIsFirstClose(s, i + 1);
    }
  }

  lemma {:induction false} TriviaEndIsNotTrivia(s: seq<char>, i: nat)
    requires i <= |s|
    ensures !StartsTrivia(s, TriviaEnd(s, i))
    decreases |s| - i
  {
    if i == |s| {
    } else if IsWhitespace(s[i]) {
      TriviaEndIsNotTrivia(s, i + 1);
    } else if StartsLineComment(s, i) {
      TriviaEndIsNotTrivia(s, LineEnd(s, i + 2));
    } else if StartsBlockComment(s, i) {
      TriviaEndIsNotTrivia(s, CommentEnd(s, i + 2));
    }
  }

  lemma {:induction false} IdEndIsMaximal(s: seq<char>, i: nat)
    requires i <= |s|
    ensures forall k :: i <= k < IdEnd(s, i) ==> IsIdChar(s[k])
    ensures IdEnd(s, i) == |s| || !IsIdChar(s[IdEnd(s, i)])
    decreases |s| - i
  {
    if i < |s| && IsIdChar(s[i]) {
      IdEndIsMaximal(s, i + 1);
    }
  }

  /** A digit run holds only digits and `_` between digits. */
  lemma {:induction false} DigitRunHoldsDigits(s: seq<char>, i: nat, hex: bool)
    requires i <= |s|
    ensures forall k {:trigger s[k]} :: i <= k < DigitRunEnd(s, i, hex) ==>
              IsDigitOf(s[k], hex) || (s[k] == '_' && k + 1 < DigitRunEnd(s, i, hex) && IsDigitOf(s[k + 1], hex))
    decreases |s| - i
  {
    var j := DigitRunEnd(s, i, hex);
    if i < |s| && IsDigitOf(s[i], hex) {
      DigitRunHoldsDigits(s, i + 1, hex);
      assert j == DigitRunEnd(s, i + 1, hex);
      forall k | i <= k < j
        ensures IsDigitOf(s[k], hex) || (s[k] == '_' && k + 1 < j && IsDigitOf(s[k + 1], hex))
      {
        if k == i {
          assert IsDigitOf(s[k], hex);
        } else {
          assert i + 1 <= k < DigitRunEnd(s, i + 1, hex);
        }
      }
    } else if i + 1 < |s| && s[i] == '_' && IsDigitOf(s[i + 1], hex) {
      DigitRunHoldsDigits(s, i + 2, hex);
      assert j == DigitRunEnd(s, i + 2, hex);
      forall k | i <= k < j
        ensures IsDigitOf(s[k], hex) || (s[k] == '_' && k + 1 < j && IsDigitOf(s[k + 1], hex))
      {
        if k == i {
          assert s[k] == '_' && k + 1 < j && IsDigitOf(s[k + 1], hex);
        } else if k == i + 1 {
          assert IsDigitOf(s[k], hex);
        } else {
          assert i + 2 <= k < DigitRunEnd(s, i + 2, hex);
        }
      }
    }
  }

  /** A digit run cannot be extended by a digit or by `_` and a digit. */
  lemma {:induction false} DigitRunEndIsMaximal(s: seq<char>, i: nat, hex: bool)
    requires i <= |s|
    ensures var j := DigitRunEnd(s, i, hex);
      j == |s| || !(IsDigitOf(s[j], hex) || (s[j] == '_' && j + 1 < |s| && IsDigitOf(s[j + 1], hex)))
    decreases |s| - i
  {
    if i < |s| && IsDigitOf(s[i], hex) {
      DigitRunEndIsMaximal(s, i + 1, hex);
    } else if i + 1 < |s| && s[i] == '_' && IsDigitOf(s[i + 1], hex) {
      DigitRunEndIsMaximal(s, i + 2, hex);
    }
  }

  /** What one step of the lexer yields after the trivia at `i`. */
  lemma NextTokenShape(s: seq<char>, i: nat)
    requires i <= |s|
    ensures var t, r := TriviaEnd(s, i), NextToken(s, i);
      && (r.token.None? <==> t == |s|)
      && (r.token.Some? ==> t < r.end)
      && (r.token.Some? && r.token.value.Keyword? ==>
            r.token.value.text == s[t..r.end] && !IsDigit(s[t])
            && (forall k :: t <= k < r.end ==> IsIdChar(s[k]))
            && (r.end == |s| || !IsIdChar(s[r.end])))
      && (r.token.Some? && r.token.value.Unsigned? ==>
            && IsDigit(s[t])
            && (StartsHex(s, t) ==>
                  r.end == DigitRunEnd(s, t + 3, true)
                  && r.token.value.value == Positional(Strip(s[t + 2..r.end]), true))
            && (!StartsHex(s, t) ==>
                  r.end == DigitRunEnd(s, t + 1, false)
                  && r.token.value.value == Positional(Strip(s[t..r.end]), false)))
      && (r.token.Some? && r.token.value.Unknown? ==>
            r.token.value.scalar == s[t] && r.end == t + 1
            && !IsIdChar(s[t]) && !IsWhitespace(s[t]))
  {
    var t := TriviaEnd(s, i);
    TriviaEndIsNotTrivia(s, i);
    if t < |s| && !StartsHex(s, t) && !IsDigit(s[t]) && IsIdChar(s[t]) {
      IdEndIsMaximal(s, t);
    }
    if t < |s| && IsDigit(s[t]) {
      NumberToken(s, t);
    }
  }

  /**
   * A number token: after `0x` and a hex digit, the maximal hexadecimal run
   * from that digit; otherwise the maximal decimal run from the digit at `t`.
   * The token's value is the positional value of the run's digits with the
   * separators removed; `DigitRunHoldsDigits` and `DigitRunEndIsMaximal` say
   * what the run holds and that it cannot be extended.
   */
  lemma NumberToken(s: seq<char>, t: nat)
    requires t < |s| && IsDigit(s[t])
    ensures var r, hex := ReadToken(s, t), StartsHex(s, t);
      var start := if hex then t + 2 else t;
      && r.token.value.Unsigned?
      && start < r.end
      && r.end == DigitRunEnd(s, start + 1, hex)
      && r.token.value.value == Positional(Strip(s[start..r.end]), hex)
  {
    var hex := StartsHex(s, t);
    var start := if hex then t + 2 else t;
    var e := DigitRunEnd(s, start + 1, hex);
    assert ReadToken(s, t) == Scan(Some(Unsigned(Value(s[start..e], hex))), e);
    ValueIgnoresSeparators(s[start..e], hex);
  }

  // Whitespace and comments

  lemma {:induction false} WhitespaceOnly(s: seq<char>, i: nat)
    requires i <= |s|
    requires forall k :: i <= k < |s| ==> IsWhitespace(s[k])
    ensures TriviaEnd(s, i) == |s|
    ensures Tokenize(s, i) == []
    decreases |s| - i
  {
    if i < |s| {
      WhitespaceOnly(s, i + 1);
    }
  }

  /** A line comment produces nothing, and lexing resumes at its newline. */
  lemma LineCommentSkipped(s: seq<char>, i: nat)
    requires StartsLineComment(s, i)
    ensures Tokenize(s, i) == Tokenize(s, LineEnd(s, i + 2))
  {
    assert TriviaEnd(s, i) == TriviaEnd(s, LineEnd(s, i + 2));
  }

  /** A block comment produces nothing, and lexing resumes after its `;)`. */
  lemma BlockCommentSkipped(s: seq<char>, i: nat)
    requires StartsBlockComment(s, i)
    ensures Tokenize(s, i) == Tokenize(s, CommentEnd(s, i + 2))
  {
    assert TriviaEnd(s, i) == TriviaEnd(s, CommentEnd(s, i + 2));
  }

  // Keywords

  /** A run of `idchar` that does not start with a digit is one keyword. */
  lemma KeywordOnly(w: seq<char>)
    requires |w| > 0 && !IsDigit(w[0])
    requires forall k :: 0 <= k < |w| ==> IsIdChar(w[k])
    ensures Tokens(w) == [Keyword(w)]
  {
    IdRunToEnd(w, 0);
    assert IsIdChar(w[0]) && !StartsTrivia(w, 0) && !StartsHex(w, 0);
    assert TriviaEnd(w, 0) == 0;
    assert w[0..|w|] == w;
    assert NextToken(w, 0) == Scan(Some(Keyword(w)), |w|);
    assert Tokenize(w, |w|) == [];
  }

  lemma {:induction false} IdRunToEnd(s: seq<char>, i: nat)
    requires i <= |s|
    requires forall k :: i <= k < |s| ==> IsIdChar(s[k])
    ensures IdEnd(s, i) == |s|
    decreases |s| - i
  {
    if i < |s| {
      IdRunToEnd(s, i + 1);
    }
  }

  // Unsigned literals

  /** The digit string with every `_` removed. */
  function Strip(t: seq<char>): (r: seq<char>)
    ensures |r| <= |t|
  {
    if |t| == 0 then [] else (if t[0] == '_' then [] else [t[0]]) + Strip(t[1..])
  }

  /** The positional value of a string of digits. */
  function Positional(d: seq<char>, hex: bool): nat {
    if |d| == 0 then 0
    else Positional(d[..|d| - 1], hex) * Base(hex) + DigitValue(d[|d| - 1])
  }

  lemma {:induction false} StripAppend(t: seq<char>, c: char)
    ensures Strip(t + [c]) == Strip(t) + (if c == '_' then [] else [c])
  {
    if |t| > 0 {
      assert (t + [c])[1..] == t[1..] + [c];
      StripAppend(t[1..], c);
    }
  }

  /** The value of a literal is that of its digits with the separators
    * removed. */
  lemma {:induction false} ValueIgnoresSeparators(t: seq<char>, hex: bool)
    ensures Value(t, hex) == Positional(Strip(t), hex)
    decreases |t|
  {
    if |t| > 0 {
      var u, c := t[..|t| - 1], t[|t| - 1];
      assert t == u + [c];
      ValueIgnoresSeparators(u, hex);
      StripAppend(u, c);
      assert Value(t, hex) == if c == '_' then Value(u, hex) else Value(u, hex) * Base(hex) + DigitValue(c);
      if c == '_' {
        assert Strip(u) + [] == Strip(u);
      } else {
        var d := Strip(u) + [c];
        assert d[..|d| - 1] == Strip(u) && d[|d| - 1] == c;
        assert Positional(d, hex) == Positional(Strip(u), hex) * Base(hex) + DigitValue(c);
      }
    }
  }

  function DigitChar(d: nat): char
    requires d < 16
  {
    "0123456789ABCDEF"[d]
  }

  /** The canonical spelling of `n` in base 10 or 16, without separators. */
  function Digits(n: nat, hex: bool): (r: seq<char>)
    ensures |r| >= 1
    decreases n
  {
    if n < Base(hex) then [DigitChar(n)]
    else Digits(n / Base(hex), hex) + [DigitChar(n % Base(hex))]
  }

  lemma DigitCharValue(d: nat, hex: bool)
    requires d < Base(hex)
    ensures IsDigitOf(DigitChar(d), hex) && DigitValue(DigitChar(d)) == d
    ensures (DigitChar(d) == '0') == (d == 0)
  {
  }

  lemma {:induction false} DigitsSpellValue(n: nat, hex: bool)
    ensures forall k :: 0 <= k < |Digits(n, hex)| ==> IsDigitOf(Digits(n, hex)[k], hex)
    ensures Value(Digits(n, hex), hex) == n
    ensures n > 0 ==> Digits(n, hex)[0] != '0'
    decreases n
  {
    var b := Base(hex);
    if n < b {
      DigitCharValue(n, hex);
      assert Digits(n, hex)[..0] == [];
    } else {
      var u, c := Digits(n / b, hex), DigitChar(n % b);
      DigitsSpellValue(n / b, hex);
      DigitCharValue(n % b, hex);
      assert (u + [c])[..|u|] == u;
      assert Digits(n, hex) == u + [c];
    }
  }

  lemma {:induction false} DigitRunToEnd(s: seq<char>, i: nat, hex: bool)
    requires i <= |s|
    requires forall k :: i <= k < |s| ==> IsDigitOf(s[k], hex)
    ensures DigitRunEnd(s, i, hex) == |s|
    decreases |s| - i
  {
    if i < |s| {
      DigitRunToEnd(s, i + 1, hex);
    }
  }

  /** A string of digits after any prefix runs to the end of input. */
  lemma DigitRunAfterPrefix(pre: seq<char>, d: seq<char>, hex: bool)
    requires |d| >= 1
    requires forall k :: 0 <= k < |d| ==> IsDigitOf(d[k], hex)
    ensures DigitRunEnd(pre + d, |pre| + 1, hex) == |pre + d|
  {
    var s := pre + d;
    forall k | |pre| + 1 <= k < |s|
      ensures IsDigitOf(s[k], hex)
    {
      assert s[k] == d[k - |pre|];
    }
    DigitRunToEnd(s, |pre| + 1, hex);
  }

  /** The decimal spelling of any number lexes back to that number. */
  lemma DecimalRoundTrip(n: nat)
    ensures Tokens(Digits(n, false)) == [Unsigned(n)]
  {
    var s := Digits(n, false);
    DigitsSpellValue(n, false);
    DigitRunToEnd(s, 1, false);
    assert IsDigit(s[0]) && !StartsTrivia(s, 0) && !StartsHex(s, 0);
    assert TriviaEnd(s, 0) == 0;
    assert s[0..|s|] == s;
    assert NextToken(s, 0) == Scan(Some(Unsigned(n)), |s|);
    assert Tokenize(s, |s|) == [];
  }

  /** `0x` and the hexadecimal spelling of any number lexes back to it. */
  lemma HexRoundTrip(n: nat)
    ensures Tokens("0x" + Digits(n, true)) == [Unsigned(n)]
  {
    var d := Digits(n, true);
    var s := "0x" + d;
    DigitsSpellValue(n, true);
    DigitRunAfterPrefix("0x", d, true);
    assert s[0] == '0' && s[1] == 'x' && s[2] == d[0] && s[2..] == d;
    HexLiteralAlone(s, n);
  }

  /** An input that is `0x` and a hex digit run is one unsigned token. */
  lemma HexLiteralAlone(s: seq<char>, n: nat)
    requires |s| >= 3 && s[0] == '0' && s[1] == 'x' && IsHexDigit(s[2])
    requires DigitRunEnd(s, 3, true) == |s| && Value(s[2..], true) == n
    ensures Tokens(s) == [Unsigned(n)]
  {
    assert !StartsTrivia(s, 0) && StartsHex(s, 0);
    assert TriviaEnd(s, 0) == 0;
    assert s[2..|s|] == s[2..];
    assert NextToken(s, 0) == Scan(Some(Unsigned(n)), |s|);
    assert Tokenize(s, |s|) == [];
  }

  /** `0` followed by `x` and no hex digit is the number 0; lexing goes on
    * at the `x`. */
  lemma HexPrefixSplits(s: seq<char>, i: nat)
    requires i + 1 < |s| && s[i] == '0' && s[i + 1] == 'x'
    requires !(i + 2 < |s| && IsHexDigit(s[i + 2]))
    ensures Tokenize(s, i) == [Unsigned(0)] + Tokenize(s, i + 1)
  {
    assert s[i..i + 1] == ['0'];
    assert Value(['0'], false) == Value([], false) * 10 + DigitValue('0');
  }

  // Unknown scalars

  /** A scalar that starts no token ends the collection with itself. */
  lemma UnknownStops(s: seq<char>, i: nat)
    requires i <= |s|
    requires TriviaEnd(s, i) < |s| && !IsIdChar(s[TriviaEnd(s, i)])
    ensures Tokenize(s, i) == [Unknown(s[TriviaEnd(s, i)])]
  {
  }
}
