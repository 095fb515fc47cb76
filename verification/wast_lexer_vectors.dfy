/**
 * The lexer's fixed examples: the token list collected from each input.
 */
module WastLexerVectors {
  import opened Results
  import opened WastGrammar
  import opened WastLexerProperties

  lemma WhitespaceExample()
    ensures Tokens(" \t\n\r") == []
  {
    WhitespaceOnly(" \t\n\r", 0);
  }

  lemma LineCommentExamples()
    ensures Tokens(";; a") == []
    ensures Tokens(";; a \n b") == [Keyword("b")]
  {
    LineCommentToEnd(";; a");
    LineCommentThenKeyword(";; a \n b");
  }

  lemma LineCommentToEnd(s: seq<char>)
    requires |s| == 4 && s[0] == ';' && s[1] == ';' && s[2] == ' ' && s[3] == 'a'
    ensures Tokens(s) == []
  {
    assert LineEnd(s, 2) == 4;
    LineCommentSkipped(s, 0);
    assert Tokenize(s, 4) == [];
  }

  lemma LineCommentThenKeyword(s: seq<char>)
    requires |s| == 8 && s[0] == ';' && s[1] == ';' && s[2] == ' ' && s[3] == 'a' && s[4] == ' '
    requires s[5] == '\n' && s[6] == ' ' && s[7] == 'b'
    ensures Tokens(s) == [Keyword("b")]
  {
    assert LineEnd(s, 5) == 5 && LineEnd(s, 4) == 5 && LineEnd(s, 3) == 5 && LineEnd(s, 2) == 5;
    LineCommentSkipped(s, 0);
    assert TriviaEnd(s, 7) == 7 && TriviaEnd(s, 5) == 7;
    assert IdEnd(s, 8) == 8 && IdEnd(s, 7) == 8 && s[7..8] == "b";
    assert NextToken(s, 5) == Scan(Some(Keyword("b")), 8);
    assert Tokenize(s, 8) == [];
  }

  lemma BlockCommentExamples()
    ensures Tokens("(; a ;)") == []
    ensures Tokens("(; \n a \n ;) b") == [Keyword("b")]
  {
    BlockCommentOnly("(; a ;)");
    BlockCommentThenKeyword("(; \n a \n ;) b");
  }

  lemma BlockCommentOnly(s: seq<char>)
    requires |s| == 7 && s[0] == '(' && s[1] == ';' && s[2] == ' ' && s[3] == 'a' && s[4] == ' '
    requires s[5] == ';' && s[6] == ')'
    ensures Tokens(s) == []
  {
    assert CommentEnd(s, 5) == 7 && CommentEnd(s, 4) == 7 && CommentEnd(s, 3) == 7 && CommentEnd(s, 2) == 7;
    BlockCommentSkipped(s, 0);
    assert Tokenize(s, 7) == [];
  }

  lemma BlockCommentThenKeyword(s: seq<char>)
    requires |s| == 13 && s[0] == '(' && s[1] == ';' && s[2] == ' ' && s[3] == '\n'
    requires s[4] == ' ' && s[5] == 'a' && s[6] == ' ' && s[7] == '\n' && s[8] == ' '
    requires s[9] == ';' && s[10] == ')' && s[11] == ' ' && s[12] == 'b'
    ensures Tokens(s) == [Keyword("b")]
  {
    assert CommentEnd(s, 9) == 11 && CommentEnd(s, 8) == 11 && CommentEnd(s, 7) == 11;
    assert CommentEnd(s, 6) == 11 && CommentEnd(s, 5) == 11 && CommentEnd(s, 4) == 11;
    assert CommentEnd(s, 3) == 11 && CommentEnd(s, 2) == 11;
    BlockCommentSkipped(s, 0);
    assert TriviaEnd(s, 12) == 12 && TriviaEnd(s, 11) == 12;
    assert IdEnd(s, 13) == 13 && IdEnd(s, 12) == 13 && s[12..13] == "b";
    assert NextToken(s, 11) == Scan(Some(Keyword("b")), 13);
    assert Tokenize(s, 13) == [];
  }

  lemma KeywordExample()
    ensures Tokens("a!b#c$d") == [Keyword("a!b#c$d")]
  {
    KeywordOnly("a!b#c$d");
  }

  /** An input that is exactly one unsigned literal lexes to that literal. */
  lemma SingleLiteral(s: seq<char>, v: nat)
    requires |s| > 0 && IsDigit(s[0])
    requires StartsHex(s, 0) ==> DigitRunEnd(s, 3, true) == |s| && Value(s[2..|s|], true) == v
    requires !StartsHex(s, 0) ==> DigitRunEnd(s, 1, false) == |s| && Value(s[0..|s|], false) == v
    ensures Tokens(s) == [Unsigned(v)]
  {
    assert TriviaEnd(s, 0) == 0;
    assert NextToken(s, 0) == Scan(Some(Unsigned(v)), |s|);
    assert Tokenize(s, |s|) == [];
  }

  /** One more character of a digit string: a `_` keeps the value, a digit
    * shifts it by one place. */
  lemma ValuePrefix(t: seq<char>, k: nat, hex: bool)
    requires k < |t|
    ensures Value(t[..k + 1], hex)
         == if t[k] == '_' then Value(t[..k], hex) else Value(t[..k], hex) * Base(hex) + DigitValue(t[k])
  {
    assert t[..k + 1][..k] == t[..k];
  }

  /** A single digit. */
  lemma ZeroExample()
    ensures Tokens("0") == [Unsigned(0)]
  {
    var s := "0";
    DigitRunToEnd(s, 1, false);
    ZeroValue(s);
    SingleLiteral(s, 0);
  }

  lemma ZeroValue(s: seq<char>)
    requires |s| == 1 && s[0] == '0'

    ensures Value(s[0..|s|], false) == 0
  {
    var t := s[0..];
    assert t[..0] == [];
    ValuePrefix(t, 0, false);
    assert t[..1] == t && s[0..|s|] == t;
  }

  /** Leading zeros are part of the digits. */
  lemma LeadingZeroExample()
    ensures Tokens("0123456789") == [Unsigned(123456789)]
  {
    var s := "0123456789";
    DigitRunToEnd(s, 1, false);
    LeadingZeroValue(s);
    SingleLiteral(s, 123456789);
  }

  lemma LeadingZeroValue(s: seq<char>)
    requires |s| == 10 && s[0] == '0' && s[1] == '1' && s[2] == '2' && s[3] == '3'
    requires s[4] == '4' && s[5] == '5' && s[6] == '6' && s[7] == '7' && s[8] == '8'
    requires s[9] == '9'

    ensures Value(s[0..|s|], false) == 123456789
  {
    var t := s[0..];
    assert t[..0] == [];
    ValuePrefix(t, 0, false);
    assert Value(t[..1], false) == 0;
    ValuePrefix(t, 1, false);
    assert Value(t[..2], false) == 1;
    ValuePrefix(t, 2, false);
    assert Value(t[..3], false) == 12;
    ValuePrefix(t, 3, false);
    assert Value(t[..4], false) == 123;
    ValuePrefix(t, 4, false);
    assert Value(t[..5], false) == 1234;
    ValuePrefix(t, 5, false);
    assert Value(t[..6], false) == 12345;
    ValuePrefix(t, 6, false);
    assert Value(t[..7], false) == 123456;
    ValuePrefix(t, 7, false);
    assert Value(t[..8], false) == 1234567;
    ValuePrefix(t, 8, false);
    assert Value(t[..9], false) == 12345678;
    ValuePrefix(t, 9, false);
    assert t[..10] == t && s[0..|s|] == t;
  }

  /** All ten digits. */
  lemma DecimalExample()
    ensures Tokens("1234567890") == [Unsigned(1234567890)]
  {
    var s := "1234567890";
    DigitRunToEnd(s, 1, false);
    DecimalValue(s);
    SingleLiteral(s, 1234567890);
  }

  lemma DecimalValue(s: seq<char>)
    requires |s| == 10 && s[0] == '1' && s[1] == '2' && s[2] == '3' && s[3] == '4'
    requires s[4] == '5' && s[5] == '6' && s[6] == '7' && s[7] == '8' && s[8] == '9'
    requires s[9] == '0'

    ensures Value(s[0..|s|], false) == 1234567890
  {
    var t := s[0..];
    assert t[..0] == [];
    ValuePrefix(t, 0, false);
    assert Value(t[..1], false) == 1;
    ValuePrefix(t, 1, false);
    assert Value(t[..2], false) == 12;
    ValuePrefix(t, 2, false);
    assert Value(t[..3], false) == 123;
    ValuePrefix(t, 3, false);
    assert Value(t[..4], false) == 1234;
    ValuePrefix(t, 4, false);
    assert Value(t[..5], false) == 12345;
    ValuePrefix(t, 5, false);
    assert Value(t[..6], false) == 123456;
    ValuePrefix(t, 6, false);
    assert Value(t[..7], false) == 1234567;
    ValuePrefix(t, 7, false);
    assert Value(t[..8], false) == 12345678;
    ValuePrefix(t, 8, false);
    assert Value(t[..9], false) == 123456789;
    ValuePrefix(t, 9, false);
    assert t[..10] == t && s[0..|s|] == t;
  }

  /** Underscores between digits are skipped. */
  lemma SeparatedDecimalExample()
    ensures Tokens("1_234_567_890") == [Unsigned(1234567890)]
  {
    var s := "1_234_567_890";
    SeparatedDecimalRun(s);
    SeparatedDecimalValue(s);
    SingleLiteral(s, 1234567890);
  }

  lemma SeparatedDecimalRun(s: seq<char>)
    requires |s| == 13 && s[0] == '1' && s[1] == '_' && s[2] == '2' && s[3] == '3'
    requires s[4] == '4' && s[5] == '_' && s[6] == '5' && s[7] == '6' && s[8] == '7'
    requires s[9] == '_' && s[10] == '8' && s[11] == '9' && s[12] == '0'

    ensures DigitRunEnd(s, 1, false) == 13
  {
    assert DigitRunEnd(s, 13, false) == 13;
    assert DigitRunEnd(s, 12, false) == 13;
    assert DigitRunEnd(s, 11, false) == 13;
    assert DigitRunEnd(s, 9, false) == 13;
    assert DigitRunEnd(s, 8, false) == 13;
    assert DigitRunEnd(s, 7, false) == 13;
    assert DigitRunEnd(s, 5, false) == 13;
    assert DigitRunEnd(s, 4, false) == 13;
    assert DigitRunEnd(s, 3, false) == 13;
  }

  lemma SeparatedDecimalValue(s: seq<char>)
    requires |s| == 13 && s[0] == '1' && s[1] == '_' && s[2] == '2' && s[3] == '3'
    requires s[4] == '4' && s[5] == '_' && s[6] == '5' && s[7] == '6' && s[8] == '7'
    requires s[9] == '_' && s[10] == '8' && s[11] == '9' && s[12] == '0'

    ensures Value(s[0..|s|], false) == 1234567890
  {
    var t := s[0..];
    assert t[..0] == [];
    ValuePrefix(t, 0, false);
    assert Value(t[..1], false) == 1;
    ValuePrefix(t, 1, false);
    assert Value(t[..2], false) == 1;
    ValuePrefix(t, 2, false);
    assert Value(t[..3], false) == 12;
    ValuePrefix(t, 3, false);
    assert Value(t[..4], false) == 123;
    ValuePrefix(t, 4, false);
    assert Value(t[..5], false) == 1234;
    ValuePrefix(t, 5, false);
    assert Value(t[..6], false) == 1234;
    ValuePrefix(t, 6, false);
    assert Value(t[..7], false) == 12345;
    ValuePrefix(t, 7, false);
    assert Value(t[..8], false) == 123456;
    ValuePrefix(t, 8, false);
    assert Value(t[..9], false) == 1234567;
    ValuePrefix(t, 9, false);
    assert Value(t[..10], false) == 1234567;
    ValuePrefix(t, 10, false);
    assert Value(t[..11], false) == 12345678;
    ValuePrefix(t, 11, false);
    assert Value(t[..12], false) == 123456789;
    ValuePrefix(t, 12, false);
    assert t[..13] == t && s[0..|s|] == t;
  }

  /** `0x` with no hex digit after it is the number 0 and then a keyword. */
  lemma HexSplitExamples()
    ensures Tokens("0x") == [Unsigned(0), Keyword("x")]
    ensures Tokens("0xg") == [Unsigned(0), Keyword("xg")]
  {
    HexPrefixAlone("0x");
    HexPrefixThenLetter("0xg");
  }

  lemma HexPrefixAlone(s: seq<char>)
    requires |s| == 2 && s[0] == '0' && s[1] == 'x'
    ensures Tokens(s) == [Unsigned(0), Keyword("x")]
  {
    HexPrefixSplits(s, 0);
    assert IdEnd(s, 2) == 2 && IdEnd(s, 1) == 2 && s[1..2] == "x";
    assert NextToken(s, 1) == Scan(Some(Keyword("x")), 2);
    assert Tokenize(s, 2) == [];
  }

  lemma HexPrefixThenLetter(s: seq<char>)
    requires |s| == 3 && s[0] == '0' && s[1] == 'x' && s[2] == 'g'
    ensures Tokens(s) == [Unsigned(0), Keyword("xg")]
  {
    HexPrefixSplits(s, 0);
    assert IdEnd(s, 3) == 3 && IdEnd(s, 2) == 3 && IdEnd(s, 1) == 3 && s[1..3] == "xg";
    assert NextToken(s, 1) == Scan(Some(Keyword("xg")), 3);
    assert Tokenize(s, 3) == [];
  }

  lemma HexZeroExample()
    ensures Tokens("0x0") == [Unsigned(0x0)]
  {
    var s := "0x0";
    DigitRunToEnd(s, 3, true);
    HexZeroValue(s);
    SingleLiteral(s, 0x0);
  }

  lemma HexZeroValue(s: seq<char>)
    requires |s| == 3 && s[0] == '0' && s[1] == 'x' && s[2] == '0'

    ensures Value(s[2..|s|], true) == 0x0
  {
    var t := s[2..];
    assert t[..0] == [];
    ValuePrefix(t, 0, true);
    assert t[..1] == t && s[2..|s|] == t;
  }

  /** Leading zeros in a hex literal. */
  lemma HexLeadingZeroExample()
    ensures Tokens("0x0123456789") == [Unsigned(0x123456789)]
  {
    var s := "0x0123456789";
    DigitRunToEnd(s, 3, true);
    HexLeadingZeroValue(s);
    SingleLiteral(s, 0x123456789);
  }

  lemma HexLeadingZeroValue(s: seq<char>)
    requires |s| == 12 && s[0] == '0' && s[1] == 'x' && s[2] == '0' && s[3] == '1'
    requires s[4] == '2' && s[5] == '3' && s[6] == '4' && s[7] == '5' && s[8] == '6'
    requires s[9] == '7' && s[10] == '8' && s[11] == '9'

    ensures Value(s[2..|s|], true) == 0x123456789
  {
    var t := s[2..];
    assert t[..0] == [];
    ValuePrefix(t, 0, true);
    assert Value(t[..1], true) == 0x0;
    ValuePrefix(t, 1, true);
    assert Value(t[..2], true) == 0x1;
    ValuePrefix(t, 2, true);
    assert Value(t[..3], true) == 0x12;
    ValuePrefix(t, 3, true);
    assert Value(t[..4], true) == 0x123;
    ValuePrefix(t, 4, true);
    assert Value(t[..5], true) == 0x1234;
    ValuePrefix(t, 5, true);
    assert Value(t[..6], true) == 0x12345;
    ValuePrefix(t, 6, true);
    assert Value(t[..7], true) == 0x123456;
    ValuePrefix(t, 7, true);
    assert Value(t[..8], true) == 0x1234567;
    ValuePrefix(t, 8, true);
    assert Value(t[..9], true) == 0x12345678;
    ValuePrefix(t, 9, true);
    assert t[..10] == t && s[2..|s|] == t;
  }

  /** Ten hex digits. */
  lemma HexExample()
    ensures Tokens("0x1234567890") == [Unsigned(0x1234567890)]
  {
    var s := "0x1234567890";
    DigitRunToEnd(s, 3, true);
    HexValue(s);
    SingleLiteral(s, 0x1234567890);
  }

  lemma HexValue(s: seq<char>)
    requires |s| == 12 && s[0] == '0' && s[1] == 'x' && s[2] == '1' && s[3] == '2'
    requires s[4] == '3' && s[5] == '4' && s[6] == '5' && s[7] == '6' && s[8] == '7'
    requires s[9] == '8' && s[10] == '9' && s[11] == '0'

    ensures Value(s[2..|s|], true) == 0x1234567890
  {
    var t := s[2..];
    assert t[..0] == [];
    ValuePrefix(t, 0, true);
    assert Value(t[..1], true) == 0x1;
    ValuePrefix(t, 1, true);
    assert Value(t[..2], true) == 0x12;
    ValuePrefix(t, 2, true);
    assert Value(t[..3], true) == 0x123;
    ValuePrefix(t, 3, true);
    assert Value(t[..4], true) == 0x1234;
    ValuePrefix(t, 4, true);
    assert Value(t[..5], true) == 0x12345;
    ValuePrefix(t, 5, true);
    assert Value(t[..6], true) == 0x123456;
    ValuePrefix(t, 6, true);
    assert Value(t[..7], true) == 0x1234567;
    ValuePrefix(t, 7, true);
    assert Value(t[..8], true) == 0x12345678;
    ValuePrefix(t, 8, true);
    assert Value(t[..9], true) == 0x123456789;
    ValuePrefix(t, 9, true);
    assert t[..10] == t && s[2..|s|] == t;
  }

  /** Underscores between hex digits are skipped. */
  lemma SeparatedHexExample()
    ensures Tokens("0x1_234_567_890") == [Unsigned(0x1234567890)]
  {
    var s := "0x1_234_567_890";
    SeparatedHexRun(s);
    SeparatedHexValue(s);
    SingleLiteral(s, 0x1234567890);
  }

  lemma SeparatedHexRun(s: seq<char>)
    requires |s| == 15 && s[0] == '0' && s[1] == 'x' && s[2] == '1' && s[3] == '_'
    requires s[4] == '2' && s[5] == '3' && s[6] == '4' && s[7] == '_' && s[8] == '5'
    requires s[9] == '6' && s[10] == '7' && s[11] == '_' && s[12] == '8' && s[13] == '9'
    requires s[14] == '0'

    ensures DigitRunEnd(s, 3, true) == 15
  {
    assert DigitRunEnd(s, 15, true) == 15;
    assert DigitRunEnd(s, 14, true) == 15;
    assert DigitRunEnd(s, 13, true) == 15;
    assert DigitRunEnd(s, 11, true) == 15;
    assert DigitRunEnd(s, 10, true) == 15;
    assert DigitRunEnd(s, 9, true) == 15;
    assert DigitRunEnd(s, 7, true) == 15;
    assert DigitRunEnd(s, 6, true) == 15;
    assert DigitRunEnd(s, 5, true) == 15;
  }

  lemma SeparatedHexValue(s: seq<char>)
    requires |s| == 15 && s[0] == '0' && s[1] == 'x' && s[2] == '1' && s[3] == '_'
    requires s[4] == '2' && s[5] == '3' && s[6] == '4' && s[7] == '_' && s[8] == '5'
    requires s[9] == '6' && s[10] == '7' && s[11] == '_' && s[12] == '8' && s[13] == '9'
    requires s[14] == '0'

    ensures Value(s[2..|s|], true) == 0x1234567890
  {
    var t := s[2..];
    assert t[..0] == [];
    ValuePrefix(t, 0, true);
    assert Value(t[..1], true) == 0x1;
    ValuePrefix(t, 1, true);
    assert Value(t[..2], true) == 0x1;
    ValuePrefix(t, 2, true);
    assert Value(t[..3], true) == 0x12;
    ValuePrefix(t, 3, true);
    assert Value(t[..4], true) == 0x123;
    ValuePrefix(t, 4, true);
    assert Value(t[..5], true) == 0x1234;
    ValuePrefix(t, 5, true);
    assert Value(t[..6], true) == 0x1234;
    ValuePrefix(t, 6, true);
    assert Value(t[..7], true) == 0x12345;
    ValuePrefix(t, 7, true);
    assert Value(t[..8], true) == 0x123456;
    ValuePrefix(t, 8, true);
    assert Value(t[..9], true) == 0x1234567;
    ValuePrefix(t, 9, true);
    assert Value(t[..10], true) == 0x1234567;
    ValuePrefix(t, 10, true);
    assert Value(t[..11], true) == 0x12345678;
    ValuePrefix(t, 11, true);
    assert Value(t[..12], true) == 0x123456789;
    ValuePrefix(t, 12, true);
    assert t[..13] == t && s[2..|s|] == t;
  }

  /** Upper-case hex digits. */
  lemma UpperHexExample()
    ensures Tokens("0xABCDEF") == [Unsigned(0xABCDEF)]
  {
    var s := "0xABCDEF";
    DigitRunToEnd(s, 3, true);
    UpperHexValue(s);
    SingleLiteral(s, 0xABCDEF);
  }

  lemma UpperHexValue(s: seq<char>)
    requires |s| == 8 && s[0] == '0' && s[1] == 'x' && s[2] == 'A' && s[3] == 'B' && s[4] == 'C'
    requires s[5] == 'D' && s[6] == 'E' && s[7] == 'F'

    ensures Value(s[2..|s|], true) == 0xABCDEF
  {
    var t := s[2..];
    assert t[..0] == [];
    ValuePrefix(t, 0, true);
    assert Value(t[..1], true) == 0xA;
    ValuePrefix(t, 1, true);
    assert Value(t[..2], true) == 0xAB;
    ValuePrefix(t, 2, true);
    assert Value(t[..3], true) == 0xABC;
    ValuePrefix(t, 3, true);
    assert Value(t[..4], true) == 0xABCD;
    ValuePrefix(t, 4, true);
    assert Value(t[..5], true) == 0xABCDE;
    ValuePrefix(t, 5, true);
    assert t[..6] == t && s[2..|s|] == t;
  }

  /** Upper-case hex digits with a separator. */
  lemma SeparatedUpperHexExample()
    ensures Tokens("0xABC_DEF") == [Unsigned(0xABCDEF)]
  {
    var s := "0xABC_DEF";
    SeparatedUpperHexRun(s);
    SeparatedUpperHexValue(s);
    SingleLiteral(s, 0xABCDEF);
  }

  lemma SeparatedUpperHexRun(s: seq<char>)
    requires |s| == 9 && s[0] == '0' && s[1] == 'x' && s[2] == 'A' && s[3] == 'B' && s[4] == 'C'
    requires s[5] == '_' && s[6] == 'D' && s[7] == 'E' && s[8] == 'F'

    ensures DigitRunEnd(s, 3, true) == 9
  {
    assert DigitRunEnd(s, 9, true) == 9;
    assert DigitRunEnd(s, 8, true) == 9;
    assert DigitRunEnd(s, 7, true) == 9;
    assert DigitRunEnd(s, 5, true) == 9;
    assert DigitRunEnd(s, 4, true) == 9;
  }

  lemma SeparatedUpperHexValue(s: seq<char>)
    requires |s| == 9 && s[0] == '0' && s[1] == 'x' && s[2] == 'A' && s[3] == 'B' && s[4] == 'C'
    requires s[5] == '_' && s[6] == 'D' && s[7] == 'E' && s[8] == 'F'

    ensures Value(s[2..|s|], true) == 0xABCDEF
  {
    var t := s[2..];
    assert t[..0] == [];
    ValuePrefix(t, 0, true);
    assert Value(t[..1], true) == 0xA;
    ValuePrefix(t, 1, true);
    assert Value(t[..2], true) == 0xAB;
    ValuePrefix(t, 2, true);
    assert Value(t[..3], true) == 0xABC;
    ValuePrefix(t, 3, true);
    assert Value(t[..4], true) == 0xABC;
    ValuePrefix(t, 4, true);
    assert Value(t[..5], true) == 0xABCD;
    ValuePrefix(t, 5, true);
    assert Value(t[..6], true) == 0xABCDE;
    ValuePrefix(t, 6, true);
    assert t[..7] == t && s[2..|s|] == t;
  }

  /** U+3042 (HIRAGANA LETTER A), and the four scalars of the emoji
    * "man gesturing OK" (U+1F646, ZERO WIDTH JOINER, MALE SIGN,
    * VARIATION SELECTOR-16), of which only the first is collected. */
  lemma UnknownExamples()
    ensures Tokens("\U{3042}") == [Unknown('\U{3042}')]
    ensures Tokens("\U{1F646}\U{200D}\U{2642}\U{FE0F}") == [Unknown('\U{1F646}')]
  {
    var s := "\U{3042}";
    assert TriviaEnd(s, 0) == 0;
    UnknownStops(s, 0);
    var t := "\U{1F646}\U{200D}\U{2642}\U{FE0F}";
    assert TriviaEnd(t, 0) == 0;
    UnknownStops(t, 0);
  }
}
