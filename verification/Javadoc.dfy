/** Escaping of comment text for Javadoc. '*' and '/' are escaped only where they would open or
    close a comment; five other characters are always escaped. */
module Javadoc {
  // ---- the escape ------------------------------------------------------------------------

  /** What one character becomes, given the raw character before it. */
  function EscapeChar(prev: char, c: char): (e: string)
    ensures |e| > 0
  {
    if c == '*' then (if prev == '/' then "&#42;" else [c])
    else if c == '/' then (if prev == '*' then "&#47;" else [c])
    else if c == '@' then "&#64;"
    else if c == '<' then "&lt;"
    else if c == '>' then "&gt;"
    else if c == '&' then "&amp;"
    else if c == '\\' then "&#92;"
    else [c]
  }

  function Escape(prev: char, input: string): string
    decreases |input|
  {
    if input == "" then "" else EscapeChar(prev, input[0]) + Escape(input[0], input[1..])
  }

  /** The text is taken to follow the asterisk that starts a comment line. */
  method EscapeJavadoc(input: string) returns (result: string)
    ensures result == Escape('*', input)
  {
    result := "";
    var prev := '*';
    for i := 0 to |input|
      invariant prev == if i == 0 then '*' else input[i - 1]
      invariant result + Escape(prev, input[i..]) == Escape('*', input)
    {
      var c := input[i];
      assert input[i..][1..] == input[i + 1..];
      assert (result + EscapeChar(prev, c)) + Escape(c, input[i + 1..])
          == result + (EscapeChar(prev, c) + Escape(c, input[i + 1..]));
      match c {
        case '*' => result := result + if prev == '/' then "&#42;" else [c];
        case '/' => result := result + if prev == '*' then "&#47;" else [c];
        case '@' => result := result + "&#64;";
        case '<' => result := result + "&lt;";
        case '>' => result := result + "&gt;";
        case '&' => result := result + "&amp;";
        case '\\' => result := result + "&#92;";
        case _ => result := result + [c];
      }
      prev := c;
    }
    assert input[|input|..] == "";
  }

  // ---- the inverse -----------------------------------------------------------------------

  datatype Token = Token(c: char, length: nat)

  /** The first character of HTML text: one of the seven entities, or a character as it is. */
  function FirstToken(s: string): (t: Token)
    requires s != ""
    ensures 1 <= t.length <= |s|
  {
    if "&#42;" <= s then Token('*', 5)
    else if "&#47;" <= s then Token('/', 5)
    else if "&#64;" <= s then Token('@', 5)
    else if "&lt;" <= s then Token('<', 4)
    else if "&gt;" <= s then Token('>', 4)
    else if "&amp;" <= s then Token('&', 5)
    else if "&#92;" <= s then Token('\\', 5)
    else Token(s[0], 1)
  }

  function Decode(s: string): string {
    if s == "" then ""
    else
      var t := FirstToken(s);
      [t.c] + Decode(s[t.length..])
  }

  lemma DecodeOne(prev: char, c: char, rest: string)
    ensures FirstToken(EscapeChar(prev, c) + rest) == Token(c, |EscapeChar(prev, c)|)
  {
    var e := EscapeChar(prev, c);
    var s := e + rest;
    assert s[..|e|] == e;
    if |e| == 1 {
      assert s[0] == c != '&';
    } else {
      assert s[1] == e[1] && s[2] == e[2] && s[3] == e[3];
    }
  }

  /** A numeric entity stands for the character with the code it spells. */
  lemma NumericEntity(s: string)
    requires |s| >= 2 && s[..2] == "&#"
    ensures FirstToken(s).length > 1 ==>
              && |s| >= 5 && s[4] == ';' && '0' <= s[2] <= '9' && '0' <= s[3] <= '9'
              && FirstToken(s).c as int == 10 * (s[2] as int - '0' as int) + (s[3] as int - '0' as int)
  {
    assert "&lt;"[1] != '#' && "&gt;"[1] != '#' && "&amp;"[1] != '#';
    assert s[1] == s[..2][1] == '#';
  }

  /** Decoding the entities undoes the escape, for every text and whatever came before it. */
  lemma {:induction false} DecodeEscape(prev: char, input: string)
    ensures Decode(Escape(prev, input)) == input
    decreases |input|
  {
    if input != "" {
      var e, rest := EscapeChar(prev, input[0]), Escape(input[0], input[1..]);
      DecodeOne(prev, input[0], rest);
      assert (e + rest)[|e|..] == rest;
      DecodeEscape(input[0], input[1..]);
      assert [input[0]] + input[1..] == input;
    }
  }

  /** Hence no two texts have the same escape. */
  lemma EscapeInjective(a: string, b: string)
    ensures Escape('*', a) == Escape('*', b) <==> a == b
  {
    DecodeEscape('*', a);
    DecodeEscape('*', b);
  }

  // ---- safety ----------------------------------------------------------------------------

  /** Neither a comment start nor a comment end at position i. */
  predicate NoMarkAt(s: string, i: nat)
    requires i + 1 < |s|
  {
    !(s[i] == '*' && s[i + 1] == '/') && !(s[i] == '/' && s[i + 1] == '*')
  }

  ghost predicate NoMarks(s: string) {
    forall i: nat :: i + 1 < |s| ==> NoMarkAt(s, i)
  }

  /** Putting b after a creates no mark where they meet. */
  predicate Joins(a: string, b: string) {
    a == "" || b == "" || NoMarkAt([a[|a| - 1], b[0]], 0)
  }

  lemma NoMarksConcat(a: string, b: string)
    ensures NoMarks(a + b) <==> NoMarks(a) && NoMarks(b) && Joins(a, b)
  {
    var s := a + b;
    if NoMarks(s) {
      forall i: nat | i + 1 < |a|
        ensures NoMarkAt(a, i)
      {
        assert NoMarkAt(s, i);
      }
      forall i: nat | i + 1 < |b|
        ensures NoMarkAt(b, i)
      {
        assert NoMarkAt(s, |a| + i);
      }
      if a != "" && b != "" {
        assert NoMarkAt(s, |a| - 1);
      }
    }
    if NoMarks(a) && NoMarks(b) && Joins(a, b) {
      forall i: nat | i + 1 < |s|
        ensures NoMarkAt(s, i)
      {
        if i + 1 < |a| {
          assert NoMarkAt(a, i);
        } else if i >= |a| {
          assert NoMarkAt(b, i - |a|);
        }
      }
    }
  }

  lemma EscapeCharIsSafe(prev: char, c: char, rest: string)
    requires Joins([c], rest)
    ensures NoMarks(EscapeChar(prev, c))
    ensures Joins([prev], EscapeChar(prev, c))
    ensures Joins(EscapeChar(prev, c), rest)
  {
  }

  /** Escaped text holds neither mark, nor makes one with the character it was escaped after. */
  lemma {:induction false} EscapeHasNoMarks(prev: char, input: string)
    ensures NoMarks(Escape(prev, input)) && Joins([prev], Escape(prev, input))
    decreases |input|
  {
    if input != "" {
      var e, rest := EscapeChar(prev, input[0]), Escape(input[0], input[1..]);
      EscapeHasNoMarks(input[0], input[1..]);
      EscapeCharIsSafe(prev, input[0], rest);
      NoMarksConcat(e, rest);
    }
  }

  /** Characters that never survive the escape: tag, HTML and Unicode-escape syntax. */
  predicate Forbidden(c: char) {
    c == '@' || c == '<' || c == '>' || c == '\\'
  }

  predicate IsEntity(t: Token, s: string)
    requires t.length <= |s|
  {
    s[..t.length] in {"&#42;", "&#47;", "&#64;", "&lt;", "&gt;", "&amp;", "&#92;"}
  }

  lemma {:induction false} EscapeIsInert(prev: char, input: string)
    ensures forall i: nat :: i < |Escape(prev, input)| ==> !Forbidden(Escape(prev, input)[i])
    ensures forall i: nat :: i < |Escape(prev, input)| && Escape(prev, input)[i] == '&'
              ==> IsEntity(FirstToken(Escape(prev, input)[i..]), Escape(prev, input)[i..])
    decreases |input|
  {
    if input != "" {
      var e, rest := EscapeChar(prev, input[0]), Escape(input[0], input[1..]);
      var s := e + rest;
      EscapeIsInert(input[0], input[1..]);
      forall i: nat | i < |s|
        ensures !Forbidden(s[i])
        ensures s[i] == '&' ==> IsEntity(FirstToken(s[i..]), s[i..])
      {
        if i >= |e| {
          assert s[i..] == rest[i - |e|..];
        } else if i == 0 {
          DecodeOne(prev, input[0], rest);
          assert s[0..] == s && s[..|e|] == e;
        }
      }
    }
  }

  /** No character that is escaped wherever it stands. */
  predicate Plain(s: string) {
    forall c :: c in s ==> !Forbidden(c) && c != '&'
  }

  lemma EscapeNeverShortens(prev: char, input: string)
    ensures |Escape(prev, input)| >= |input|
    decreases |input|
  {
    if input != "" {
      EscapeNeverShortens(input[0], input[1..]);
    }
  }

  /** Text is left alone exactly when nothing in it needs escaping. */
  lemma {:induction false} EscapeUnchangedIff(prev: char, input: string)
    ensures Escape(prev, input) == input <==> NoMarks([prev] + input) && Plain(input)
    decreases |input|
  {
    if input == "" {
      assert NoMarks([prev] + input);
    } else {
      var c, tail := input[0], input[1..];
      var e, rest := EscapeChar(prev, c), Escape(c, tail);
      EscapeUnchangedIff(c, tail);
      EscapeNeverShortens(c, tail);
      assert input == [c] + tail;
      NoMarksConcat([prev], input);
      assert NoMarks([prev]);
      assert Plain(input) <==> !Forbidden(c) && c != '&' && Plain(tail);
      assert |e| == 1 <==> !Forbidden(c) && c != '&' && Joins([prev], input);
      if |e| == 1 {
        assert e + rest == input <==> rest == tail by {
          assert (e + rest)[1..] == rest;
        }
      }
    }
  }
}
