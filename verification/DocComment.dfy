/** From the comment text of a descriptor to the Javadoc comment in the generated file. */
module DocComment {
  import opened Wrappers
  import opened Javadoc
  import opened Splitter

  datatype SourceLocation = SourceLocation(leadingComments: string, trailingComments: string)

  function CommentsOf(location: Option<SourceLocation>): string {
    match location
    case None => ""
    case Some(l) => if l.leadingComments == "" then l.trailingComments else l.leadingComments
  }

  // ---- lines -----------------------------------------------------------------------------

  function DocLines(comments: string): seq<string> {
    Tokens(Escape('*', comments), "\n")
  }

  function TrimTrailing(lines: seq<string>): seq<string> {
    if lines != [] && lines[|lines| - 1] == "" then TrimTrailing(lines[..|lines| - 1]) else lines
  }

  /** Dropping trailing empty lines drops nothing, because the splitter leaves none. */
  method GetDocLines(comments: string) returns (lines: seq<string>)
    ensures lines == DocLines(comments)
  {
    if comments != "" {
      var escapedComments := EscapeJavadoc(comments);
      lines := Split(escapedComments, "\n");
      TokensAreTheText(escapedComments, "\n");
      assert lines != [] ==> lines[|lines| - 1] in lines;
      assert TrimTrailing(lines) == lines;
      while lines != [] && lines[|lines| - 1] == ""
        invariant TrimTrailing(lines) == DocLines(comments)
      {
        lines := lines[..|lines| - 1];
      }
    } else {
      lines := [];
      NoText("\n");
    }
  }

  // ---- printing --------------------------------------------------------------------------

  /** A line printed at the given indentation. */
  function Line(indent: string, text: string): string {
    indent + text + "\n"
  }

  /** Most lines follow the asterisk directly; one that starts with '/' would close the comment. */
  function LineText(line: string): string {
    if line != "" && line[0] == '/' then " * " + line else " *" + line
  }

  function LineTexts(indent: string, lines: seq<string>): string {
    if lines == [] then "" else LineTexts(indent, lines[..|lines| - 1]) + Line(indent, LineText(lines[|lines| - 1]))
  }

  function Body(indent: string, lines: seq<string>, surroundWithPreTag: bool): string {
    if lines == [] then ""
    else if surroundWithPreTag then Line(indent, " * <pre>") + LineTexts(indent, lines) + Line(indent, " * </pre>")
    else LineTexts(indent, lines)
  }

  function Doc(indent: string, comments: string, surroundWithPreTag: bool): string {
    Line(indent, "/**") + Body(indent, DocLines(comments), surroundWithPreTag) + Line(indent, " */")
  }

  method WriteLines(printed: string, indent: string, lines: seq<string>) returns (out: string)
    ensures out == printed + LineTexts(indent, lines)
  {
    hide Line;
    out := printed;
    for i := 0 to |lines|
      invariant out == printed + LineTexts(indent, lines[..i])
    {
      assert lines[..i + 1][..i] == lines[..i];
      ghost var before := LineTexts(indent, lines[..i]);
      ghost var line := Line(indent, LineText(lines[i]));
      assert (printed + before) + line == printed + (before + line);
      if lines[i] != "" && lines[i][0] == '/' {
        out := out + Line(indent, " * " + lines[i]);
      } else {
        out := out + Line(indent, " *" + lines[i]);
      }
    }
    assert lines[..|lines|] == lines;
  }

  method WriteDocCommentBody(printed: string, indent: string, lines: seq<string>, surroundWithPreTag: bool)
      returns (out: string)
    ensures out == printed + Body(indent, lines, surroundWithPreTag)
  {
    hide Line, LineTexts;
    out := printed;
    if lines != [] {
      if surroundWithPreTag {
        out := out + Line(indent, " * <pre>");
      }
      out := WriteLines(out, indent, lines);
      if surroundWithPreTag {
        out := out + Line(indent, " * </pre>");
      }
    }
  }

  /** A comment on its own, without tags around its lines. */
  method WriteDocComment(indent: string, comments: string) returns (out: string)
    ensures out == Doc(indent, comments, false)
  {
    out := Line(indent, "/**");
    var lines := GetDocLines(comments);
    out := WriteDocCommentBody(out, indent, lines, false);
    out := out + Line(indent, " */");
  }

  /** The comment of a method or service, as it goes to the generated interface: of its leading
      comments, else of its trailing ones; without either it shows no lines. */
  method WriteMethodDocComment(indent: string, location: Option<SourceLocation>) returns (out: string)
    ensures out == Doc(indent, CommentsOf(location), true)
    ensures '\n' !in indent && location.Some? && location.value.leadingComments != "" ==>
              Shows(out, indent, location.value.leadingComments, true)
    ensures '\n' !in indent && location.Some? && location.value.leadingComments == "" ==>
              Shows(out, indent, location.value.trailingComments, true)
    ensures '\n' !in indent && location.None? ==> Shows(out, indent, "", true)
  {
    out := Line(indent, "/**");
    var lines := GetDocLines(CommentsOf(location));
    out := WriteDocCommentBody(out, indent, lines, true);
    out := out + Line(indent, " */");
    if '\n' !in indent {
      CommentIsShown(indent, CommentsOf(location), true);
    }
  }

  // ---- safety ----------------------------------------------------------------------------

  predicate Blank(indent: string) {
    forall c :: c in indent ==> c == ' '
  }

  lemma BlankHasNoMarks(indent: string)
    requires Blank(indent)
    ensures NoMarks(indent)
    ensures forall s :: Joins(indent, s)
  {
    if indent != "" {
      assert indent[|indent| - 1] in indent;
    }
    forall i: nat | i + 1 < |indent|
      ensures NoMarkAt(indent, i)
    {
      assert indent[i] in indent;
    }
  }

  /** Printed lines can be put after one another without making a mark. */
  predicate EndsLine(s: string) {
    s == "" || s[|s| - 1] == '\n'
  }

  lemma LineHasNoMarks(indent: string, text: string)
    requires Blank(indent) && NoMarks(text)
    ensures NoMarks(Line(indent, text)) && EndsLine(Line(indent, text))
  {
    BlankHasNoMarks(indent);
    NoMarksConcat(indent, text);
    NoMarksConcat(indent + text, "\n");
  }

  lemma LineTextHasNoMarks(line: string)
    requires NoMarks(line)
    ensures NoMarks(LineText(line))
  {
    NoMarksConcat(" * ", line);
    NoMarksConcat(" *", line);
  }

  lemma {:induction false} LineTextsHaveNoMarks(indent: string, lines: seq<string>)
    requires Blank(indent) && forall l :: l in lines ==> NoMarks(l)
    ensures NoMarks(LineTexts(indent, lines)) && EndsLine(LineTexts(indent, lines))
  {
    if lines != [] {
      var n := |lines| - 1;
      LineTextsHaveNoMarks(indent, lines[..n]);
      LineTextHasNoMarks(lines[n]);
      LineHasNoMarks(indent, LineText(lines[n]));
      NoMarksConcat(LineTexts(indent, lines[..n]), Line(indent, LineText(lines[n])));
    }
  }

  lemma {:induction false} PiecesHaveNoMarks(s: string, delim: string)
    requires NoMarks(s)
    ensures Pieces(s, delim)[0] <= s
    ensures forall p :: p in Pieces(s, delim) ==> NoMarks(p)
  {
    if s != "" {
      assert s == [s[0]] + s[1..];
      NoMarksConcat([s[0]], s[1..]);
      PiecesHaveNoMarks(s[1..], delim);
      var first := Pieces(s, delim)[0];
      assert first <= s;
      NoMarksConcat(first, s[|first|..]);
      assert first + s[|first|..] == s;
    }
  }

  lemma DocLinesHaveNoMarks(comments: string)
    ensures forall l :: l in DocLines(comments) ==> NoMarks(l)
  {
    var escaped := Escape('*', comments);
    EscapeHasNoMarks('*', comments);
    PiecesHaveNoMarks(escaped, "\n");
    NonEmptyOf(Pieces(escaped, "\n"));
  }

  lemma BodyHasNoMarks(indent: string, comments: string, surroundWithPreTag: bool)
    requires Blank(indent)
    ensures NoMarks(Body(indent, DocLines(comments), surroundWithPreTag))
    ensures EndsLine(Body(indent, DocLines(comments), surroundWithPreTag))
  {
    var lines := DocLines(comments);
    DocLinesHaveNoMarks(comments);
    LineTextsHaveNoMarks(indent, lines);
    var pre, texts, post := Line(indent, " * <pre>"), LineTexts(indent, lines), Line(indent, " * </pre>");
    LineHasNoMarks(indent, " * <pre>");
    LineHasNoMarks(indent, " * </pre>");
    NoMarksConcat(pre, texts);
    NoMarksConcat(pre + texts, post);
  }

  predicate OpensAt(s: string, i: nat) {
    i + 1 < |s| && s[i] == '/' && s[i + 1] == '*'
  }

  predicate ClosesAt(s: string, i: nat) {
    i + 1 < |s| && s[i] == '*' && s[i + 1] == '/'
  }

  lemma FrameIsSafe(indent: string, body: string)
    requires Blank(indent) && NoMarks(body) && EndsLine(body)
    ensures var doc := Line(indent, "/**") + body + Line(indent, " */");
            && (forall i: nat :: OpensAt(doc, i) <==> i == |indent|)
            && (forall i: nat :: ClosesAt(doc, i) <==> i == |doc| - 3)
  {
    var before, inside, after := indent + "/", "**\n" + body + indent + " *", "/\n";
    var doc := before + inside + after;
    assert Line(indent, "/**") + body + Line(indent, " */") == doc;
    FrameParts(indent, body);
    assert doc[|indent|] == '/' && doc[|indent| + 1] == '*';
    assert doc[|doc| - 3] == '*' && doc[|doc| - 2] == '/' && doc[|doc| - 1] == '\n';
    forall i: nat
      ensures OpensAt(doc, i) <==> i == |indent|
      ensures ClosesAt(doc, i) <==> i == |doc| - 3
    {
      if i < |indent| {
        assert NoMarkAt(before, i);
      } else if |indent| < i < |doc| - 3 {
        assert NoMarkAt(inside, i - |before|);
      }
    }
  }

  lemma FrameParts(indent: string, body: string)
    requires Blank(indent) && NoMarks(body) && EndsLine(body)
    ensures NoMarks(indent + "/")
    ensures NoMarks("**\n" + body + indent + " *")
  {
    BlankHasNoMarks(indent);
    NoMarksConcat("**\n", body);
    NoMarksConcat("**\n" + body, indent);
    NoMarksConcat("**\n" + body + indent, " *");
    NoMarksConcat(indent, "/");
  }

  /** For any comment text, the comment opens once, at its start, and closes once, at its end. */
  lemma CommentSafety(indent: string, comments: string, surroundWithPreTag: bool)
    requires Blank(indent)
    ensures var doc := Doc(indent, comments, surroundWithPreTag);
            && (forall i: nat :: OpensAt(doc, i) <==> i == |indent|)
            && (forall i: nat :: ClosesAt(doc, i) <==> i == |doc| - 3)
  {
    hide Line, Body, DocLines, OpensAt, ClosesAt;
    BodyHasNoMarks(indent, comments, surroundWithPreTag);
    FrameIsSafe(indent, Body(indent, DocLines(comments), surroundWithPreTag));
  }

  // ---- what the reader sees --------------------------------------------------------------

  lemma {:induction false} WithoutConcat(a: string, b: string, delim: string)
    ensures Without(a + b, delim) == Without(a, delim) + Without(b, delim)
  {
    if a == "" {
      assert a + b == b;
    } else {
      assert (a + b)[1..] == a[1..] + b;
      WithoutConcat(a[1..], b, delim);
    }
  }

  lemma {:induction false} WithoutAbsent(s: string, delim: string)
    requires forall c :: c in s ==> c !in delim
    ensures Without(s, delim) == s
  {
    if s != "" {
      WithoutAbsent(s[1..], delim);
      assert s == [s[0]] + s[1..];
    }
  }

  lemma EscapeCharNewline(prev: char, c: char)
    ensures Without(EscapeChar(prev, c), "\n") == if c == '\n' then "" else EscapeChar(prev, c)
  {
    if c != '\n' {
      WithoutAbsent(EscapeChar(prev, c), "\n");
    }
  }

  lemma {:induction false} DecodeWithoutNewlines(prev: char, input: string)
    ensures Decode(Without(Escape(prev, input), "\n")) == Without(input, "\n")
    decreases |input|
  {
    if input != "" {
      var c := input[0];
      var e, rest := EscapeChar(prev, c), Escape(c, input[1..]);
      DecodeWithoutNewlines(c, input[1..]);
      WithoutConcat(e, rest, "\n");
      EscapeCharNewline(prev, c);
      hide EscapeChar, FirstToken;
      var tail := Without(rest, "\n");
      if c == '\n' {
        assert "" + tail == tail;
      } else {
        DecodeOne(prev, c, tail);
        assert (e + tail)[|e|..] == tail;
      }
    }
  }

  function DecodeAll(ps: seq<string>): (ds: seq<string>)
    ensures |ds| == |ps|
  {
    if ps == [] then [] else [Decode(ps[0])] + DecodeAll(ps[1..])
  }

  lemma {:induction false} PiecesAfterRun(t: string, rest: string, delim: string)
    requires forall c :: c in t ==> c !in delim
    ensures Pieces(t + rest, delim) == [t + Pieces(rest, delim)[0]] + Pieces(rest, delim)[1..]
  {
    if t == "" {
      assert t + rest == rest && t + Pieces(rest, delim)[0] == Pieces(rest, delim)[0];
    } else {
      assert (t + rest)[1..] == t[1..] + rest;
      PiecesAfterRun(t[1..], rest, delim);
      assert [t[0]] + (t[1..] + Pieces(rest, delim)[0]) == t + Pieces(rest, delim)[0];
    }
  }

  /** Each text escaped as it stands after a line break. */
  function EscapeAll(ps: seq<string>): (es: seq<string>)
    ensures |es| == |ps|
  {
    if ps == [] then [] else [Escape('\n', ps[0])] + EscapeAll(ps[1..])
  }

  /** Escaping and splitting commute: the lines of the escape are the escapes of the lines. */
  lemma {:induction false} EscapePieces(prev: char, input: string)
    ensures var ps := Pieces(input, "\n");
            Pieces(Escape(prev, input), "\n") == [Escape(prev, ps[0])] + EscapeAll(ps[1..])
    decreases |input|
  {
    if input != "" {
      var c := input[0];
      var e, rest := EscapeChar(prev, c), Escape(c, input[1..]);
      var ps := Pieces(input[1..], "\n");
      EscapePieces(c, input[1..]);
      EscapeCharNewline(prev, c);
      if c == '\n' {
        assert e == "\n" && (e + rest)[1..] == rest;
        assert ([""] + ps)[1..] == ps && ps == [ps[0]] + ps[1..];
      } else {
        NoNewlineIn(e);
        PiecesAfterRun(e, rest, "\n");
        assert ([c] + ps[0])[1..] == ps[0] && ([[c] + ps[0]] + ps[1..])[1..] == ps[1..];
        assert ([Escape(c, ps[0])] + EscapeAll(ps[1..]))[1..] == EscapeAll(ps[1..]);
      }
    }
  }

  lemma {:induction false} DecodeEscapeAll(ps: seq<string>)
    ensures DecodeAll(EscapeAll(ps)) == ps
  {
    if ps != [] {
      DecodeEscape('\n', ps[0]);
      DecodeEscapeAll(ps[1..]);
      assert EscapeAll(ps)[1..] == EscapeAll(ps[1..]);
    }
  }

  /** Each line of the escape decodes to that line of the text. */
  lemma DecodePieces(prev: char, input: string)
    ensures DecodeAll(Pieces(Escape(prev, input), "\n")) == Pieces(input, "\n")
  {
    var ps := Pieces(input, "\n");
    EscapePieces(prev, input);
    DecodeEscape(prev, ps[0]);
    DecodeEscapeAll(ps[1..]);
    assert ([Escape(prev, ps[0])] + EscapeAll(ps[1..]))[1..] == EscapeAll(ps[1..]);
  }

  lemma NoNewlineIn(s: string)
    requires Without(s, "\n") == s
    ensures '\n' !in s
  {
    WithoutIsShorter(s);
  }

  lemma {:induction false} WithoutIsShorter(s: string)
    ensures |Without(s, "\n")| <= |s|
    ensures '\n' in s ==> |Without(s, "\n")| < |s|
  {
    if s != "" {
      WithoutIsShorter(s[1..]);
      assert s == [s[0]] + s[1..];
    }
  }

  lemma {:induction false} DecodeNonEmpty(ps: seq<string>)
    ensures DecodeAll(NonEmpty(ps)) == NonEmpty(DecodeAll(ps))
  {
    if ps != [] {
      DecodeNonEmpty(ps[1..]);
      assert DecodeAll(ps)[1..] == DecodeAll(ps[1..]);
      if ps[0] == "" {
        assert NonEmpty(ps) == NonEmpty(ps[1..]);
        assert NonEmpty(DecodeAll(ps)) == NonEmpty(DecodeAll(ps[1..]));
      } else {
        assert Decode(ps[0]) != "";
        assert ([ps[0]] + NonEmpty(ps[1..]))[1..] == NonEmpty(ps[1..]);
      }
    }
  }

  /** Rendered back to text line by line, the doc comment shows the comment's own non-empty lines,
      in order; put together they are the comment without line breaks. */
  lemma DocLinesKeepTheText(comments: string)
    ensures DecodeAll(DocLines(comments)) == Tokens(comments, "\n")
    ensures Decode(Flatten(DocLines(comments))) == Without(comments, "\n")
    ensures forall l :: l in DocLines(comments) ==> l != "" && '\n' !in l
  {
    var escaped := Escape('*', comments);
    TokensAreTheText(escaped, "\n");
    DecodeWithoutNewlines('*', comments);
    DecodePieces('*', comments);
    DecodeNonEmpty(Pieces(escaped, "\n"));
  }

  // ---- what is printed -------------------------------------------------------------------

  predicate StartsWithSlash(s: string) {
    s != "" && s[0] == '/'
  }

  /** A line that would close the comment after the asterisk is put a space further right. */
  function Spaced(line: string): string {
    if StartsWithSlash(line) then " " + line else line
  }

  function SpacedAll(lines: seq<string>): (spaced: seq<string>)
    ensures |spaced| == |lines|
    ensures forall i :: 0 <= i < |lines| ==> spaced[i] == Spaced(lines[i])
  {
    seq(|lines|, i requires 0 <= i < |lines| => Spaced(lines[i]))
  }

  /** The text a comment shows: its non-empty lines, those with a leading slash moved right. The
      very first character of the comment is escaped if it is a slash, so it stays in place. */
  function Shown(comments: string): (lines: seq<string>)
    ensures |lines| == |Tokens(comments, "\n")|
  {
    var lines := Tokens(comments, "\n");
    if lines != [] && StartsWithSlash(comments) then [lines[0]] + SpacedAll(lines[1..]) else SpacedAll(lines)
  }

  lemma {:induction false} NonEmptyEscapeAll(ps: seq<string>)
    ensures NonEmpty(EscapeAll(ps)) == EscapeAll(NonEmpty(ps))
  {
    if ps != [] {
      NonEmptyEscapeAll(ps[1..]);
      EscapeNeverShortens('\n', ps[0]);
      assert EscapeAll(ps)[1..] == EscapeAll(ps[1..]);
      if ps[0] == "" {
        assert NonEmpty(ps) == NonEmpty(ps[1..]) && NonEmpty(EscapeAll(ps)) == NonEmpty(EscapeAll(ps[1..]));
      } else {
        assert ([ps[0]] + NonEmpty(ps[1..]))[1..] == NonEmpty(ps[1..]);
      }
    }
  }

  lemma {:induction false} EscapeAllAt(ps: seq<string>, i: nat)
    requires i < |ps|
    ensures EscapeAll(ps)[i] == Escape('\n', ps[i])
  {
    if i > 0 {
      EscapeAllAt(ps[1..], i - 1);
    }
  }

  /** The doc lines are the escapes of the comment's lines, of which the first one counts as
      standing after the asterisk if the comment starts with it. */
  lemma DocLinesAreEscapes(comments: string)
    ensures var lines, first := Tokens(comments, "\n"), Pieces(comments, "\n")[0];
            DocLines(comments) == if first == "" then EscapeAll(lines)
                                  else [Escape('*', lines[0])] + EscapeAll(lines[1..])
    ensures Pieces(comments, "\n")[0] != "" ==> Tokens(comments, "\n") != []
  {
    var ps := Pieces(comments, "\n");
    var es := [Escape('*', ps[0])] + EscapeAll(ps[1..]);
    EscapePieces('*', comments);
    NonEmptyEscapeAll(ps[1..]);
    EscapeNeverShortens('*', ps[0]);
    assert es[1..] == EscapeAll(ps[1..]);
    if ps[0] == "" {
      assert NonEmpty(ps) == NonEmpty(ps[1..]) && NonEmpty(es) == NonEmpty(es[1..]);
    } else {
      assert NonEmpty(ps)[1..] == NonEmpty(ps[1..]);
    }
  }

  lemma FirstPiece(s: string)
    ensures Pieces(s, "\n")[0] == "" <==> s == "" || s[0] == '\n'
    ensures s != "" && s[0] != '\n' ==> Pieces(s, "\n")[0][0] == s[0]
  {
  }

  lemma SpacedEscape(line: string)
    ensures LineText(Escape('\n', line)) == " *" + Escape('*', Spaced(line))
    ensures line != "" ==> LineText(Escape('*', line)) == " *" + Escape('*', line)
  {
    if line != "" {
      var rest := Escape(line[0], line[1..]);
      if line[0] == '/' {
        assert (" " + line)[1..] == line;
        assert Escape(' ', line) == "/" + rest;
        assert Escape('*', " " + line) == " " + ("/" + rest);
        assert Escape('*', line) == "&#47;" + rest;
      } else {
        assert EscapeChar('\n', line[0]) == EscapeChar('*', line[0]);
        assert EscapeChar('*', line[0])[0] != '/';
      }
    }
  }

  /** Every line is printed as an asterisk and the escape of what the comment shows. */
  lemma LinesShown(comments: string)
    ensures |DocLines(comments)| == |Shown(comments)|
    ensures forall i :: 0 <= i < |DocLines(comments)| ==>
              LineText(DocLines(comments)[i]) == " *" + Escape('*', Shown(comments)[i])
  {
    var lines := Tokens(comments, "\n");
    DocLinesAreEscapes(comments);
    FirstPiece(comments);
    if comments != "" && comments[0] != '\n' {
      StartOfText(comments);
    }
    forall i | 0 <= i < |DocLines(comments)|
      ensures LineText(DocLines(comments)[i]) == " *" + Escape('*', Shown(comments)[i])
    {
      SpacedEscape(lines[i]);
      if Pieces(comments, "\n")[0] == "" {
        EscapeAllAt(lines, i);
      } else if i > 0 {
        EscapeAllAt(lines[1..], i - 1);
      }
    }
  }

  lemma StartOfText(comments: string)
    requires comments != "" && comments[0] != '\n'
    ensures Tokens(comments, "\n") != [] && Tokens(comments, "\n")[0] == Pieces(comments, "\n")[0]
  {
    FirstPiece(comments);
  }

  lemma TokensOfLine(indent: string, text: string, rest: string)
    requires '\n' !in indent && '\n' !in text && text != ""
    ensures Tokens(Line(indent, text) + rest, "\n") == [indent + text] + Tokens(rest, "\n")
  {
    var line := indent + text;
    assert Line(indent, text) + rest == line + ("\n" + rest);
    TakeToken(Line(indent, text) + rest, line, "\n" + rest, "\n");
    SkipDelimiter("\n" + rest, "\n");
    assert ("\n" + rest)[1..] == rest;
  }

  function Printed(indent: string, lines: seq<string>): (texts: seq<string>)
    ensures |texts| == |lines|
  {
    seq(|lines|, i requires 0 <= i < |lines| => indent + LineText(lines[i]))
  }

  lemma {:induction false} TokensOfLineTexts(indent: string, lines: seq<string>, rest: string)
    requires '\n' !in indent && forall l :: l in lines ==> '\n' !in l
    ensures Tokens(LineTexts(indent, lines) + rest, "\n") == Printed(indent, lines) + Tokens(rest, "\n")
  {
    hide Line, Tokens;
    if lines == [] {
      assert LineTexts(indent, lines) + rest == rest;
    } else {
      var n := |lines| - 1;
      var before, line := LineTexts(indent, lines[..n]), Line(indent, LineText(lines[n]));
      assert LineTexts(indent, lines) + rest == before + (line + rest);
      TokensOfLineTexts(indent, lines[..n], line + rest);
      assert lines[n] in lines;
      TokensOfLine(indent, LineText(lines[n]), rest);
      assert Printed(indent, lines) == Printed(indent, lines[..n]) + [indent + LineText(lines[n])];
    }
  }

  /** The lines above and below the text. */
  function Above(indent: string, surroundWithPreTag: bool): seq<string> {
    [indent + "/**"] + if surroundWithPreTag then [indent + " * <pre>"] else []
  }

  function Below(indent: string, surroundWithPreTag: bool): seq<string> {
    (if surroundWithPreTag then [indent + " * </pre>"] else []) + [indent + " */"]
  }

  lemma TokensOfPlain(indent: string, lines: seq<string>, rest: string)
    requires '\n' !in indent && forall l :: l in lines ==> '\n' !in l
    ensures Tokens(Line(indent, "/**") + (LineTexts(indent, lines) + (Line(indent, " */") + rest)), "\n")
         == [indent + "/**"] + (Printed(indent, lines) + ([indent + " */"] + Tokens(rest, "\n")))
  {
    hide Tokens, Line, LineTexts, Printed;
    TokensOfLine(indent, "/**", LineTexts(indent, lines) + (Line(indent, " */") + rest));
    TokensOfLineTexts(indent, lines, Line(indent, " */") + rest);
    TokensOfLine(indent, " */", rest);
  }

  lemma TokensOfTagged(indent: string, lines: seq<string>, rest: string)
    requires '\n' !in indent && forall l :: l in lines ==> '\n' !in l
    ensures Tokens(Line(indent, "/**") + (Line(indent, " * <pre>") + (LineTexts(indent, lines)
                   + (Line(indent, " * </pre>") + (Line(indent, " */") + rest)))), "\n")
         == [indent + "/**"] + ([indent + " * <pre>"] + (Printed(indent, lines)
            + ([indent + " * </pre>"] + ([indent + " */"] + Tokens(rest, "\n")))))
  {
    hide Tokens, Line, LineTexts, Printed;
    var end := Line(indent, " */") + rest;
    var after := LineTexts(indent, lines) + (Line(indent, " * </pre>") + end);
    TokensOfLine(indent, "/**", Line(indent, " * <pre>") + after);
    TokensOfLine(indent, " * <pre>", after);
    TokensOfLineTexts(indent, lines, Line(indent, " * </pre>") + end);
    TokensOfLine(indent, " * </pre>", end);
    TokensOfLine(indent, " */", rest);
  }

  /** The lines of a printed comment, read off its text. */
  lemma TokensOfDoc(indent: string, comments: string, surroundWithPreTag: bool)
    requires '\n' !in indent
    ensures var texts, tag := Printed(indent, DocLines(comments)), surroundWithPreTag && DocLines(comments) != [];
            Tokens(Doc(indent, comments, surroundWithPreTag), "\n") == Above(indent, tag) + texts + Below(indent, tag)
  {
    var lines := DocLines(comments);
    DocLinesKeepTheText(comments);
    hide Tokens, DocLines, Line, LineTexts;
    NoText("\n");
    if lines != [] && surroundWithPreTag {
      TokensOfTagged(indent, lines, "");
      Reassociate(Line(indent, "/**"), Line(indent, " * <pre>"), LineTexts(indent, lines),
                  Line(indent, " * </pre>"), Line(indent, " */"));
    } else {
      TokensOfPlain(indent, lines, "");
      Reassociate(Line(indent, "/**"), "", LineTexts(indent, lines), "", Line(indent, " */"));
      assert lines == [] ==> LineTexts(indent, lines) == "" by {
        NoLineTexts(indent);
      }
    }
  }

  lemma NoLineTexts(indent: string)
    ensures LineTexts(indent, []) == ""
  {
  }

  lemma Reassociate(a: string, b: string, c: string, d: string, e: string)
    ensures a + (b + c + d) + e == a + (b + (c + (d + (e + ""))))
    ensures "" + c + "" == c && a + (c + (e + "")) == a + c + e
  {
  }

  predicate IsShownBy(text: string, indent: string, line: string) {
    indent + " *" <= line && Decode(line[|indent| + 2..]) == text
  }

  /** A printed comment shows a text: between its frame, of which the tags are part if there is
      any text, each line is the indentation, an asterisk, and HTML that decodes to a line of it. */
  ghost predicate Shows(printed: string, indent: string, comments: string, surroundWithPreTag: bool) {
    var lines, shown := Tokens(printed, "\n"), Shown(comments);
    var tag := surroundWithPreTag && shown != [];
    var above, below := Above(indent, tag), Below(indent, tag);
    && |lines| == |above| + |shown| + |below|
    && above <= lines && lines[|above| + |shown|..] == below
    && (forall i :: 0 <= i < |shown| ==> IsShownBy(shown[i], indent, lines[|above| + i]))
  }

  lemma PrintedDecodes(indent: string, comments: string)
    ensures var texts, shown := Printed(indent, DocLines(comments)), Shown(comments);
            && |texts| == |DocLines(comments)| == |shown|
            && forall i :: 0 <= i < |shown| ==> IsShownBy(shown[i], indent, texts[i])
  {
    LinesShown(comments);
    var texts, shown := Printed(indent, DocLines(comments)), Shown(comments);
    hide DocLines, LineText, Shown, Decode;
    forall i | 0 <= i < |shown|
      ensures IsShownBy(shown[i], indent, texts[i])
    {
      var e := Escape('*', shown[i]);
      assert texts[i] == indent + (" *" + e) == (indent + " *") + e;
      assert texts[i][|indent| + 2..] == e;
      DecodeEscape('*', shown[i]);
    }
  }

  /** For any comment text, the printed comment shows its lines, in order, and nothing else. */
  lemma CommentIsShown(indent: string, comments: string, surroundWithPreTag: bool)
    requires '\n' !in indent
    ensures Shows(Doc(indent, comments, surroundWithPreTag), indent, comments, surroundWithPreTag)
  {
    hide Tokens, DocLines, Doc, Shown, Printed, IsShownBy, Above, Below;
    PrintedDecodes(indent, comments);
    TokensOfDoc(indent, comments, surroundWithPreTag);
    var tag := surroundWithPreTag && Shown(comments) != [];
    var above, texts, below := Above(indent, tag), Printed(indent, DocLines(comments)), Below(indent, tag);
    assert (above + texts + below)[|above| + |texts|..] == below;
  }

  lemma {:induction false} SameLineTexts(indent: string, ls: seq<string>, ls': seq<string>)
    requires |ls| == |ls'| && forall i :: 0 <= i < |ls| ==> LineText(ls[i]) == LineText(ls'[i])
    ensures LineTexts(indent, ls) == LineTexts(indent, ls')
  {
    if ls != [] {
      SameLineTexts(indent, ls[..|ls| - 1], ls'[..|ls| - 1]);
    }
  }

  lemma FrameLength(indent: string)
    ensures |Above(indent, true)| == |Below(indent, true)| == 2 && |Above(indent, false)| == |Below(indent, false)| == 1
  {
  }

  /** Two comments are printed alike exactly when they show the same lines ... */
  lemma PrintedAlikeIff(indent: string, a: string, b: string, surroundWithPreTag: bool)
    requires '\n' !in indent
    ensures Doc(indent, a, surroundWithPreTag) == Doc(indent, b, surroundWithPreTag) <==> Shown(a) == Shown(b)
  {
    hide Tokens, DocLines, Doc, Shown, Above, Below, LineText;
    if Shown(a) == Shown(b) {
      LinesShown(a);
      LinesShown(b);
      SameLineTexts(indent, DocLines(a), DocLines(b));
      SameDoc(indent, a, b, surroundWithPreTag);
    }
    if Doc(indent, a, surroundWithPreTag) == Doc(indent, b, surroundWithPreTag) {
      CommentIsShown(indent, a, surroundWithPreTag);
      CommentIsShown(indent, b, surroundWithPreTag);
      FrameLength(indent);
      assert forall i :: 0 <= i < |Shown(a)| ==> Shown(a)[i] == Shown(b)[i];
    }
  }

  lemma SameDoc(indent: string, a: string, b: string, surroundWithPreTag: bool)
    requires |DocLines(a)| == |DocLines(b)| && LineTexts(indent, DocLines(a)) == LineTexts(indent, DocLines(b))
    ensures Doc(indent, a, surroundWithPreTag) == Doc(indent, b, surroundWithPreTag)
  {
    hide DocLines, Line, LineTexts;
  }

  /** ... which are the comment's own lines exactly when none but the first character of the
      comment is a slash at the start of a line ... */
  lemma ShownAsWrittenIff(comments: string)
    ensures var lines := Tokens(comments, "\n");
            (Shown(comments) == lines <==>
               forall i :: 0 <= i < |lines| && StartsWithSlash(lines[i]) ==> i == 0 && StartsWithSlash(comments))
  {
    var lines := Tokens(comments, "\n");
    hide Tokens;
    forall i | 0 <= i < |lines|
      ensures Shown(comments)[i] == lines[i]
         <==> !StartsWithSlash(lines[i]) || (i == 0 && StartsWithSlash(comments))
    {
      assert |" " + lines[i]| > |lines[i]|;
    }
  }

  lemma OneLine(line: string)
    requires line != "" && '\n' !in line
    ensures Tokens("\n" + line, "\n") == [line]
  {
    SkipDelimiter("\n" + line, "\n");
    assert ("\n" + line)[1..] == line == line + "";
    TakeToken(line, line, "", "\n");
    NoText("\n");
  }

  /** ... for these two comments, which differ by a space before a slash, are printed alike. */
  lemma SpaceBeforeSlashIsLost(indent: string, surroundWithPreTag: bool)
    requires '\n' !in indent
    ensures Doc(indent, "\n/x", surroundWithPreTag) == Doc(indent, "\n /x", surroundWithPreTag)
  {
    OneLine("/x");
    OneLine(" /x");
    assert "\n/x" == "\n" + "/x" && "\n /x" == "\n" + " /x";
    hide Tokens;
    assert Shown("\n/x") == [" /x"] == Shown("\n /x");
    PrintedAlikeIff(indent, "\n/x", "\n /x", surroundWithPreTag);
  }

  lemma {:induction false} PiecesOnlyFrom(s: string, delim: string)
    ensures forall p, c :: p in Pieces(s, delim) && c in p ==> c in s
  {
    if s != "" {
      PiecesOnlyFrom(s[1..], delim);
      assert s == [s[0]] + s[1..];
      var rest := Pieces(s[1..], delim);
      assert rest == [rest[0]] + rest[1..];
    }
  }

  lemma LineLacks(indent: string, text: string, c: char)
    requires Blank(indent) && c != ' ' && c != '\n' && c !in text
    ensures c !in Line(indent, text)
  {
  }

  lemma {:induction false} LineTextsLack(indent: string, lines: seq<string>, c: char)
    requires Blank(indent) && c != ' ' && c != '\n' && c != '*'
    requires forall l :: l in lines ==> c !in l
    ensures c !in LineTexts(indent, lines)
  {
    if lines != [] {
      var n := |lines| - 1;
      LineTextsLack(indent, lines[..n], c);
      assert lines[n] in lines;
      LineLacks(indent, LineText(lines[n]), c);
    }
  }

  lemma DocLacks(indent: string, comments: string, surroundWithPreTag: bool, c: char)
    requires Blank(indent) && c !in " */<pre>\n"
    requires forall l :: l in DocLines(comments) ==> c !in l
    ensures c !in Doc(indent, comments, surroundWithPreTag)
  {
    LineTextsLack(indent, DocLines(comments), c);
    LineLacks(indent, "/**", c);
    LineLacks(indent, " * <pre>", c);
    LineLacks(indent, " * </pre>", c);
    LineLacks(indent, " */", c);
    hide Line, LineTexts, DocLines;
  }

  /** No Javadoc tag and no Unicode escape can be written into the comment. */
  lemma NoTagsOrEscapes(indent: string, comments: string, surroundWithPreTag: bool)
    requires Blank(indent)
    ensures '@' !in Doc(indent, comments, surroundWithPreTag)
    ensures '\\' !in Doc(indent, comments, surroundWithPreTag)
  {
    var escaped := Escape('*', comments);
    EscapeIsInert('*', comments);
    PiecesOnlyFrom(escaped, "\n");
    NonEmptyOf(Pieces(escaped, "\n"));
    assert forall c :: c in escaped ==> !Forbidden(c);
    DocLacks(indent, comments, surroundWithPreTag, '@');
    DocLacks(indent, comments, surroundWithPreTag, '\\');
  }
}
