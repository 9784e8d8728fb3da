/** Splitting text at delimiter characters, with empty tokens dropped. */
module Splitter {
  // ---- what splitting means --------------------------------------------------------------

  /** The text cut at every delimiter, empty pieces included. */
  function Pieces(s: string, delim: string): (ps: seq<string>)
    ensures ps != []
  {
    if s == "" then [""]
    else if s[0] in delim then [""] + Pieces(s[1..], delim)
    else
      var rest := Pieces(s[1..], delim);
      [[s[0]] + rest[0]] + rest[1..]
  }

  function NonEmpty(ps: seq<string>): seq<string> {
    if ps == [] then []
    else (if ps[0] == "" then [] else [ps[0]]) + NonEmpty(ps[1..])
  }

  function Tokens(s: string, delim: string): seq<string> {
    NonEmpty(Pieces(s, delim))
  }

  lemma NoText(delim: string)
    ensures Tokens("", delim) == []
  {
    assert NonEmpty([""][1..]) == [];
  }

  // ---- the two code paths ----------------------------------------------------------------

  lemma SkipDelimiter(s: string, delim: string)
    requires s != "" && s[0] in delim
    ensures Tokens(s, delim) == Tokens(s[1..], delim)
  {
    assert Pieces(s, delim)[1..] == Pieces(s[1..], delim);
  }

  lemma {:induction false} PiecesOfTokenThen(t: string, rest: string, delim: string)
    requires forall c :: c in t ==> c !in delim
    requires rest == "" || rest[0] in delim
    ensures Pieces(t + rest, delim)
         == [t] + (if rest == "" then [] else Pieces(rest[1..], delim))
  {
    if t == "" {
      assert t + rest == rest;
    } else {
      assert (t + rest)[1..] == t[1..] + rest;
      PiecesOfTokenThen(t[1..], rest, delim);
      assert [t[0]] + t[1..] == t;
    }
  }

  lemma TakeToken(s: string, t: string, rest: string, delim: string)
    requires s == t + rest && t != ""
    requires forall c :: c in t ==> c !in delim
    requires rest == "" || rest[0] in delim
    ensures Tokens(s, delim) == [t] + Tokens(rest, delim)
  {
    PiecesOfTokenThen(t, rest, delim);
    var tail := if rest == "" then [] else Pieces(rest[1..], delim);
    assert Pieces(s, delim)[1..] == tail;
    assert Tokens(s, delim) == [t] + NonEmpty(tail);
    if rest == "" {
      NoText(delim);
      assert NonEmpty(tail) == [];
    } else {
      SkipDelimiter(rest, delim);
    }
  }

  /** One step of either path: the token found between two positions. */
  lemma TokenAt(full: string, delim: string, start: nat, end: nat)
    requires start < end <= |full|
    requires forall i :: start <= i < end ==> full[i] !in delim
    requires end == |full| || full[end] in delim
    ensures Tokens(full[start..], delim) == [full[start..end]] + Tokens(full[end..], delim)
  {
    assert full[start..] == full[start..end] + full[end..];
    TakeToken(full[start..], full[start..end], full[end..], delim);
  }

  lemma {:induction false} SkipDelimiters(full: string, delim: string, start: nat, end: nat)
    requires start <= end <= |full|
    requires forall i :: start <= i < end ==> full[i] in delim
    ensures Tokens(full[start..], delim) == Tokens(full[end..], delim)
    decreases end - start
  {
    if start < end {
      SkipDelimiter(full[start..], delim);
      assert full[start..][1..] == full[start + 1..];
      SkipDelimiters(full, delim, start + 1, end);
    }
  }

  /** The fast path, for a single delimiter: one pointer walks over the text. */
  method SplitAtChar(full: string, c: char) returns (result: seq<string>)
    ensures result == Tokens(full, [c])
  {
    result := [];
    var p := 0;
    while p != |full|
      invariant 0 <= p <= |full|
      invariant result + Tokens(full[p..], [c]) == Tokens(full, [c])
      decreases |full| - p
    {
      if full[p] == c {
        SkipDelimiters(full, [c], p, p + 1);
        p := p + 1;
      } else {
        var start := p;
        p := p + 1;
        while p != |full| && full[p] != c
          invariant start < p <= |full|
          invariant forall i :: start <= i < p ==> full[i] != c
          decreases |full| - p
        {
          p := p + 1;
        }
        TokenAt(full, [c], start, p);
        result := result + [full[start..p]];
      }
    }
    NoText([c]);
  }

  /** `find_first_not_of`, with the length of the text for `npos`. */
  method FindFirstNotOf(full: string, delim: string, from: nat) returns (i: nat)
    requires from <= |full|
    ensures from <= i <= |full|
    ensures forall j :: from <= j < i ==> full[j] in delim
    ensures i < |full| ==> full[i] !in delim
  {
    i := from;
    while i < |full| && full[i] in delim
      invariant from <= i <= |full|
      invariant forall j :: from <= j < i ==> full[j] in delim
    {
      i := i + 1;
    }
  }

  /** `find_first_of`, with the length of the text for `npos`. */
  method FindFirstOf(full: string, delim: string, from: nat) returns (i: nat)
    requires from <= |full|
    ensures from <= i <= |full|
    ensures forall j :: from <= j < i ==> full[j] !in delim
    ensures i < |full| ==> full[i] in delim
  {
    i := from;
    while i < |full| && full[i] !in delim
      invariant from <= i <= |full|
      invariant forall j :: from <= j < i ==> full[j] !in delim
    {
      i := i + 1;
    }
  }

  /** The general path, for any set of delimiters. */
  method SplitAtAny(full: string, delim: string) returns (result: seq<string>)
    ensures result == Tokens(full, delim)
  {
    result := [];
    var beginIndex: nat := FindFirstNotOf(full, delim, 0);
    SkipDelimiters(full, delim, 0, beginIndex);
    assert full[0..] == full;
    while beginIndex != |full|
      invariant beginIndex <= |full|
      invariant beginIndex < |full| ==> full[beginIndex] !in delim
      invariant result + Tokens(full[beginIndex..], delim) == Tokens(full, delim)
      decreases |full| - beginIndex
    {
      var endIndex: nat := FindFirstOf(full, delim, beginIndex);
      TokenAt(full, delim, beginIndex, endIndex);
      if endIndex == |full| {
        NoText(delim);
        assert full[beginIndex..] == full[beginIndex..endIndex] && full[endIndex..] == "";
        result := result + [full[beginIndex..]];
        return;
      }
      result := result + [full[beginIndex..endIndex]];
      beginIndex := FindFirstNotOf(full, delim, endIndex);
      SkipDelimiters(full, delim, endIndex, beginIndex);
    }
    NoText(delim);
  }

  /** Both paths give the same tokens, so taking the fast one is only an optimisation. */
  method Split(full: string, delim: string) returns (result: seq<string>)
    ensures result == Tokens(full, delim)
  {
    if |delim| == 1 {
      result := SplitAtChar(full, delim[0]);
      assert [delim[0]] == delim;
    } else {
      result := SplitAtAny(full, delim);
    }
  }

  // ---- properties of the tokens ----------------------------------------------------------

  function Flatten(ps: seq<string>): string {
    if ps == [] then "" else ps[0] + Flatten(ps[1..])
  }

  function Without(s: string, delim: string): string {
    if s == "" then "" else (if s[0] in delim then "" else [s[0]]) + Without(s[1..], delim)
  }

  /** Pieces with the characters at which the text was cut put back between them. */
  function Interleave(ps: seq<string>, cuts: string): string
    requires |ps| == |cuts| + 1
  {
    if cuts == "" then ps[0] else ps[0] + [cuts[0]] + Interleave(ps[1..], cuts[1..])
  }

  /** Cutting loses nothing, whatever the delimiters: every cut is at a delimiter, and no piece
      holds one, so the text is cut at its delimiters and nowhere else. */
  lemma {:induction false} PiecesAndCuts(s: string, delim: string) returns (cuts: string)
    ensures |Pieces(s, delim)| == |cuts| + 1
    ensures Interleave(Pieces(s, delim), cuts) == s
    ensures forall c :: c in cuts ==> c in delim
    ensures forall p, c :: p in Pieces(s, delim) && c in p ==> c !in delim
  {
    PiecesAreClean(s, delim);
    var ps := Pieces(s, delim);
    if s == "" {
      cuts := "";
    } else {
      var rest := Pieces(s[1..], delim);
      var later := PiecesAndCuts(s[1..], delim);
      assert [s[0]] + s[1..] == s;
      if s[0] in delim {
        cuts := [s[0]] + later;
        assert ps[1..] == rest && cuts[1..] == later;
      } else {
        cuts := later;
        assert ps[0] == [s[0]] + rest[0] && ps[1..] == rest[1..];
        if cuts != "" {
          assert ps[0] + [cuts[0]] + Interleave(ps[1..], cuts[1..])
              == [s[0]] + (rest[0] + [cuts[0]] + Interleave(rest[1..], cuts[1..]));
        }
      }
    }
  }

  /** Pieces put back together with one delimiter between them. */
  function Join(ps: seq<string>, c: char): string
    requires ps != []
  {
    if |ps| == 1 then ps[0] else ps[0] + [c] + Join(ps[1..], c)
  }

  lemma {:induction false} JoinIsInterleave(ps: seq<string>, cuts: string, c: char)
    requires |ps| == |cuts| + 1 && forall i :: 0 <= i < |cuts| ==> cuts[i] == c
    ensures Join(ps, c) == Interleave(ps, cuts)
    decreases |cuts|
  {
    if cuts != "" {
      JoinIsInterleave(ps[1..], cuts[1..], c);
    }
  }

  /** With a single delimiter, the cuts need not be remembered. */
  lemma JoinPieces(s: string, c: char)
    ensures Join(Pieces(s, [c]), c) == s
    ensures forall p :: p in Pieces(s, [c]) ==> c !in p
  {
    var cuts := PiecesAndCuts(s, [c]);
    assert forall i :: 0 <= i < |cuts| ==> cuts[i] in cuts;
    JoinIsInterleave(Pieces(s, [c]), cuts, c);
  }

  lemma {:induction false} NonEmptyOf(ps: seq<string>)
    ensures forall t :: t in NonEmpty(ps) <==> t in ps && t != ""
    ensures Flatten(NonEmpty(ps)) == Flatten(ps)
  {
    if ps != [] {
      NonEmptyOf(ps[1..]);
      assert ps == [ps[0]] + ps[1..];
      if ps[0] == "" {
        assert NonEmpty(ps) == NonEmpty(ps[1..]);
      } else {
        assert NonEmpty(ps)[1..] == NonEmpty(ps[1..]);
      }
    }
  }

  lemma {:induction false} FlattenPieces(s: string, delim: string)
    ensures Flatten(Pieces(s, delim)) == Without(s, delim)
  {
    if s == "" {
      assert Flatten([""]) == "" + Flatten([]);
    } else {
      FlattenPieces(s[1..], delim);
      var rest := Pieces(s[1..], delim);
      if s[0] in delim {
        assert Pieces(s, delim)[1..] == rest;
      } else {
        var first := [s[0]] + rest[0];
        assert Pieces(s, delim) == [first] + rest[1..];
        assert Flatten(Pieces(s, delim)) == first + Flatten(rest[1..]);
      }
    }
  }

  lemma {:induction false} PiecesAreClean(s: string, delim: string)
    ensures forall p, c :: p in Pieces(s, delim) && c in p ==> c !in delim
  {
    if s != "" {
      PiecesAreClean(s[1..], delim);
      var rest := Pieces(s[1..], delim);
      assert rest == [rest[0]] + rest[1..];
    }
  }

  /** Tokens are non-empty, hold no delimiter, and together are the text without delimiters. */
  lemma TokensAreTheText(s: string, delim: string)
    ensures forall t :: t in Tokens(s, delim) ==> t != ""
    ensures forall t, c :: t in Tokens(s, delim) && c in t ==> c !in delim
    ensures Flatten(Tokens(s, delim)) == Without(s, delim)
  {
    NonEmptyOf(Pieces(s, delim));
    FlattenPieces(s, delim);
    PiecesAreClean(s, delim);
  }

  /** A place in the text. */
  datatype Span = Span(start: nat, end: nat)

  /** A non-empty run without delimiters that cannot be extended to either side. */
  predicate IsMaximalRun(s: string, delim: string, span: Span) {
    && span.start < span.end <= |s|
    && (forall i :: span.start <= i < span.end ==> s[i] !in delim)
    && (span.start == 0 || s[span.start - 1] in delim)
    && (span.end == |s| || s[span.end] in delim)
  }

  function RunEnd(s: string, delim: string, from: nat): (end: nat)
    requires from <= |s|
    ensures from <= end <= |s|
    ensures forall i :: from <= i < end ==> s[i] !in delim
    ensures end == |s| || s[end] in delim
    decreases |s| - from
  {
    if from == |s| || s[from] in delim then from else RunEnd(s, delim, from + 1)
  }

  /** The spans are the places of the tokens found from a position on, in order. */
  ghost predicate Locate(s: string, delim: string, from: nat, spans: seq<Span>)
    requires from <= |s|
  {
    && |spans| == |Tokens(s[from..], delim)|
    && (forall i :: 0 <= i < |spans| ==>
          && from <= spans[i].start
          && IsMaximalRun(s, delim, spans[i])
          && s[spans[i].start..spans[i].end] == Tokens(s[from..], delim)[i])
    && (forall i, j :: 0 <= i < j < |spans| ==> spans[i].end < spans[j].start)
    && (forall k :: from <= k < |s| && s[k] !in delim ==> Covered(spans, k))
  }

  ghost predicate Covered(spans: seq<Span>, k: int) {
    exists i :: 0 <= i < |spans| && spans[i].start <= k < spans[i].end
  }

  lemma {:induction false} LocateFrom(s: string, delim: string, from: nat) returns (spans: seq<Span>)
    requires from <= |s|
    requires from == 0 || from == |s| || s[from - 1] in delim || s[from] in delim
    ensures Locate(s, delim, from, spans)
    decreases |s| - from
  {
    if from == |s| {
      NoText(delim);
      assert s[from..] == "";
      spans := [];
    } else if s[from] in delim {
      SkipDelimiters(s, delim, from, from + 1);
      spans := LocateFrom(s, delim, from + 1);
    } else {
      var end := RunEnd(s, delim, from);
      assert end > from;
      TokenAt(s, delim, from, end);
      var later := LocateFrom(s, delim, end);
      spans := [Span(from, end)] + later;
      AddSpan(s, delim, from, end, later);
    }
  }

  lemma AddSpan(s: string, delim: string, from: nat, end: nat, later: seq<Span>)
    requires from < end <= |s| && Locate(s, delim, end, later)
    requires IsMaximalRun(s, delim, Span(from, end))
    requires Tokens(s[from..], delim) == [s[from..end]] + Tokens(s[end..], delim)
    ensures Locate(s, delim, from, [Span(from, end)] + later)
  {
    hide Tokens;
    var spans := [Span(from, end)] + later;
    forall j | 0 < j < |spans|
      ensures end < spans[j].start
    {
      assert IsMaximalRun(s, delim, later[j - 1]);
    }
    forall k | from <= k < |s| && s[k] !in delim
      ensures Covered(spans, k)
    {
      if k < end {
        assert spans[0].start <= k < spans[0].end;
      } else {
        assert Covered(later, k);
        var i :| 0 <= i < |later| && later[i].start <= k < later[i].end;
        assert spans[i + 1] == later[i];
      }
    }
  }

  /** The tokens are, in order, exactly the maximal runs of the text without delimiters. */
  lemma TokensAreMaximalRuns(s: string, delim: string) returns (spans: seq<Span>)
    ensures |spans| == |Tokens(s, delim)|
    ensures forall i :: 0 <= i < |spans| ==>
              IsMaximalRun(s, delim, spans[i]) && s[spans[i].start..spans[i].end] == Tokens(s, delim)[i]
    ensures forall i, j :: 0 <= i < j < |spans| ==> spans[i].end < spans[j].start
    ensures forall k :: 0 <= k < |s| && s[k] !in delim ==> Covered(spans, k)
  {
    spans := LocateFrom(s, delim, 0);
    assert s[0..] == s;
  }
}
