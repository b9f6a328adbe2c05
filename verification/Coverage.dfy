/**
 What a complete lexing says about the text: the lexemes are disjoint pieces in
 order, and everything between them is white space or whole comments.
 */
module Coverage {
  import opened Options
  import opened JsText
  import opened Lexer
  import opened Literals

  /** A comment from `//` to the end of its line. */
  predicate LineComment(s: string, lo: nat, hi: nat)
    requires hi <= |s|
  {
    && lo + 2 <= hi && StartsWith(s, lo, "//")
    && (forall k :: lo + 2 <= k < hi - 1 ==> s[k] != '\n')
    && (hi == |s| || (lo + 2 < hi && s[hi - 1] == '\n'))
  }

  /** A comment from its opening mark to the first closing mark. */
  predicate BlockComment(s: string, lo: nat, hi: nat)
    requires hi <= |s|
  {
    && lo + 4 <= hi && StartsWith(s, lo, "/*") && StartsWith(s, hi - 2, "*/")
    && forall k :: lo + 2 <= k < hi - 2 ==> !StartsWith(s, k, "*/")
  }

  predicate Blank(s: string, lo: nat, hi: nat)
    requires lo < hi <= |s|
  {
    || (hi == lo + 1 && IsSpace(s[lo]))
    || LineComment(s, lo, hi)
    || BlockComment(s, lo, hi)
  }

  /** The text between `lo` and `hi` is white space and whole comments. */
  ghost predicate Trivia(s: string, lo: nat, hi: nat)
    requires lo <= hi <= |s|
    decreases hi - lo
  {
    lo == hi || exists mid :: lo < mid <= hi && Blank(s, lo, mid) && Trivia(s, mid, hi)
  }

  /** `lexemes` read from position `i`: in order, apart, and with only trivia around them. */
  ghost predicate LaidOut(s: string, i: nat, lexing: Lexing, decode: string -> string)
    requires i <= |s|
    decreases |lexing.lexemes|
  {
    if lexing.lexemes == [] then lexing.complete ==> Trivia(s, i, |s|)
    else
      var l := lexing.lexemes[0];
      && i <= l.start < l.end <= |s|
      && Faithful(s, l, decode)
      && Trivia(s, i, l.start)
      && LaidOut(s, l.end, Lexing(lexing.lexemes[1..], lexing.complete), decode)
  }

  lemma PieceIsBlankOrFaithful(s: string, i: nat, previous: Option<Lexeme>, decode: string -> string)
    requires i < |s|
    ensures var piece := PieceAt(s, i, previous, decode);
      && (piece.Skip? ==> Blank(s, i, piece.end))
      && (piece.Found? ==> Faithful(s, piece.lexeme, decode))
  {
    var piece := PieceAt(s, i, previous, decode);
    if piece.Found? {
      FoundIsFaithful(s, i, previous, decode);
    } else if !IsSpace(s[i]) && StartsWith(s, i, "//") {
      LineCommentEnds(s, i);
    }
  }

  lemma LineCommentEnds(s: string, i: nat)
    requires i < |s| && StartsWith(s, i, "//")
    ensures var newline := IndexOf(s, i + 2, "\n");
      LineComment(s, i, if newline.None? then |s| else newline.value + 1)
  {
    var newline := IndexOf(s, i + 2, "\n");
    var hi := if newline.None? then |s| else newline.value + 1;
    forall k | i + 2 <= k < hi - 1 ensures s[k] != '\n' {
      assert !StartsWith(s, k, "\n");
      assert s[k..k + 1] == [s[k]];
    }
  }

  /** Blank text in front of laid-out text keeps it laid out. */
  lemma LaidOutAfterBlank(s: string, i: nat, mid: nat, lexing: Lexing, decode: string -> string)
    requires i < mid <= |s| && Blank(s, i, mid)
    requires LaidOut(s, mid, lexing, decode)
    ensures LaidOut(s, i, lexing, decode)
  {
    if lexing.lexemes != [] {
      assert Trivia(s, i, lexing.lexemes[0].start);
    }
  }

  lemma {:induction false} LexemesAreLaidOut(s: string, i: nat, previous: Option<Lexeme>, decode: string -> string)
    requires i <= |s|
    ensures LaidOut(s, i, Lexemes(s, i, previous, decode), decode)
    decreases |s| - i
  {
    if i < |s| {
      PieceIsBlankOrFaithful(s, i, previous, decode);
      match PieceAt(s, i, previous, decode)
      case Unterminated =>
      case Skip(end) =>
        LexemesAreLaidOut(s, end, previous, decode);
        LaidOutAfterBlank(s, i, end, Lexemes(s, end, previous, decode), decode);
      case Found(lexeme) =>
        LexemesAreLaidOut(s, lexeme.end, Some(lexeme), decode);
        var lexing := Lexemes(s, i, previous, decode);
        assert Lexing(lexing.lexemes[1..], lexing.complete) == Lexemes(s, lexeme.end, Some(lexeme), decode);
    }
  }

  predicate Covers(l: Lexeme, p: nat) { l.start <= p < l.end }

  predicate InOrder(s: string, ls: seq<Lexeme>) {
    && (forall k :: 0 <= k < |ls| ==> ls[k].start < ls[k].end <= |s|)
    && (forall j, k :: 0 <= j < k < |ls| ==> ls[j].end <= ls[k].start)
  }

  lemma {:induction false} LaidOutInOrder(s: string, i: nat, lexing: Lexing, decode: string -> string)
    requires i <= |s| && LaidOut(s, i, lexing, decode)
    ensures InOrder(s, lexing.lexemes)
    ensures forall k :: 0 <= k < |lexing.lexemes| ==>
      i <= lexing.lexemes[k].start < lexing.lexemes[k].end <= |s| && Faithful(s, lexing.lexemes[k], decode)
    decreases |lexing.lexemes|
  {
    var ls := lexing.lexemes;
    if ls != [] {
      var rest := Lexing(ls[1..], lexing.complete);
      LaidOutInOrder(s, ls[0].end, rest, decode);
      assert forall k :: 0 < k < |ls| ==> ls[k] == rest.lexemes[k - 1];
    }
  }

  /** Spans are non-empty, in order and disjoint, and every lexeme is the text it spans. */
  lemma TokenSpans(source: string, decode: string -> string)
    ensures var ls := Lexemes(source, 0, None, decode).lexemes;
      && InOrder(source, ls)
      && forall k :: 0 <= k < |ls| ==> Faithful(source, ls[k], decode)
  {
    LexemesAreLaidOut(source, 0, None, decode);
    LaidOutInOrder(source, 0, Lexemes(source, 0, None, decode), decode);
  }

  /** A piece of white space or a comment that holds position `p`. */
  ghost predicate InTrivia(s: string, p: nat, from: nat, to: nat)
    requires from <= to <= |s|
  {
    exists lo: nat, hi: nat :: from <= lo <= p < hi <= to && Blank(s, lo, hi)
  }

  lemma {:induction false} TriviaHolds(s: string, lo: nat, hi: nat, p: nat)
    requires lo <= p < hi <= |s| && Trivia(s, lo, hi)
    ensures InTrivia(s, p, lo, hi)
    decreases hi - lo
  {
    var mid :| lo < mid <= hi && Blank(s, lo, mid) && Trivia(s, mid, hi);
    if mid <= p {
      TriviaHolds(s, mid, hi, p);
    }
  }

  /** No lexeme reaches into the stretch from `from` to `to`. */
  predicate Untouched(ls: seq<Lexeme>, from: nat, to: nat) {
    forall j :: 0 <= j < |ls| ==> ls[j].end <= from || to <= ls[j].start
  }

  /** Where position `p` lies: inside lexeme `k`, or in a gap that no lexeme touches. */
  lemma {:induction false} Locate(s: string, i: nat, lexing: Lexing, decode: string -> string, p: nat)
    returns (k: nat, from: nat, to: nat)
    requires i <= p < |s| && lexing.complete && LaidOut(s, i, lexing, decode)
    ensures k <= |lexing.lexemes|
    ensures (k < |lexing.lexemes| && Covers(lexing.lexemes[k], p))
      || (i <= from <= p < to <= |s| && InTrivia(s, p, from, to)
          && Untouched(lexing.lexemes, from, to))
    decreases |lexing.lexemes|
  {
    var ls := lexing.lexemes;
    k, from, to := |ls|, i, |s|;
    if ls == [] {
      TriviaHolds(s, i, |s|, p);
    } else {
      LaidOutInOrder(s, i, lexing, decode);
      if p < ls[0].start {
        TriviaHolds(s, i, ls[0].start, p);
        to := ls[0].start;
      } else if p < ls[0].end {
        k := 0;
      } else {
        var rest := Lexing(ls[1..], lexing.complete);
        k, from, to := Locate(s, ls[0].end, rest, decode, p);
        k := k + 1;
        assert forall j :: 0 < j < |ls| ==> ls[j] == rest.lexemes[j - 1];
      }
    }
  }

  ghost predicate InGap(s: string, ls: seq<Lexeme>, p: nat) {
    exists from: nat, to: nat :: from <= p < to <= |s| && InTrivia(s, p, from, to) && Untouched(ls, from, to)
  }

  /** Every character is in exactly one token, or in white space or a comment, and never both. */
  lemma EveryCharacterOnce(source: string, decode: string -> string, p: nat)
    requires p < |source| && Lexemes(source, 0, None, decode).complete
    ensures var ls := Lexemes(source, 0, None, decode).lexemes;
      && ((exists k :: 0 <= k < |ls| && Covers(ls[k], p)) <==> !InGap(source, ls, p))
      && forall j, k :: 0 <= j < |ls| && 0 <= k < |ls| && Covers(ls[j], p) && Covers(ls[k], p) ==> j == k
  {
    var lexing := Lexemes(source, 0, None, decode);
    var ls := lexing.lexemes;
    LexemesAreLaidOut(source, 0, None, decode);
    LaidOutInOrder(source, 0, lexing, decode);
    var k, from, to := Locate(source, 0, lexing, decode, p);
    if k < |ls| && Covers(ls[k], p) {
      assert !InGap(source, ls, p);
    } else {
      assert Untouched(ls, from, to);
    }
  }
}
