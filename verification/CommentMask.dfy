/**
 Comment masking in scripts/sql-migration-lint.ts: comments become blanks of the same
 length, so positions found in the masked text are positions in the original.
 */
module CommentMask {
  import opened Options
  import opened Sequences
  import opened JsText

  function BlankChar(c: char): char { if c == '\n' then '\n' else ' ' }

  /** The text with everything but its line breaks blanked out. */
  function Blank(t: string): (r: string)
    ensures |r| == |t|
  {
    seq(|t|, k requires 0 <= k < |t| => BlankChar(t[k]))
  }

  predicate StartsLineComment(s: string, i: nat) { i + 1 < |s| && s[i] == '/' && s[i + 1] == '/' }

  predicate StartsBlockComment(s: string, i: nat) { i + 1 < |s| && s[i] == '/' && s[i + 1] == '*' }

  predicate StartsComment(s: string, i: nat) { StartsLineComment(s, i) || StartsBlockComment(s, i) }

  /** The line break that ends a line comment, or the end of the text. */
  function LineEnd(s: string, i: nat): (r: nat)
    requires i <= |s|
    ensures i <= r <= |s|
    ensures r < |s| ==> s[r] == '\n'
    ensures forall k :: i <= k < r ==> s[k] != '\n'
    decreases |s| - i
  {
    if i < |s| && s[i] != '\n' then LineEnd(s, i + 1) else i
  }

  predicate ClosesBlock(s: string, k: nat) { k + 1 < |s| && s[k] == '*' && s[k + 1] == '/' }

  /** The first closing mark of a block comment at or after `i`, or the end of the text. */
  function BlockClose(s: string, i: nat): (r: nat)
    requires i <= |s|
    ensures i <= r <= |s|
    ensures r < |s| ==> ClosesBlock(s, r)
    ensures forall k :: i <= k < r ==> !ClosesBlock(s, k)
    decreases |s| - i
  {
    if i < |s| && !ClosesBlock(s, i) then BlockClose(s, i + 1) else i
  }

  /** Where the comment at `i` ends. */
  function CommentEnd(s: string, i: nat): (r: nat)
    requires StartsComment(s, i)
    ensures i + 1 < r <= |s|
  {
    if StartsLineComment(s, i) then LineEnd(s, i + 2)
    else
      var close := BlockClose(s, i + 2);
      if close < |s| then close + 2 else |s|
  }

  /** The masked text of one step of the scan, and where the scan goes on. */
  datatype Step = Step(text: string, next: nat, quote: Option<char>)

  /** One step at `i`, inside a literal when `quote` is present. */
  function StepAt(s: string, i: nat, quote: Option<char>): (r: Step)
    requires i < |s|
    ensures i < r.next <= |s| && |r.text| == r.next - i
  {
    if quote.Some? then
      if s[i] == '\\' then
        var next := if i + 1 < |s| then i + 2 else i + 1;
        Step(s[i..next], next, quote)
      else Step([s[i]], i + 1, if s[i] == quote.value then None else quote)
    else if IsQuote(s[i]) then Step([s[i]], i + 1, Some(s[i]))
    else if StartsComment(s, i) then
      var end := CommentEnd(s, i);
      Step(Blank(s[i..end]), end, None)
    else Step([s[i]], i + 1, None)
  }

  /** The masked text from `i` on. */
  function MaskFrom(s: string, i: nat, quote: Option<char>): string
    requires i <= |s|
    decreases |s| - i
  {
    if i == |s| then []
    else
      var step := StepAt(s, i, quote);
      step.text + MaskFrom(s, step.next, step.quote)
  }

  function Mask(s: string): string { MaskFrom(s, 0, None) }

  // ---- The pass ----------------------------------------------------------------------------------

  lemma BlankMore(s: string, start: nat, index: nat)
    requires start <= index < |s|
    ensures Blank(s[start..index + 1]) == Blank(s[start..index]) + [BlankChar(s[index])]
  {}

  method MaskLineComment(s: string, start: nat) returns (output: string, index: nat)
    requires StartsLineComment(s, start)
    ensures index == CommentEnd(s, start) && output == Blank(s[start..index])
  {
    LineEndStep(s, start, start + 2);
    output, index := [], start;
    while index < |s| && s[index] != '\n'
      invariant start <= index <= |s|
      invariant output == Blank(s[start..index])
      invariant LineEnd(s, index) == LineEnd(s, start)
    {
      BlankMore(s, start, index);
      output := output + " ";
      index := index + 1;
    }
  }

  lemma LineEndStep(s: string, i: nat, j: nat)
    requires i <= j <= |s| && forall k :: i <= k < j ==> s[k] != '\n'
    ensures LineEnd(s, j) == LineEnd(s, i)
    decreases j - i
  {
    if i < j { LineEndStep(s, i + 1, j); }
  }

  method MaskBlockComment(s: string, start: nat) returns (output: string, index: nat)
    requires StartsBlockComment(s, start)
    ensures index == CommentEnd(s, start) && output == Blank(s[start..index])
  {
    output, index := "  ", start + 2;
    while index < |s| && !ClosesBlock(s, index)
      invariant start + 2 <= index <= |s|
      invariant output == Blank(s[start..index])
      invariant BlockClose(s, index) == BlockClose(s, start + 2)
    {
      BlankMore(s, start, index);
      output := output + [if s[index] == '\n' then '\n' else ' '];
      index := index + 1;
    }
    if index < |s| {
      output := output + "  ";
      index := index + 2;
    }
  }

  /** One step of the pass, scanning ahead over a comment. */
  method MaskStep(s: string, index: nat, quote: Option<char>) returns (r: Step)
    requires index < |s|
    ensures r == StepAt(s, index, quote)
  {
    var c := s[index];
    if quote.Some? {
      if c == '\\' {
        var next := if index + 1 < |s| then index + 2 else index + 1;
        return Step(s[index..next], next, quote);
      }
      return Step([c], index + 1, if c == quote.value then None else quote);
    }
    if IsQuote(c) { return Step([c], index + 1, Some(c)); }
    if StartsLineComment(s, index) {
      var text, next := MaskLineComment(s, index);
      return Step(text, next, None);
    }
    if StartsBlockComment(s, index) {
      var text, next := MaskBlockComment(s, index);
      return Step(text, next, None);
    }
    return Step([c], index + 1, None);
  }

  method MaskComments(source: string) returns (output: string)
    ensures output == Mask(source)
  {
    output := "";
    var index := 0;
    var quote: Option<char> := None;
    while index < |source|
      invariant index <= |source|
      invariant output + MaskFrom(source, index, quote) == Mask(source)
      decreases |source| - index
    {
      var step := MaskStep(source, index, quote);
      Regroup(output, step.text, MaskFrom(source, step.next, step.quote));
      output, index, quote := output + step.text, step.next, step.quote;
    }
  }

  // ---- What masking keeps -------------------------------------------------------------------------

  /** Position by position the character itself, or a blank that is not a line break. */
  predicate Blanked(s: string, t: string) {
    |t| == |s| && forall k :: 0 <= k < |s| ==> t[k] == s[k] || (t[k] == ' ' && s[k] != '\n')
  }

  lemma BlankIsBlanked(t: string)
    ensures Blanked(t, Blank(t))
  {}

  lemma BlankedConcat(a: string, b: string, a': string, b': string)
    requires Blanked(a, a') && Blanked(b, b')
    ensures Blanked(a + b, a' + b')
  {}

  lemma StepBlanks(s: string, i: nat, quote: Option<char>)
    requires i < |s|
    ensures var step := StepAt(s, i, quote); Blanked(s[i..step.next], step.text)
  {
    var step := StepAt(s, i, quote);
    BlankIsBlanked(s[i..step.next]);
    if quote.Some? || !StartsComment(s, i) || IsQuote(s[i]) { assert step.text == s[i..step.next]; }
  }

  lemma {:induction false} MaskFromBlanks(s: string, i: nat, quote: Option<char>)
    requires i <= |s|
    ensures Blanked(s[i..], MaskFrom(s, i, quote))
    decreases |s| - i
  {
    if i < |s| {
      var step := StepAt(s, i, quote);
      StepBlanks(s, i, quote);
      MaskFromBlanks(s, step.next, step.quote);
      BlankedConcat(s[i..step.next], s[step.next..], step.text, MaskFrom(s, step.next, step.quote));
      assert s[i..] == s[i..step.next] + s[step.next..];
    }
  }

  // ---- What is a comment ---------------------------------------------------------------------------

  /** Where a character of the source stands, read one character at a time. */
  datatype Spot = InCode | InLiteral(quote: char) | EscapedIn(quote: char) | LineComment | BlockComment(start: nat)

  /** The spot of a character that follows code: a comment may start with it. */
  function Entered(s: string, k: nat): Spot {
    if k + 1 < |s| && s[k] == '/' && s[k + 1] == '/' then LineComment
    else if k + 1 < |s| && s[k] == '/' && s[k + 1] == '*' then BlockComment(k)
    else InCode
  }

  /** The spot of the character at `k`, from the spot `before` of the one in front of it. */
  function NextSpot(s: string, k: nat, before: Spot): Spot
    requires 0 < k < |s|
  {
    match before
    case InCode => if s[k - 1] in {'\'', '"', '`'} then InLiteral(s[k - 1]) else Entered(s, k)
    case InLiteral(q) => if s[k - 1] == '\\' then EscapedIn(q) else if s[k - 1] == q then Entered(s, k) else before
    case EscapedIn(q) => InLiteral(q)
    case LineComment => if s[k] == '\n' then InCode else LineComment
    case BlockComment(start) => if start + 4 <= k && s[k - 2] == '*' && s[k - 1] == '/' then Entered(s, k) else before
  }

  function SpotAt(s: string, k: nat): Spot
    requires k < |s|
  {
    if k == 0 then Entered(s, 0) else NextSpot(s, k, SpotAt(s, k - 1))
  }

  predicate IsComment(spot: Spot) { spot.LineComment? || spot.BlockComment? }

  predicate InComment(s: string, k: nat)
    requires k < |s|
  {
    IsComment(SpotAt(s, k))
  }

  /** The scan is at `i`, inside a literal when `quote` is present, and the characters say the same. */
  predicate Agrees(s: string, i: nat, quote: Option<char>) {
    i < |s| ==> SpotAt(s, i) == if quote.Some? then InLiteral(quote.value) else Entered(s, i)
  }

  lemma {:induction false} LineCommentSpots(s: string, i: nat, k: nat)
    requires StartsLineComment(s, i) && SpotAt(s, i) == LineComment && i <= k < CommentEnd(s, i)
    ensures SpotAt(s, k) == LineComment
    decreases k
  {
    if i < k { LineCommentSpots(s, i, k - 1); }
  }

  lemma {:induction false} BlockCommentSpots(s: string, i: nat, k: nat)
    requires StartsBlockComment(s, i) && SpotAt(s, i) == BlockComment(i) && i <= k < CommentEnd(s, i)
    ensures SpotAt(s, k) == BlockComment(i)
    decreases k
  {
    if i < k {
      BlockCommentSpots(s, i, k - 1);
      assert i + 4 <= k ==> !ClosesBlock(s, k - 2);
    }
  }

  /** A comment step runs over comment characters only and ends behind the comment. */
  lemma CommentStepAgrees(s: string, i: nat, k: nat)
    requires StartsComment(s, i) && SpotAt(s, i) == Entered(s, i) && i <= k < CommentEnd(s, i)
    ensures InComment(s, k) && Agrees(s, CommentEnd(s, i), None)
  {
    var end := CommentEnd(s, i);
    if StartsLineComment(s, i) {
      LineCommentSpots(s, i, k);
      LineCommentSpots(s, i, end - 1);
    } else {
      BlockCommentSpots(s, i, k);
      BlockCommentSpots(s, i, end - 1);
    }
  }

  /** What masking shows of the character at `k`. */
  function Shown(s: string, k: nat): char
    requires k < |s|
  {
    if InComment(s, k) then BlankChar(s[k]) else s[k]
  }

  lemma StepShows(s: string, i: nat, quote: Option<char>, k: nat)
    requires i <= k < |s| && Agrees(s, i, quote) && k < StepAt(s, i, quote).next
    ensures StepAt(s, i, quote).text[k - i] == Shown(s, k)
    ensures Agrees(s, StepAt(s, i, quote).next, StepAt(s, i, quote).quote)
  {
    if quote.None? && !IsQuote(s[i]) && StartsComment(s, i) { CommentStepAgrees(s, i, k); }
  }

  lemma {:induction false} MaskFromShows(s: string, i: nat, quote: Option<char>, k: nat)
    requires i <= k < |s| && Agrees(s, i, quote)
    ensures |MaskFrom(s, i, quote)| == |s| - i && MaskFrom(s, i, quote)[k - i] == Shown(s, k)
    decreases |s| - i
  {
    var step := StepAt(s, i, quote);
    MaskFromBlanks(s, i, quote);
    if k < step.next {
      StepShows(s, i, quote, k);
    } else {
      StepShows(s, i, quote, i);
      MaskFromShows(s, step.next, step.quote, k);
    }
  }

  /**
   Masking keeps the length and every line break, turns exactly the characters of comments
   into blanks, and leaves every other character as it is.
   */
  lemma MaskKeepsPositions(s: string)
    ensures Blanked(s, Mask(s))
    ensures forall k :: 0 <= k < |s| ==> Mask(s)[k] == if InComment(s, k) && s[k] != '\n' then ' ' else s[k]
  {
    MaskFromBlanks(s, 0, None);
    assert s[0..] == s;
    forall k | 0 <= k < |s| ensures Mask(s)[k] == Shown(s, k) { MaskFromShows(s, 0, None, k); }
  }

  // ---- Masking twice ----------------------------------------------------------------------------------

  /** Text without quotes and comment openers is its own masking. */
  lemma {:induction false} PlainPrefix(t: string, i: nat, j: nat)
    requires i <= j <= |t|
    requires forall k :: i <= k < j ==> !IsQuote(t[k]) && !StartsComment(t, k)
    ensures MaskFrom(t, i, None) == t[i..j] + MaskFrom(t, j, None)
    decreases j - i
  {
    if i < j {
      PlainPrefix(t, i + 1, j);
      Regroup([t[i]], t[i + 1..j], MaskFrom(t, j, None));
      assert [t[i]] + t[i + 1..j] == t[i..j];
    } else {
      assert t[i..j] + MaskFrom(t, j, None) == MaskFrom(t, j, None);
    }
  }

  /** `t` goes on from `i` with the masking of `s`. */
  predicate Continues(t: string, s: string, i: nat, quote: Option<char>) {
    i <= |s| && |t| == |s| && t[i..] == MaskFrom(s, i, quote)
  }

  lemma ContinuesAfter(t: string, s: string, i: nat, quote: Option<char>)
    requires i < |s| && Continues(t, s, i, quote)
    ensures var step := StepAt(s, i, quote);
      && Continues(t, s, step.next, step.quote)
      && t[i..step.next] == step.text && t[i..] == step.text + t[step.next..]
  {
    var step := StepAt(s, i, quote);
    assert t[step.next..] == t[i..][step.next - i..];
    assert t[i..step.next] == t[i..][..step.next - i];
  }

  /** A character kept outside literals never starts a comment in the masked text. */
  lemma NoNewComment(t: string, s: string, i: nat)
    requires i < |s| && Continues(t, s, i, None) && !IsQuote(s[i]) && !StartsComment(s, i)
    ensures t[i] == s[i] && !StartsComment(t, i)
  {
    ContinuesAfter(t, s, i, None);
    assert t[i] == t[i..i + 1][0];
    if i + 1 < |s| {
      MaskFromBlanks(s, i + 1, None);
      assert t[i + 1] == t[i + 1..][0] && s[i + 1] == s[i + 1..][0];
    }
  }

  /** Outside comments, a step on the masked text is the step on the text. */
  lemma SameStep(t: string, s: string, i: nat, quote: Option<char>)
    requires i < |s| && Continues(t, s, i, quote)
    requires quote.Some? || IsQuote(s[i]) || !StartsComment(s, i)
    ensures StepAt(t, i, quote) == StepAt(s, i, quote)
  {
    ContinuesAfter(t, s, i, quote);
    var step := StepAt(s, i, quote);
    assert step.text == s[i..step.next];
    assert t[i] == t[i..step.next][0] == s[i..step.next][0] == s[i];
    if quote.None? && !IsQuote(s[i]) { NoNewComment(t, s, i); }
  }

  lemma {:induction false} MaskTwice(t: string, s: string, i: nat, quote: Option<char>)
    requires Continues(t, s, i, quote)
    ensures MaskFrom(t, i, quote) == t[i..]
    decreases |s| - i
  {
    if i < |s| {
      var step := StepAt(s, i, quote);
      ContinuesAfter(t, s, i, quote);
      MaskTwice(t, s, step.next, step.quote);
      if quote.None? && !IsQuote(s[i]) && StartsComment(s, i) {
        forall k | i <= k < step.next ensures !IsQuote(t[k]) && !StartsComment(t, k) {
          assert t[k] == t[i..step.next][k - i] == BlankChar(s[i..step.next][k - i]);
        }
        PlainPrefix(t, i, step.next);
      } else {
        SameStep(t, s, i, quote);
      }
    }
  }

  /** Masking is idempotent: no comment appears in masked text. */
  lemma MaskIdempotent(s: string)
    ensures Mask(Mask(s)) == Mask(s)
  {
    MaskKeepsPositions(s);
    assert Mask(s)[0..] == Mask(s);
    MaskTwice(Mask(s), s, 0, None);
  }
}
