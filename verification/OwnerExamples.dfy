/**
 Two sources whose normalized text in scripts/release-safety-config-diff.ts depends on a
 default: one reports it for two names, the other changes its sign.
 */
module OwnerExamples {
  import opened Options
  import opened JsText
  import opened Sequences
  import opened Sorting
  import opened OwnerText
  import opened SourceWords
  import opened ConfigUsages
  import opened UsageTwins
  import opened OwnerHoles
  import opened MarkedText
  import opened OwnerTails
  import opened OwnerTwins
  import opened OwnerSamples
  import L = Lexer

  // ---- Token lists with few references --------------------------------------------------------

  /** No reference starts with this token. */
  predicate StartsNone(t: L.Token) { t.kind != L.Identifier || (t.value != "process" && |t.value| < |HELPER|) }

  lemma NothingStarts(tokens: Tokens, i: nat)
    requires i < |tokens| && StartsNone(tokens[i])
    ensures EnvironmentReference(tokens, i) + HelperReference(tokens, i) == []
  {}

  /** Tokens that start no reference add none. */
  lemma {:induction false} SkipReferences(tokens: Tokens, a: nat, b: nat)
    requires a <= b <= |tokens| && forall i :: a <= i < b ==> StartsNone(tokens[i])
    ensures References(tokens, b) == References(tokens, a)
    decreases b
  {
    hide EnvironmentReference, HelperReference, StartsNone;
    if a < b {
      SkipReferences(tokens, a, b - 1);
      NothingStarts(tokens, b - 1);
      assert References(tokens, b - 1) + [] == References(tokens, b - 1);
    }
  }

  /** A token that neither offers a default nor ends the search for one. */
  predicate PassesSearch(t: L.Token, depth: int) { !OffersDefault(t) && !EndsSearch(t, depth) }

  lemma {:induction false} SkipSearch(tokens: Tokens, a: nat, b: nat, limit: nat, depth: int)
    requires a <= b <= limit && b <= |tokens| && forall i :: a <= i < b ==> PassesSearch(tokens[i], depth)
    ensures DefaultFrom(tokens, a, limit, depth) == DefaultFrom(tokens, b, limit, depth)
    decreases b - a
  {
    if a < b {
      assert PassesSearch(tokens[a], depth);
      SkipSearch(tokens, a + 1, b, limit, depth);
    }
  }

  /** A token that is neither a boundary nor a declaration nor the end of a statement. */
  predicate IsWithinStatement(t: L.Token) {
    !IsMark(t, {",", ";", "{"}) && !(t.kind == L.Identifier && t.value in {"const", "let", "var"})
  }

  lemma {:induction false} NothingBefore(tokens: Tokens, k: nat, depth: int)
    requires k <= |tokens| && forall i :: 0 <= i < k ==> IsWithinStatement(tokens[i]) && !IsColon(tokens[i], depth)
    ensures DeclarationBefore(tokens, k, depth) == -1 && BoundaryBefore(tokens, k, depth) == -1 && !HasColon(tokens, k, depth)
  {
    if k > 0 { NothingBefore(tokens, k - 1, depth); }
  }

  lemma {:induction false} StatementGoesOn(tokens: Tokens, k: nat, depth: int, ownerDepth: int)
    requires k <= |tokens| && forall i :: k <= i < |tokens| ==> !EndsStatement(tokens[i], depth, ownerDepth)
    ensures StatementEnd(tokens, k, depth, ownerDepth) == |tokens|
    decreases |tokens| - k
  {
    if k < |tokens| { StatementGoesOn(tokens, k + 1, depth, ownerDepth); }
  }

  /** A reference in a source that is one statement has it for its owner. */
  lemma OwnerIsAll(tokens: Tokens, reference: nat)
    requires reference < |tokens|
    requires var depth := tokens[reference].depth;
      && (forall i :: 0 <= i < reference ==> IsWithinStatement(tokens[i]) && !IsColon(tokens[i], depth))
      && (forall i :: reference < i < |tokens| ==> !EndsStatement(tokens[i], depth, tokens[0].depth))
    ensures OwnerOf(tokens, reference) == Owner(0, |tokens|)
  {
    NothingBefore(tokens, reference, tokens[reference].depth);
    StatementGoesOn(tokens, reference + 1, tokens[reference].depth, tokens[0].depth);
  }

  /** A name read from the environment adds its reference. */
  lemma EnvironmentAt(tokens: Tokens, i: nat)
    requires i + 4 < |tokens| && tokens[i].kind == tokens[i + 2].kind == tokens[i + 4].kind == L.Identifier
    requires tokens[i].value == "process" && tokens[i + 2].value == "env" && IsUpperName(tokens[i + 4].value)
    requires tokens[i + 1].kind == tokens[i + 3].kind == L.Punctuation && tokens[i + 1].value == tokens[i + 3].value == "."
    ensures References(tokens, i + 1) == References(tokens, i) + [Reference(i + 4, i, i + 4, false)]
  {
    assert !IsHelper(tokens[i]);
  }

  lemma {:induction false} TwoUsages(tokens: Tokens, a: Reference, b: Reference)
    requires References(tokens, |tokens|) == [a, b] && InList(tokens, a) && InList(tokens, b)
    ensures UsagesIn(tokens) == [UsageOf(tokens, a), UsageOf(tokens, b)]
  {
    assert [a, b][..1] == [a] && [a][..0] == [];
    assert Usages(tokens, [a]) == [UsageOf(tokens, a)];
  }

  // ---- A default shared by two names ------------------------------------------------------------

  /** `process.env.A ? process.env.B || 5 : c` with a number for the 5. */
  function Conditional(number: string): seq<Word> {
    [Word("", "process", L.Identifier, "process", 0), Word("", ".", L.Punctuation, ".", 0),
     Word("", "env", L.Identifier, "env", 0), Word("", ".", L.Punctuation, ".", 0), Word("", "A", L.Identifier, "A", 0),
     Word(" ", "?", L.Operator, "?", 0), Word(" ", "process", L.Identifier, "process", 0),
     Word("", ".", L.Punctuation, ".", 0), Word("", "env", L.Identifier, "env", 0),
     Word("", ".", L.Punctuation, ".", 0), Word("", "B", L.Identifier, "B", 0), Word(" ", "||", L.Operator, "||", 0),
     Word(" ", number, L.Number, number, 0), Word(" ", ":", L.Punctuation, ":", 0), Word(" ", "c", L.Identifier, "c", 0)]
  }

  predicate IsNumber(s: string) { s != [] && IsDigit(s[0]) && forall k :: 0 <= k < |s| ==> L.IsNumberPart(s[k]) }

  lemma {:induction false} NoDelimiters(tokens: Tokens, k: nat)
    requires k <= |tokens| && forall i :: 0 <= i < |tokens| ==> !L.Opens(tokens[i]) && !L.Closes(tokens[i])
    ensures L.Stack(tokens, k) == []
  {
    if k > 0 { NoDelimiters(tokens, k - 1); }
  }

  lemma FlatIsWellFormed(tokens: Tokens)
    requires forall i :: 0 <= i < |tokens| ==> !L.Opens(tokens[i]) && !L.Closes(tokens[i]) && tokens[i].depth == 0 && tokens[i].value != "="
    ensures L.DepthsRecorded(tokens) && L.WellFormed(tokens, true)
  {
    forall k | 0 <= k <= |tokens| ensures L.Stack(tokens, k) == [] { NoDelimiters(tokens, k); }
  }

  lemma NamesAreSimple(number: string, k: nat, decode: string -> string)
    requires IsNumber(number)
    requires k in {0, 2, 4, 6, 8, 10, 14}
    ensures IsSimple(Conditional(number)[k], CharBehind(Conditional(number), k), decode)
  {}

  lemma MarksAreSimple(number: string, k: nat, decode: string -> string)
    requires IsNumber(number)
    requires k in {1, 3, 5, 7, 9, 11, 13}
    ensures IsSimple(Conditional(number)[k], CharBehind(Conditional(number), k), decode)
  {}

  lemma NumberIsSimple(number: string, decode: string -> string)
    requires IsNumber(number)
    ensures IsSimple(Conditional(number)[12], CharBehind(Conditional(number), 12), decode)
  {}

  /** The words of the conditional are the tokens of its text. */
  lemma ConditionalTokenized(number: string, decode: string -> string)
    requires IsNumber(number)
    ensures L.Tokenized(TextOf(Conditional(number)), decode, TokensOf(Conditional(number)), true)
  {
    hide TextOf, L.DepthsRecorded, L.WellFormed, L.Tokenized, IsSimple, CharBehind;
    var ws := Conditional(number);
    forall k | 0 <= k < |ws| ensures IsSimple(ws[k], CharBehind(ws, k), decode) {
      if k == 12 { NumberIsSimple(number, decode); }
      else if k in {0, 2, 4, 6, 8, 10, 14} { NamesAreSimple(number, k, decode); }
      else { MarksAreSimple(number, k, decode); }
    }
    assert number != "=";
    FlatIsWellFormed(TokensOf(ws));
    SimpleWordsAreTokens(ws, decode);
  }

  const ALL := Owner(0, 15)

  lemma ConditionalReferences(number: string)
    ensures References(TokensOf(Conditional(number)), 15) == [Reference(4, 0, 4, false), Reference(10, 6, 10, false)]
  {
    hide TextOf, References, Start, End;
    var tokens := TokensOf(Conditional(number));
    EnvironmentAt(tokens, 0);
    SkipReferences(tokens, 1, 6);
    EnvironmentAt(tokens, 6);
    SkipReferences(tokens, 7, 15);
    NoReferences(tokens);
  }

  lemma NoReferences(tokens: Tokens)
    ensures References(tokens, 0) == []
  {}

  /** Both names of the conditional find the number as their default. */
  lemma TwoNamesShareADefault(number: string)
    ensures UsagesIn(TokensOf(Conditional(number)))
      == [TokenUsage(4, Some(Span(12, 12)), ALL), TokenUsage(10, Some(Span(12, 12)), ALL)]
  {
    hide TextOf, References, Start, End, DefaultFrom, OwnerOf, UsagesIn;
    var tokens := TokensOf(Conditional(number));
    ConditionalReferences(number);
    SearchesOfConditional(number);
    OwnerIsAll(tokens, 0);
    OwnerIsAll(tokens, 6);
    TwoUsages(tokens, Reference(4, 0, 4, false), Reference(10, 6, 10, false));
  }

  lemma SearchesOfConditional(number: string)
    ensures var tokens := TokensOf(Conditional(number));
      DefaultFrom(tokens, 5, 16, 0) == DefaultFrom(tokens, 11, 22, 0) == Some(Span(12, 12))
  {
    hide TextOf, Start, End;
    SkipSearch(TokensOf(Conditional(number)), 5, 11, 16, 0);
  }

  lemma {:induction false} SortedFour(a: Hole, b: Hole, c: Hole)
    requires a.first < b.first < c.first
    ensures Sorted([a, c, b, c]) == [c, c, b, a]
  {
    var f := ByFallingFirst();
    assert [c][1..] == [];
    assert Sort([c], f) == [c];
    assert [b, c][1..] == [c];
    assert Insert(b, [c][1..], f) == [b];
    assert Sort([b, c], f) == [c, b];
    assert [c, b, c][1..] == [b, c];
    assert Sort([c, b, c], f) == [c, c, b];
    assert Insert(a, [], f) == [a];
    assert [b][1..] == [] && [c, b][1..] == [b] && [c, c, b][1..] == [c, b];
    assert Insert(a, [b], f) == [b, a];
    assert Insert(a, [c, b], f) == [c, b, a];
    assert Insert(a, [c, c, b], f) == [c, c, b, a];
    assert [a, c, b, c][1..] == [c, b, c];
  }

  const NAME_A := Hole(4, 4, ENV)
  const NAME_B := Hole(10, 10, ENV)
  const NUMBER := Hole(12, 12, DEFAULT)

  lemma ConditionalHoles(number: string)
    ensures HolesIn(TokensOf(Conditional(number)), ALL) == [NAME_A, NUMBER, NAME_B, NUMBER]
    ensures InsideIn(Conditional(number), ALL) == [NUMBER, NUMBER, NAME_B, NAME_A] && BehindIn(Conditional(number), ALL) == []
  {
    hide TextOf, UsagesIn, Sorted;
    TwoNamesShareADefault(number);
    var a, b := TokenUsage(4, Some(Span(12, 12)), ALL), TokenUsage(10, Some(Span(12, 12)), ALL);
    assert [a, b][..1] == [a] && [a][..0] == [];
    assert HolesOf([a], ALL) == [NAME_A, NUMBER];
    SortedFour(NAME_A, NAME_B, NUMBER);
  }

  lemma {:induction false} BlocksOfFour(a: Hole, b: Hole, c: Hole)
    requires a.first < b.first < c.first
    ensures Blocks([c, c, b, a]) == [a, b, c] && Runs([c, c, b, a]) == [1, 1, 2]
  {
    assert Alikes([a]) == 1 && [a][1..] == [];
    assert Blocks([a]) == [a] && Runs([a]) == [1];
    assert [b, a][1..] == [a] && Alikes([b, a]) == 1;
    assert Blocks([b, a]) == [a, b] && Runs([b, a]) == [1, 1];
    assert [c, c, b, a][1..] == [c, b, a] && Alikes([c, b, a]) == 1 && Alikes([c, c, b, a]) == 2;
    assert [c, c, b, a][2..] == [b, a];
  }

  /** The text of the conditional with its names and its default replaced. */
  function ConditionalText(number: string): string
    requires IsNumber(number)
  {
    var ws := Conditional(number);
    WordsLie(ws, []);
    assert Whole(ws, []) == TextOf(ws);
    NormalizedText(TextOf(ws), TokensOf(ws), ALL)
  }

  /** A shorter number in `process.env.A ? process.env.B || 5 : c` changes the normalized text. */
  lemma SharedDefaultShows(a: string, b: string)
    requires IsNumber(a) && IsNumber(b) && |a| < |b| <= |DEFAULT|
    ensures ConditionalText(a) != ConditionalText(b)
  {
    hide TextOf, TokensOf, NormalizedText, LieIn, InsideIn, BehindIn, HolesIn, Blocks, Runs, Width, Splice, Placed;
    var v, w := Conditional(a), Conditional(b);
    ConditionalHoles(a);
    ConditionalHoles(b);
    BlocksOfFour(NAME_A, NAME_B, NUMBER);
    assert |ENV| != |DEFAULT|;
    NumberWidth(a);
    NumberWidth(b);
    TwinConditionals(a, b);
    EmptyTail(v, ALL);
    EmptyTail(w, ALL);
    NarrowerShows(v, w, [], ALL, 2);
    assert Whole(v, []) == TextOf(v) && Whole(w, []) == TextOf(w);
  }

  lemma EmptyTail(ws: seq<Word>, o: Owner)
    requires o.stop <= |ws|
    ensures Tail(ws, [], o) == []
  {
    hide TextOf;
    assert Placed(TokensOf(ws), [], StartOrEnd(ws, o.stop)) == [];
  }

  lemma NumberWidth(number: string)
    ensures Width(Conditional(number), NUMBER) == |number|
  {
    hide TextOf;
    EndOfOneMore(Conditional(number), 12);
  }

  lemma TwinConditionals(a: string, b: string)
    ensures forall k :: 0 <= k < 15 ==> SameOutside(Conditional(a), Conditional(b), [NAME_A, NUMBER, NAME_B, NUMBER], k)
  {
    assert Holds(NUMBER, 12) && NUMBER in [NAME_A, NUMBER, NAME_B, NUMBER];
    assert InHole([NAME_A, NUMBER, NAME_B, NUMBER], 12);
  }

  // ---- A sign that ends a search ------------------------------------------------------------------

  function Getter(): string { "getEnvironmentVariable" }

  /** `process.env.A ? getEnvironmentVariable('B',` */
  const START := [
    Word("", "process", L.Identifier, "process", 0), Word("", ".", L.Punctuation, ".", 0),
    Word("", "env", L.Identifier, "env", 0), Word("", ".", L.Punctuation, ".", 0), Word("", "A", L.Identifier, "A", 0),
    Word(" ", "?", L.Operator, "?", 0), Word(" ", Getter(), L.Identifier, Getter(), 0),
    Word("", "(", L.Punctuation, "(", 0), Word("", "'B'", L.StringLiteral, "B", 1), Word("", ",", L.Punctuation, ",", 1)]

  /** `) || 7 : c` */
  const REST := [
    Word("", ")", L.Punctuation, ")", 0), Word(" ", "||", L.Operator, "||", 0), Word(" ", "7", L.Number, "7", 0),
    Word(" ", ":", L.Punctuation, ":", 0), Word(" ", "c", L.Identifier, "c", 0)]

  const MINUS := Word(" ", "-", L.Operator, "-", 1)

  /** `process.env.A ? getEnvironmentVariable('B', 5) || 7 : c`, or with `-5` when it is negative. */
  function Call(negative: bool): seq<Word> {
    START + (if negative then [MINUS, Word("", "5", L.Number, "5", 1)] else [Word(" ", "5", L.Number, "5", 1)]) + REST
  }

  /** Where the five and the closing bracket stand. */
  function FiveAt(negative: bool): nat { if negative then 11 else 10 }

  predicate IsCall(ws: seq<Word>, negative: bool) {
    var five := FiveAt(negative);
    && |ws| == five + 6 && (forall k :: 0 <= k < 10 ==> ws[k] == START[k])
    && (negative ==> ws[10] == MINUS) && ws[five] == Word(if negative then "" else " ", "5", L.Number, "5", 1)
    && forall k :: 0 <= k < 5 ==> ws[five + 1 + k] == REST[k]
  }

  lemma CallIsCall(negative: bool)
    ensures IsCall(Call(negative), negative)
  {}

  lemma StartIsSolid(k: nat)
    requires k < 10
    ensures START[k].text != [] && START[k].value != "=" && START[k].depth == (if k < 8 then 0 else 1)
    ensures START[k].kind == L.Punctuation ==> START[k].text in {".", "(", ","} && START[k].value == START[k].text
    ensures START[k].text == "(" <==> k == 7
  {}

  lemma RestIsSolid(k: nat)
    requires k < 5
    ensures REST[k].text != [] && REST[k].value != "=" && REST[k].depth == 0
    ensures REST[k].kind == L.Punctuation ==> REST[k].text in {")", ":"} && REST[k].value == REST[k].text
    ensures REST[k].text == ")" <==> k == 0
  {}

  lemma CallIsSolid(ws: seq<Word>, negative: bool)
    requires IsCall(ws, negative)
    ensures Solid(ws)
  {
    var five := FiveAt(negative);
    forall k | 0 <= k < |ws| ensures ws[k].text != [] {
      if k < 10 { StartIsSolid(k); } else if k > five { RestIsSolid(k - five - 1); assert ws[k] == REST[k - five - 1]; }
    }
  }

  /** Tokens with one pair of brackets, from `a` to `b`. */
  predicate OneCall(tokens: Tokens, a: nat, b: nat) {
    && a < b < |tokens| && IsMark(tokens[a], {"("}) && IsMark(tokens[b], {")"})
    && forall k :: 0 <= k < |tokens| ==>
      tokens[k].value != "=" && tokens[k].depth == (if a < k < b then 1 else 0) && (k != a && k != b ==> !L.Opens(tokens[k]) && !L.Closes(tokens[k]))
  }

  lemma {:induction false} StackOfCall(tokens: Tokens, a: nat, b: nat, k: nat)
    requires OneCall(tokens, a, b) && k <= |tokens|
    ensures L.Stack(tokens, k) == if a < k <= b then ['('] else []
  {
    if k > 0 { StackOfCall(tokens, a, b, k - 1); }
  }

  lemma CallIsWellFormed(tokens: Tokens, a: nat, b: nat)
    requires OneCall(tokens, a, b)
    ensures L.DepthsRecorded(tokens) && L.WellFormed(tokens, true)
  {
    forall k | 0 <= k <= |tokens| ensures L.Stack(tokens, k) == if a < k <= b then ['('] else [] { StackOfCall(tokens, a, b, k); }
    forall k | 0 <= k < |tokens| ensures tokens[k].depth == L.DepthAt(tokens, k) && L.MatchedAt(tokens, k) {}
  }

  lemma CallHasOneCall(ws: seq<Word>, negative: bool)
    requires IsCall(ws, negative)
    ensures OneCall(TokensOf(ws), 7, FiveAt(negative) + 1)
  {
    hide TextOf;
    var five, tokens := FiveAt(negative), TokensOf(ws);
    assert ws[five + 1] == REST[0];
    forall k | 0 <= k < |ws|
      ensures tokens[k].value != "=" && tokens[k].depth == (if 7 < k < five + 1 then 1 else 0)
      ensures k != 7 && k != five + 1 ==> !L.Opens(tokens[k]) && !L.Closes(tokens[k])
    {
      if k < 10 { StartIsSolid(k); } else if k > five { RestIsSolid(k - five - 1); assert ws[k] == REST[k - five - 1]; }
    }
  }

  lemma StartIsSimple(ws: seq<Word>, k: nat, decode: string -> string)
    requires |ws| > 10 && Solid(ws) && (forall k :: 0 <= k < 10 ==> ws[k] == START[k]) && k < 10 && decode("B") == "B"
    requires ws[10].gap == " "
    ensures IsSimple(ws[k], CharBehind(ws, k), decode)
  {
    hide IsSimple;
    var behind := CharBehind(ws, k);
    assert ws[k] == START[k] && (k < 9 ==> ws[k + 1] == START[k + 1]);
    if k in {0, 2, 4, 6} { NameIsSimple(START[k], behind, decode); }
    else if k == 8 { LetterIsSimple(behind, decode); }
    else { SymbolIsSimple(START[k], behind, decode); }
  }

  lemma NameIsSimple(w: Word, behind: Option<char>, decode: string -> string)
    requires w.kind == L.Identifier && w.value == w.text && w.text in {"process", "env", "A", Getter(), "c"}
    requires behind.Some? ==> behind.value in ".( "
    ensures IsSimple(w, behind, decode)
  {
    GetterIsName();
  }

  lemma GetterIsName()
    ensures forall k :: 0 <= k < |Getter()| ==> IsLetter(Getter()[k])
  {}

  lemma LetterIsSimple(behind: Option<char>, decode: string -> string)
    requires decode("B") == "B"
    ensures IsSimple(START[8], behind, decode)
  {
    assert "'B'"[1..2] == "B";
  }

  lemma SymbolIsSimple(w: Word, behind: Option<char>, decode: string -> string)
    requires w.value == w.text
    requires (w.kind == L.Punctuation && w.text in {".", "(", ")", ",", ":"})
      || (w.kind == L.Operator && w.text in {"?", "||"} && behind == Some(' ')) || (w.kind == L.Number && w.text == "7" && behind == Some(' '))
    ensures IsSimple(w, behind, decode)
  {}

  lemma RestIsSimple(ws: seq<Word>, n: nat, k: nat, decode: string -> string)
    requires |ws| == n + 5 && Solid(ws) && (forall k :: 0 <= k < 5 ==> ws[n + k] == REST[k]) && k < 5
    ensures IsSimple(ws[n + k], CharBehind(ws, n + k), decode)
  {
    hide IsSimple;
    var behind := CharBehind(ws, n + k);
    assert ws[n + k] == REST[k];
    if k < 4 {
      assert ws[n + (k + 1)] == REST[k + 1];
      SymbolIsSimple(REST[k], behind, decode);
    } else {
      NameIsSimple(REST[k], behind, decode);
    }
  }

  /** The words of the call are the tokens of its text. */
  lemma CallTokenized(negative: bool, decode: string -> string)
    requires decode("B") == "B"
    ensures L.Tokenized(TextOf(Call(negative)), decode, TokensOf(Call(negative)), true)
  {
    hide TextOf, L.DepthsRecorded, L.WellFormed, L.Tokenized, IsSimple, CharBehind, Call;
    var ws, five := Call(negative), FiveAt(negative);
    CallIsCall(negative);
    CallIsSolid(ws, negative);
    forall k | 0 <= k < |ws| ensures IsSimple(ws[k], CharBehind(ws, k), decode) {
      if k < 10 { StartIsSimple(ws, k, decode); }
      else if k > five { RestIsSimple(ws, five + 1, k - five - 1, decode); }
      else { ArgumentIsSimple(ws, negative, k, decode); }
    }
    CallHasOneCall(ws, negative);
    CallIsWellFormed(TokensOf(ws), 7, five + 1);
    BlankGaps(ws, negative);
    SimpleWordsAreTokens(ws, decode);
  }

  lemma ArgumentIsSimple(ws: seq<Word>, negative: bool, k: nat, decode: string -> string)
    requires IsCall(ws, negative) && Solid(ws) && 10 <= k <= FiveAt(negative)
    ensures IsSimple(ws[k], CharBehind(ws, k), decode)
  {
    assert ws[FiveAt(negative) + 1] == REST[0];
  }

  lemma BlankGaps(ws: seq<Word>, negative: bool)
    requires IsCall(ws, negative)
    ensures forall k, j :: 0 <= k < |ws| && 0 <= j < |ws[k].gap| ==> ws[k].gap[j] == ' '
  {
    var five := FiveAt(negative);
    forall k | 0 <= k < |ws| ensures ws[k].gap in {"", " "} {
      if k > five { assert ws[k] == REST[k - five - 1]; }
    }
  }

  lemma GetterIsHelper(t: L.Token)
    requires t.kind == L.Identifier && t.value == Getter()
    ensures IsHelper(t)
  {
    assert StartsWith(t.value, 3, HELPER);
  }

  /** A name handed to a helper adds its reference. */
  lemma HelperAt(tokens: Tokens, i: nat)
    requires i + 2 < |tokens| && tokens[i].kind == L.Identifier && tokens[i].value == Getter()
    requires Is(tokens, i + 1, L.Punctuation, "(") && IsLiteralName(tokens[i + 2])
    ensures References(tokens, i + 1) == References(tokens, i) + [Reference(i + 2, i, i + 2, true)]
  {
    hide IsHelper, IsLiteralName;
    GetterIsHelper(tokens[i]);
  }

  lemma CallStartsTwo(ws: seq<Word>, negative: bool)
    requires IsCall(ws, negative)
    ensures forall i :: 0 <= i < |ws| && i != 0 && i != 6 ==> StartsNone(TokensOf(ws)[i])
  {
    hide TextOf, Start, End;
    var five := FiveAt(negative);
    forall i | 0 <= i < |ws| && i != 0 && i != 6 ensures StartsNone(TokensOf(ws)[i]) {
      if i > five { assert ws[i] == REST[i - five - 1]; }
    }
  }

  lemma CallReferences(ws: seq<Word>, negative: bool)
    requires IsCall(ws, negative)
    ensures References(TokensOf(ws), |ws|) == [Reference(4, 0, 4, false), Reference(8, 6, 8, true)]
  {
    hide TextOf, References, Start, End, StartsNone;
    var tokens := TokensOf(ws);
    CallStartsTwo(ws, negative);
    NamesOfCall(ws, negative);
    SkipReferences(tokens, 1, 6);
    SkipReferences(tokens, 7, |ws|);
    NoReferences(tokens);
  }

  lemma NamesOfCall(ws: seq<Word>, negative: bool)
    requires IsCall(ws, negative)
    ensures References(TokensOf(ws), 1) == References(TokensOf(ws), 0) + [Reference(4, 0, 4, false)]
    ensures References(TokensOf(ws), 7) == References(TokensOf(ws), 6) + [Reference(8, 6, 8, true)]
  {
    hide TextOf, References, Start, End;
    EnvironmentAt(TokensOf(ws), 0);
    HelperAt(TokensOf(ws), 6);
  }

  /** What the name's search finds: the 7, unless a sign ends it before. */
  function Found(negative: bool): Option<Span> { if negative then None else Some(Span(13, 13)) }

  lemma SearchOfCall(ws: seq<Word>, negative: bool)
    requires IsCall(ws, negative)
    ensures DefaultFrom(TokensOf(ws), 5, 16, 0) == Found(negative)
  {
    hide TextOf, Start, End;
    var tokens := TokensOf(ws);
    if negative {
      SkipSearch(tokens, 5, 10, 16, 0);
    } else {
      assert ws[11] == REST[0] && ws[12] == REST[1] && ws[13] == REST[2];
      SkipSearch(tokens, 5, 12, 16, 0);
    }
  }

  lemma ArgumentOfCall(ws: seq<Word>, negative: bool)
    requires IsCall(ws, negative)
    ensures HelperArgumentDefault(TokensOf(ws), 8) == Some(Span(10, FiveAt(negative)))
  {
    hide TextOf, Start, End, Ordered, TokenFrom;
    var tokens, five := TokensOf(ws), FiveAt(negative);
    CallIsSolid(ws, negative);
    TokensOrdered(ws);
    NextIsBehind(tokens, 8, Span(10, five));
    assert ws[five + 1] == REST[0];
  }

  function AllOf(negative: bool): Owner { Owner(0, FiveAt(negative) + 6) }

  lemma OwnersOfCall(ws: seq<Word>, negative: bool)
    requires IsCall(ws, negative)
    ensures OwnerOf(TokensOf(ws), 0) == OwnerOf(TokensOf(ws), 6) == AllOf(negative)
  {
    hide TextOf, Start, End, OwnerOf;
    var tokens, five := TokensOf(ws), FiveAt(negative);
    forall i | 0 <= i < |tokens| ensures !EndsStatement(tokens[i], 0, 0) {
      if i > five { assert ws[i] == REST[i - five - 1]; }
    }
    OwnerIsAll(tokens, 0);
    OwnerIsAll(tokens, 6);
  }

  /** A helper's argument is the default of its name; a sign in it hides the 7 from the other name. */
  lemma SignEndsSearch(ws: seq<Word>, negative: bool)
    requires IsCall(ws, negative)
    ensures UsagesIn(TokensOf(ws))
      == [TokenUsage(4, Found(negative), AllOf(negative)), TokenUsage(8, Some(Span(10, FiveAt(negative))), AllOf(negative))]
  {
    hide TextOf, References, Start, End, DefaultFrom, HelperArgumentDefault, OwnerOf, UsagesIn;
    CallReferences(ws, negative);
    SearchOfCall(ws, negative);
    ArgumentOfCall(ws, negative);
    OwnersOfCall(ws, negative);
    TwoUsages(TokensOf(ws), Reference(4, 0, 4, false), Reference(8, 6, 8, true));
  }

  // ---- Its normalized text ---------------------------------------------------------------------------

  const LETTER := Hole(8, 8, ENV)
  const SEVEN := Hole(13, 13, DEFAULT)

  function Five(negative: bool): Hole { Hole(10, FiveAt(negative), DEFAULT) }

  function HolesOfCall(negative: bool): seq<Hole> {
    if negative then [NAME_A, LETTER, Five(negative)] else [NAME_A, SEVEN, LETTER, Five(negative)]
  }

  lemma CallHoles(ws: seq<Word>, negative: bool)
    requires IsCall(ws, negative)
    ensures HolesIn(TokensOf(ws), AllOf(negative)) == HolesOfCall(negative)
  {
    hide TextOf, UsagesIn;
    SignEndsSearch(ws, negative);
    var o := AllOf(negative);
    var a, b := TokenUsage(4, Found(negative), o), TokenUsage(8, Some(Span(10, FiveAt(negative))), o);
    assert [a, b][..1] == [a] && [a][..0] == [];
    assert HolesOf([], o) == [];
    assert HolesOf([a], o) == HolesOfUsage(a);
  }

  lemma NoneIn(hs: seq<Hole>)
    ensures hs == [] || hs[0] in hs
  {}

  /** Distinct holes, all of them in the owner. */
  lemma HolesOnceInside(ws: seq<Word>, o: Owner)
    requires IsOwner(TokensOf(ws), o)
    requires var hs := HolesIn(TokensOf(ws), o); NoRepeats(hs) && forall h :: h in hs ==> h.first < o.stop
    ensures BehindIn(ws, o) == [] && NoRepeats(InsideIn(ws, o))
  {
    hide HolesIn, BehindIn, InsideIn, Sorted;
    Split(ws, o);
    SortedHoles(HolesIn(TokensOf(ws), o));
    NoneIn(BehindIn(ws, o));
    assert SortedIn(ws, o) == InsideIn(ws, o);
  }

  lemma PlainInCall(negative: bool, k: nat)
    ensures InHole(HolesOfCall(negative), k) <==> k in {4, 8} || 10 <= k <= FiveAt(negative) || (k == 13 && !negative)
    ensures IsInner(HolesOfCall(negative), k) <==> negative && k == 11
  {
    var hs := HolesOfCall(negative);
    assert Holds(NAME_A, 4) && Holds(LETTER, 8) && Holds(Five(negative), 10) && Holds(Five(negative), FiveAt(negative)) && Holds(SEVEN, 13);
    assert NAME_A in hs && LETTER in hs && Five(negative) in hs && (!negative ==> SEVEN in hs);
  }

  lemma {:induction false} MarkedCut(ws: seq<Word>, hs: seq<Hole>, i: nat, j: nat, k: nat)
    requires i <= j <= k <= |ws|
    ensures Marked(ws, hs, i, k) == Marked(ws, hs, i, j) + Marked(ws, hs, j, k)
    decreases k
  {
    hide Shown, ShownGap;
    if j < k {
      MarkedCut(ws, hs, i, j, k - 1);
      Regroup(Marked(ws, hs, i, j), Marked(ws, hs, j, k - 1), Shown(ws, hs, k - 1) + ShownGap(ws, hs, k));
    }
  }

  /** A word of the call that is no hole's. */
  lemma NextWord(ws: seq<Word>, negative: bool, i: nat, k: nat, before: string)
    requires IsCall(ws, negative) && i <= k < |ws| && k !in {4, 8} && !(10 <= k <= FiveAt(negative)) && (k == 13 ==> negative)
    requires Marked(ws, HolesOfCall(negative), i, k) == before
    ensures Marked(ws, HolesOfCall(negative), i, k + 1) == before + WordAndGap(ws, k)
  {
    hide InHole, IsInner, Marked, WordAndGap, Shown, ShownGap;
    PlainInCall(negative, k);
    PlainInCall(negative, k + 1);
    MarkedStep(ws, HolesOfCall(negative), i, k);
    ShownPlain(ws, HolesOfCall(negative), k);
  }

  lemma CallApart(negative: bool)
    ensures var hs := HolesOfCall(negative); AllApart(hs) && forall h :: h in hs ==> IsShort(h)
  {}

  /** A hole of the call. */
  lemma NextHole(ws: seq<Word>, negative: bool, i: nat, h: Hole, before: string)
    requires IsCall(ws, negative) && h in HolesOfCall(negative) && i <= h.first <= h.last < |ws|
    requires Marked(ws, HolesOfCall(negative), i, h.first) == before
    ensures Marked(ws, HolesOfCall(negative), i, h.last + 1) == before + (h.marker + (if h.last + 1 < |ws| then ws[h.last + 1].gap else []))
  {
    hide AllApart, Marked;
    CallApart(negative);
    HoleShows(ws, HolesOfCall(negative), h, i);
  }

  lemma MarkedFirst(ws: seq<Word>, negative: bool)
    requires IsCall(ws, negative)
    ensures Marked(ws, HolesOfCall(negative), 0, 5) == "process.env.<ENV> "
  {
    hide Marked, HolesOfCall;
    HolesOfBoth(negative);
    NoneMarked(ws, HolesOfCall(negative), 0);
    NextWord(ws, negative, 0, 0, "");
    NextWord(ws, negative, 0, 1, "process");
    NextWord(ws, negative, 0, 2, "process.");
    NextWord(ws, negative, 0, 3, "process.env");
    NextHole(ws, negative, 0, NAME_A, "process.env.");
  }

  lemma MarkedCall(ws: seq<Word>, negative: bool)
    requires IsCall(ws, negative)
    ensures Marked(ws, HolesOfCall(negative), 5, 8) == "? " + Getter() + "("
  {
    hide Marked, HolesOfCall, Getter;
    NoneMarked(ws, HolesOfCall(negative), 5);
    NextWord(ws, negative, 5, 5, "");
    NextWord(ws, negative, 5, 6, "? ");
    NextWord(ws, negative, 5, 7, "? " + Getter());
  }

  lemma HolesOfBoth(negative: bool)
    ensures NAME_A in HolesOfCall(negative) && LETTER in HolesOfCall(negative) && Five(negative) in HolesOfCall(negative)
    ensures !negative ==> SEVEN in HolesOfCall(negative)
  {}

  lemma MarkedArgument(ws: seq<Word>, negative: bool)
    requires IsCall(ws, negative)
    ensures Marked(ws, HolesOfCall(negative), 8, 10) == "<ENV>, "
    ensures Marked(ws, HolesOfCall(negative), 10, FiveAt(negative) + 3) == "<DEFAULT>) || "
  {
    hide Marked, HolesOfCall;
    var five := FiveAt(negative);
    assert ws[five + 1] == REST[0] && ws[five + 2] == REST[1] && ws[five + 3] == REST[2];
    HolesOfBoth(negative);
    NoneMarked(ws, HolesOfCall(negative), 8);
    NextHole(ws, negative, 8, LETTER, "");
    NextWord(ws, negative, 8, 9, "<ENV>");
    NoneMarked(ws, HolesOfCall(negative), 10);
    NextHole(ws, negative, 10, Five(negative), "");
    NextWord(ws, negative, 10, five + 1, "<DEFAULT>");
    NextWord(ws, negative, 10, five + 2, "<DEFAULT>) ");
  }

  lemma LastWords(ws: seq<Word>, negative: bool)
    requires IsCall(ws, negative)
    ensures var five := FiveAt(negative);
      |ws| == five + 6 && forall k :: five < k < |ws| ==> ws[k] == REST[k - five - 1]
  {
    var five := FiveAt(negative);
    forall k | five < k < |ws| ensures ws[k] == REST[k - five - 1] { assert ws[five + 1 + (k - five - 1)] == REST[k - five - 1]; }
  }

  lemma MarkedEnd(ws: seq<Word>, negative: bool)
    requires IsCall(ws, negative)
    ensures Marked(ws, HolesOfCall(negative), FiveAt(negative) + 4, |ws|) == ": c"
  {
    hide Marked, HolesOfCall, IsCall;
    var five := FiveAt(negative);
    LastWords(ws, negative);
    NoneMarked(ws, HolesOfCall(negative), five + 4);
    NextWord(ws, negative, five + 4, five + 4, "");
    NextWord(ws, negative, five + 4, five + 5, ": ");
  }

  lemma MarkedSeven(ws: seq<Word>, negative: bool)
    requires IsCall(ws, negative)
    ensures Marked(ws, HolesOfCall(negative), FiveAt(negative) + 3, FiveAt(negative) + 4) == if negative then "7 " else "<DEFAULT> "
  {
    hide Marked, HolesOfCall;
    var five := FiveAt(negative);
    assert ws[five + 3] == REST[2] && ws[five + 4] == REST[3];
    HolesOfBoth(negative);
    NoneMarked(ws, HolesOfCall(negative), five + 3);
    if negative { NextWord(ws, negative, five + 3, five + 3, ""); } else { NextHole(ws, negative, five + 3, SEVEN, ""); }
  }

  const FRONT := "process.env.<ENV> " + ("? " + Getter() + "(") + "<ENV>, " + "<DEFAULT>) || "

  lemma MarkedPieces(ws: seq<Word>, hs: seq<Hole>, five: nat)
    requires 10 <= five && |ws| == five + 6
    ensures Marked(ws, hs, 0, |ws|)
      == Marked(ws, hs, 0, 5) + Marked(ws, hs, 5, 8) + Marked(ws, hs, 8, 10) + Marked(ws, hs, 10, five + 3)
        + Marked(ws, hs, five + 3, five + 4) + Marked(ws, hs, five + 4, |ws|)
  {
    hide Marked;
    MarkedCut(ws, hs, 0, 5, 8);
    MarkedCut(ws, hs, 0, 8, 10);
    MarkedCut(ws, hs, 0, 10, five + 3);
    MarkedCut(ws, hs, 0, five + 3, five + 4);
    MarkedCut(ws, hs, 0, five + 4, |ws|);
  }

  /** The call with its names and defaults marked. */
  lemma CallMarked(ws: seq<Word>, negative: bool)
    requires IsCall(ws, negative)
    ensures Marked(ws, HolesOfCall(negative), 0, |ws|) == FRONT + (if negative then "7 " else "<DEFAULT> ") + ": c"
  {
    hide Marked, HolesOfCall, IsCall;
    assert |ws| == FiveAt(negative) + 6 by { CallLength(ws, negative); }
    MarkedPieces(ws, HolesOfCall(negative), FiveAt(negative));
    MarkedFirst(ws, negative);
    MarkedCall(ws, negative);
    MarkedArgument(ws, negative);
    MarkedSeven(ws, negative);
    MarkedEnd(ws, negative);
  }

  lemma CallLength(ws: seq<Word>, negative: bool)
    requires IsCall(ws, negative)
    ensures |ws| == FiveAt(negative) + 6
  {}

  /** What the normalized text of the call is made from: a sign keeps the 7 from being replaced. */
  lemma NormalizedCall(negative: bool)
    ensures var ws := Call(negative);
      && IsOwner(TokensOf(ws), AllOf(negative)) && LieIn(TokensOf(ws), TextOf(ws))
      && NormalizedText(TextOf(ws), TokensOf(ws), AllOf(negative))
        == Tidy(FRONT + (if negative then "7 " else "<DEFAULT> ") + ": c")
  {
    hide TextOf, TokensOf, Call, HolesIn, Marked, IsCall, Tidy, NormalizedText, LieIn, BehindIn, InsideIn, HolesOfCall, Tail;
    var ws, o := Call(negative), AllOf(negative);
    CallIsCall(negative);
    CallIsSolid(ws, negative);
    CallLength(ws, negative);
    CallHoles(ws, negative);
    CallHolesOnce(negative);
    HolesOnceInside(ws, o);
    NormalizedIsMarked(ws, [], o);
    CallMarked(ws, negative);
    EmptyTail(ws, o);
    assert Whole(ws, []) == TextOf(ws);
    NoneAdded(Marked(ws, HolesOfCall(negative), 0, |ws|));
  }

  lemma NoneAdded(s: string)
    ensures s + [] == s
  {}

  lemma CallHolesOnce(negative: bool)
    ensures NoRepeats(HolesOfCall(negative)) && forall h :: h in HolesOfCall(negative) ==> h.first < FiveAt(negative) + 6
  {}

  /** The normalized text of the call. */
  function CallText(negative: bool): string {
    NormalizedCall(negative);
    NormalizedText(TextOf(Call(negative)), TokensOf(Call(negative)), AllOf(negative))
  }

  /** Changing 5 to -5 in the call changes its normalized text, although each default is replaced once. */
  lemma SignShows()
    ensures ReplacesOnce(Call(false), AllOf(false)) && ReplacesOnce(Call(true), AllOf(true))
    ensures CallText(false) != CallText(true)
  {
    hide TextOf, TokensOf, Call, NormalizedText, Tidy, BehindIn, InsideIn;
    NormalizedCall(false);
    NormalizedCall(true);
    OneTextIsLonger();
    CallReplacesOnce(false);
    CallReplacesOnce(true);
  }

  lemma CallReplacesOnce(negative: bool)
    ensures ReplacesOnce(Call(negative), AllOf(negative))
  {
    hide TextOf, TokensOf, Call, HolesIn, IsCall, BehindIn, InsideIn, HolesOfCall;
    var ws, o := Call(negative), AllOf(negative);
    CallIsCall(negative);
    CallLength(ws, negative);
    CallHoles(ws, negative);
    CallHolesOnce(negative);
    HolesOnceInside(ws, o);
  }

  lemma OneTextIsLonger()
    ensures Tidy(FRONT + "<DEFAULT> " + ": c") != Tidy(FRONT + "7 " + ": c")
  {
    hide Ink, Tidy;
    var front, end := FRONT, ": c";
    TidyKeepsInk(front + "<DEFAULT> " + end);
    TidyKeepsInk(front + "7 " + end);
    InkAdds(front + "<DEFAULT> ", end);
    InkAdds(front + "7 ", end);
    InkAdds(front, "<DEFAULT> ");
    InkAdds(front, "7 ");
    InkBound("7 ");
    InkAdds(DEFAULT, " ");
    MarkersAreInk();
    assert DEFAULT + " " == "<DEFAULT> ";
  }

  // ---- How the two are spelled --------------------------------------------------------------------

  lemma NextStretch(ws: seq<Word>, i: nat, k: nat, before: string)
    requires i <= k < |ws| && Stretch(ws, i, k) == before
    ensures Stretch(ws, i, k + 1) == before + (ws[k].gap + ws[k].text)
  {}

  lemma SpelledEnvironment(ws: seq<Word>, i: nat)
    requires i + 4 <= |ws| && ws[i].text == "process" && ws[i + 1] == START[1] && ws[i + 2] == START[2] && ws[i + 3] == START[3]
    ensures Stretch(ws, i, i + 4) == ws[i].gap + "process.env."
  {
    hide Stretch, Getter;
    assert Stretch(ws, i, i) == "" by { EmptyStretch(ws, i); }
    NextStretch(ws, i, i, "");
    NextStretch(ws, i, i + 1, ws[i].gap + "process");
    NextStretch(ws, i, i + 2, ws[i].gap + "process.");
    NextStretch(ws, i, i + 3, ws[i].gap + "process.env");
  }

  lemma SpelledPair(ws: seq<Word>, i: nat)
    requires i + 2 <= |ws| && ws[i].gap == ""
    ensures Stretch(ws, i, i + 2) == ws[i].text + (ws[i + 1].gap + ws[i + 1].text)
  {
    hide Stretch;
    assert Stretch(ws, i, i) == "" by { EmptyStretch(ws, i); }
    NextStretch(ws, i, i, "");
    NextStretch(ws, i, i + 1, ws[i].text);
  }

  lemma SpelledStart(ws: seq<Word>)
    requires |ws| >= 6 && forall k :: 0 <= k < 6 ==> ws[k] == START[k]
    ensures TextOf(ws[..6]) == "process.env." + "A ?"
  {
    hide TextOf, Stretch, Getter;
    SpelledEnvironment(ws, 0);
    SpelledPair(ws, 4);
    NoText();
    assert ws[..0] == [];
    TextByStretch(ws, 0, 4);
    TextByStretch(ws, 4, 6);
  }

  lemma EmptyStretch(ws: seq<Word>, i: nat)
    requires i <= |ws|
    ensures Stretch(ws, i, i) == []
  {}

  lemma SpelledCall(ws: seq<Word>, negative: bool)
    requires IsCall(ws, negative)
    ensures Stretch(ws, 6, 7) == " " + Getter() && Stretch(ws, 7, 10) == "('B',"
  {
    hide Stretch, Getter;
    assert Stretch(ws, 6, 6) == "" by { EmptyStretch(ws, 6); }
    NextStretch(ws, 6, 6, "");
    assert Stretch(ws, 7, 7) == "" by { EmptyStretch(ws, 7); }
    NextStretch(ws, 7, 7, "");
    NextStretch(ws, 7, 8, "(");
    NextStretch(ws, 7, 9, "('B'");
  }

  lemma SpelledArgument(ws: seq<Word>, negative: bool)
    requires IsCall(ws, negative)
    ensures Stretch(ws, 10, FiveAt(negative) + 1) == if negative then " -5" else " 5"
  {
    hide Stretch;
    assert Stretch(ws, 10, 10) == "" by { EmptyStretch(ws, 10); }
    NextStretch(ws, 10, 10, "");
    if negative { NextStretch(ws, 10, 11, " -"); }
  }

  lemma SpelledSeven(ws: seq<Word>, i: nat)
    requires i + 3 <= |ws| && ws[i] == REST[0] && ws[i + 1] == REST[1] && ws[i + 2] == REST[2]
    ensures Stretch(ws, i, i + 3) == ") || 7"
  {
    hide Stretch;
    assert Stretch(ws, i, i) == "" by { EmptyStretch(ws, i); }
    NextStretch(ws, i, i, "");
    NextStretch(ws, i, i + 1, ")");
    NextStretch(ws, i, i + 2, ") ||");
  }

  lemma SpelledEnd(ws: seq<Word>, i: nat)
    requires i + 2 <= |ws| && ws[i] == REST[3] && ws[i + 1] == REST[4]
    ensures Stretch(ws, i, i + 2) == " : c"
  {
    hide Stretch;
    assert Stretch(ws, i, i) == "" by { EmptyStretch(ws, i); }
    NextStretch(ws, i, i, "");
    NextStretch(ws, i, i + 1, " :");
  }

  lemma StartOfCall(ws: seq<Word>, negative: bool)
    requires IsCall(ws, negative)
    ensures |ws| > 10 && forall k :: 0 <= k < 10 ==> ws[k] == START[k]
  {}

  /** How the call is spelled. */
  lemma CallSpelled(negative: bool)
    ensures TextOf(Call(negative))
      == "process.env." + "A ?" + (" " + Getter()) + "('B'," + (if negative then " -5" else " 5") + ") || 7" + " : c"
  {
    hide TextOf, Stretch, Call, IsCall;
    var ws, five := Call(negative), FiveAt(negative);
    CallIsCall(negative);
    CallLength(ws, negative);
    StartOfCall(ws, negative);
    SpelledStart(ws);
    SpelledCall(ws, negative);
    SpelledArgument(ws, negative);
    LastWords(ws, negative);
    SpelledSeven(ws, five + 1);
    SpelledEnd(ws, five + 4);
    assert ws[..|ws|] == ws;
    TextByStretch(ws, 6, 7);
    TextByStretch(ws, 7, 10);
    TextByStretch(ws, 10, five + 1);
    TextByStretch(ws, five + 1, five + 4);
    TextByStretch(ws, five + 4, |ws|);
  }

  lemma SpelledNumber(number: string)
    ensures Stretch(Conditional(number), 12, 13) == " " + number && Stretch(Conditional(number), 13, 15) == " : c"
  {
    hide Stretch;
    var ws := Conditional(number);
    assert Stretch(ws, 12, 12) == "" by { EmptyStretch(ws, 12); }
    NextStretch(ws, 12, 12, "");
    assert Stretch(ws, 13, 13) == "" by { EmptyStretch(ws, 13); }
    NextStretch(ws, 13, 13, "");
    NextStretch(ws, 13, 14, " :");
  }

  /** How the conditional is spelled. */
  lemma ConditionalSpelled(number: string)
    ensures TextOf(Conditional(number)) == "process.env." + "A ?" + (" " + "process.env.") + "B ||" + (" " + number) + " : c"
  {
    hide TextOf, Stretch;
    var ws := Conditional(number);
    SpelledStart(ws);
    SpelledEnvironment(ws, 6);
    SpelledPair(ws, 10);
    SpelledNumber(number);
    assert ws[..15] == ws;
    TextByStretch(ws, 6, 10);
    TextByStretch(ws, 10, 12);
    TextByStretch(ws, 12, 13);
    TextByStretch(ws, 13, 15);
  }
}
