/**
 What the search for usages in scripts/release-safety-config-diff.ts finds, spelled out over
 token positions: references, defaults and owners.
 */
module UsageMeaning {
  import opened Options
  import opened JsText
  import opened TokenSpelling
  import opened ConfigUsages
  import opened SourceWords
  import opened UsageTwins
  import L = Lexer

  // ---- References -------------------------------------------------------------------------

  ghost predicate IsUpperCase(s: string) {
    && s != [] && 'A' <= s[0] <= 'Z'
    && forall k :: 0 <= k < |s| ==> 'A' <= s[k] <= 'Z' || '0' <= s[k] <= '9' || s[k] == '_'
  }

  /** A literal without placeholders that spells a name in upper case. */
  ghost predicate IsQuotedName(tokens: Tokens, k: int) {
    0 <= k < |tokens| && tokens[k].kind in {L.StringLiteral, L.Template} && IsUpperCase(tokens[k].value)
  }

  /** `process.env.NAME` at the reference's first token. */
  ghost predicate IsMemberReference(tokens: Tokens, r: Reference) {
    && r == Reference(r.start + 4, r.start, r.start + 4, false)
    && IsIdentifier(tokens, r.start, "process") && IsPunctuation(tokens, r.start + 1, ".") && IsIdentifier(tokens, r.start + 2, "env")
    && IsPunctuation(tokens, r.start + 3, ".") && r.name < |tokens|
    && tokens[r.name].kind == L.Identifier && IsUpperCase(tokens[r.name].value)
  }

  /** `process.env['NAME']`. */
  ghost predicate IsIndexReference(tokens: Tokens, r: Reference) {
    && r == Reference(r.start + 4, r.start, r.start + 5, false)
    && IsIdentifier(tokens, r.start, "process") && IsPunctuation(tokens, r.start + 1, ".") && IsIdentifier(tokens, r.start + 2, "env")
    && IsPunctuation(tokens, r.start + 3, "[") && IsQuotedName(tokens, r.name) && IsPunctuation(tokens, r.end, "]")
  }

  /** `anyEnvironmentVariableHelper('NAME'`. */
  ghost predicate IsHelperReference(tokens: Tokens, r: Reference) {
    && r == Reference(r.start + 2, r.start, r.start + 2, true)
    && r.start < |tokens| && tokens[r.start].kind == L.Identifier
    && (exists k: nat :: StartsWith(tokens[r.start].value, k, "EnvironmentVariable"))
    && IsPunctuation(tokens, r.start + 1, "(") && IsQuotedName(tokens, r.name)
  }

  ghost predicate IsReference(tokens: Tokens, r: Reference) {
    IsMemberReference(tokens, r) || IsIndexReference(tokens, r) || IsHelperReference(tokens, r)
  }

  lemma UpperExactly(s: string)
    ensures IsUpperName(s) <==> IsUpperCase(s)
  {}

  lemma HelperExactly(t: L.Token)
    ensures IsHelper(t) <==> t.kind == L.Identifier && exists k: nat :: StartsWith(t.value, k, "EnvironmentVariable")
  {
    var found := IndexOf(t.value, 0, "EnvironmentVariable");
    if found.None? {
      forall k: nat ensures !StartsWith(t.value, k, "EnvironmentVariable") {}
    }
  }

  lemma EnvironmentExactly(tokens: Tokens, i: nat, r: Reference)
    ensures r in EnvironmentReference(tokens, i) <==> r.start == i && (IsMemberReference(tokens, r) || IsIndexReference(tokens, r))
  {
    hide IsUpperName, IsUpperCase;
    forall s: string ensures IsUpperName(s) <==> IsUpperCase(s) { UpperExactly(s); }
  }

  lemma HelperStarts(tokens: Tokens, i: nat, r: Reference)
    ensures r in HelperReference(tokens, i) <==> r.start == i && IsHelperReference(tokens, r)
  {
    hide IsUpperName, IsUpperCase, IsHelper, StartsWith;
    forall s: string ensures IsUpperName(s) <==> IsUpperCase(s) { UpperExactly(s); }
    if i < |tokens| { HelperExactly(tokens[i]); }
  }

  /** What starts at a token is a reference exactly when it is spelled as one. */
  lemma StartsExactly(tokens: Tokens, i: nat, r: Reference)
    ensures r in EnvironmentReference(tokens, i) + HelperReference(tokens, i) <==> r.start == i && IsReference(tokens, r)
  {
    hide EnvironmentReference, HelperReference, IsMemberReference, IsIndexReference, IsHelperReference;
    EnvironmentExactly(tokens, i, r);
    HelperStarts(tokens, i, r);
  }

  lemma {:induction false} ListedBefore(tokens: Tokens, n: nat, r: Reference)
    ensures r in References(tokens, n) <==> r.start < n && IsReference(tokens, r)
  {
    hide EnvironmentReference, HelperReference, IsReference;
    if n > 0 {
      ListedBefore(tokens, n - 1, r);
      StartsExactly(tokens, n - 1, r);
    }
  }

  /** The references found are exactly those that are spelled in the source. */
  lemma ReferencesExactly(tokens: Tokens, r: Reference)
    ensures r in References(tokens, |tokens|) <==> IsReference(tokens, r)
  {
    ListedBefore(tokens, |tokens|, r);
  }

  // ---- Defaults -----------------------------------------------------------------------------

  /** A literal at `k`, or a sign there and a number behind it. */
  predicate IsLiteral(tokens: Tokens, k: nat, span: Span) {
    || (span == Span(k, k) && k < |tokens|
        && (tokens[k].kind in {L.StringLiteral, L.Template, L.Number} || IsIdentifier(tokens, k, "true") || IsIdentifier(tokens, k, "false")))
    || (span == Span(k, k + 1) && (IsOperator(tokens, k, "-") || IsOperator(tokens, k, "+"))
        && k + 1 < |tokens| && tokens[k + 1].kind == L.Number)
  }

  /** A comma, a semicolon or a brace no deeper than the reference, or an operator that cannot stand before a default. */
  predicate Stops(tokens: Tokens, k: nat, depth: int) {
    && k < |tokens|
    && (|| ((IsPunctuation(tokens, k, ",") || IsPunctuation(tokens, k, ";") || IsPunctuation(tokens, k, "{")) && tokens[k].depth <= depth)
        || (tokens[k].kind == L.Operator && tokens[k].value !in {"!", "?", "<", ">"}))
  }

  /** The first operator among the eleven tokens behind `end` is `??` or `||`, and the literal behind it is the span. */
  ghost predicate IsFoundBehind(tokens: Tokens, end: nat, span: Span)
    requires end < |tokens|
  {
    exists k :: end < k < end + 12 && IsOffer(tokens, end, k, span)
  }

  predicate IsOffer(tokens: Tokens, end: nat, k: nat, span: Span)
    requires end < |tokens|
  {
    && (IsOperator(tokens, k, "??") || IsOperator(tokens, k, "||")) && IsLiteral(tokens, k + 1, span)
    && forall j :: end < j < k ==> !Stops(tokens, j, tokens[end].depth)
  }

  lemma LiteralExactly(tokens: Tokens, operator: nat, span: Span)
    ensures LiteralDefault(tokens, operator) == Some(span) <==> IsLiteral(tokens, operator + 1, span)
  {}

  lemma {:induction false} SearchExactly(tokens: Tokens, end: nat, index: nat, span: Span)
    requires end < |tokens| && end < index && forall j :: end < j < index ==> !Stops(tokens, j, tokens[end].depth)
    ensures DefaultFrom(tokens, index, end + 12, tokens[end].depth) == Some(span) <==>
      exists k :: index <= k < end + 12 && IsOffer(tokens, end, k, span)
    decreases end + 12 - index
  {
    hide LiteralDefault, IsLiteral;
    if index < end + 12 && index < |tokens| {
      LiteralExactly(tokens, index, span);
      if OffersDefault(tokens[index]) {
        assert Stops(tokens, index, tokens[end].depth);
        assert IsOffer(tokens, end, index, span) <==> IsLiteral(tokens, index + 1, span);
      } else if EndsSearch(tokens[index], tokens[end].depth) {
        assert Stops(tokens, index, tokens[end].depth);
      } else {
        assert !Stops(tokens, index, tokens[end].depth);
        SearchExactly(tokens, end, index + 1, span);
      }
    }
  }

  lemma FoundExactly(tokens: Tokens, end: nat, span: Span)
    requires end < |tokens|
    ensures DefaultFrom(tokens, end + 1, end + 12, tokens[end].depth) == Some(span) <==> IsFoundBehind(tokens, end, span)
  {
    SearchExactly(tokens, end, end + 1, span);
  }

  /** The literal behind a comma behind the name, with a comma or the closing bracket behind it. */
  predicate IsSecondArgument(tokens: Tokens, name: nat, span: Span) {
    && IsPunctuation(tokens, name + 1, ",") && IsLiteral(tokens, name + 2, span)
    && (IsPunctuation(tokens, span.last + 1, ",") || IsPunctuation(tokens, span.last + 1, ")"))
  }

  lemma ArgumentExactly(tokens: Tokens, name: nat, span: Span)
    requires Ordered(tokens)
    ensures HelperArgumentDefault(tokens, name) == Some(span) <==> IsSecondArgument(tokens, name, span)
  {
    hide LiteralDefault, TokenFrom, Ordered, IsLiteral;
    LiteralExactly(tokens, name + 1, span);
    var value := LiteralDefault(tokens, name + 1);
    if value.Some? {
      LiteralExactly(tokens, name + 1, value.value);
      NextIsBehind(tokens, name, value.value);
    }
  }

  /** The default of a reference: a helper's second argument, and otherwise what is found behind the reference. */
  ghost predicate IsDefaultOf(tokens: Tokens, r: Reference, span: Span)
    requires InList(tokens, r)
  {
    if r.helper && exists argument :: IsSecondArgument(tokens, r.name, argument) then IsSecondArgument(tokens, r.name, span)
    else IsFoundBehind(tokens, r.end, span)
  }

  lemma DefaultExactly(tokens: Tokens, r: Reference, span: Span)
    requires Ordered(tokens) && InList(tokens, r)
    ensures DefaultOf(tokens, r) == Some(span) <==> IsDefaultOf(tokens, r, span)
  {
    hide Ordered, HelperArgumentDefault, DefaultFrom, IsSecondArgument, IsFoundBehind;
    forall argument { ArgumentExactly(tokens, r.name, argument); }
    FoundExactly(tokens, r.end, span);
    var argument := HelperArgumentDefault(tokens, r.name);
    if argument.Some? { assert IsSecondArgument(tokens, r.name, argument.value); }
  }

  // ---- Owners ---------------------------------------------------------------------------------

  /** `r` is the last token before `k` that `p` holds of, or -1. */
  ghost predicate IsLastBefore(p: int -> bool, k: int, r: int) {
    -1 <= r < k && (r >= 0 ==> p(r)) && forall j :: r < j < k ==> !p(j)
  }

  /** `r` is the first token behind `k` that `p` holds of, or `n`. */
  ghost predicate IsFirstBehind(p: int -> bool, k: int, n: int, r: int) {
    k < r <= n && (r < n ==> p(r)) && forall j :: k < j < r ==> !p(j)
  }

  predicate IsDeclarator(tokens: Tokens, k: int, depth: int) {
    && (IsIdentifier(tokens, k, "const") || IsIdentifier(tokens, k, "let") || IsIdentifier(tokens, k, "var"))
    && tokens[k].depth <= depth
  }

  /** A brace around a token of the given depth. */
  predicate IsAround(tokens: Tokens, k: int, brace: string, depth: int) {
    IsPunctuation(tokens, k, brace) && tokens[k].depth == depth - 1
  }

  predicate IsLevel(tokens: Tokens, k: int, mark: string, depth: int) {
    IsPunctuation(tokens, k, mark) && tokens[k].depth == depth
  }

  predicate EndsAbove(tokens: Tokens, k: int, depth: int) { IsPunctuation(tokens, k, ";") && tokens[k].depth <= depth }

  /** A declaration, or what separates the reference from one before it. */
  function Decides(tokens: Tokens, depth: int): int -> bool {
    (k: int) => IsDeclarator(tokens, k, depth) || EndsAbove(tokens, k, depth) || IsAround(tokens, k, "{", depth)
  }

  function Bounds(tokens: Tokens, depth: int): int -> bool {
    (k: int) => IsLevel(tokens, k, ",", depth) || IsLevel(tokens, k, ";", depth) || IsAround(tokens, k, "{", depth)
  }

  function ClosesProperty(tokens: Tokens, depth: int): int -> bool {
    (k: int) => IsLevel(tokens, k, ",", depth) || IsAround(tokens, k, "}", depth)
  }

  function ClosesStatement(tokens: Tokens, depth: int, ownerDepth: int): int -> bool {
    (k: int) => EndsAbove(tokens, k, depth) || IsLevel(tokens, k, ",", ownerDepth)
  }

  /** The reference belongs to a property: no declaration decides, and a colon stands behind the boundary. */
  ghost predicate IsProperty(tokens: Tokens, reference: nat, declaration: int, boundary: int)
    requires reference < |tokens|
  {
    var depth := tokens[reference].depth;
    (declaration < 0 || !IsDeclarator(tokens, declaration, depth)) && exists k :: boundary < k < reference && IsLevel(tokens, k, ":", depth)
  }

  /** The property around a reference, or else the declaration behind its keyword, or else the statement. */
  ghost predicate IsOwnerOf(tokens: Tokens, reference: nat, o: Owner)
    requires reference < |tokens|
  {
    exists declaration, boundary :: IsOwnerWith(tokens, reference, o, declaration, boundary)
  }

  ghost predicate IsOwnerWith(tokens: Tokens, reference: nat, o: Owner, declaration: int, boundary: int)
    requires reference < |tokens|
  {
    var depth := tokens[reference].depth;
    && IsLastBefore(Decides(tokens, depth), reference, declaration)
    && IsLastBefore(Bounds(tokens, depth), reference, boundary)
    && if IsProperty(tokens, reference, declaration, boundary)
       then o.first == boundary + 1 && IsFirstBehind(ClosesProperty(tokens, depth), reference, |tokens|, o.stop)
       else
         && o.first == (if declaration >= 0 && IsDeclarator(tokens, declaration, depth) then declaration else boundary) + 1
         && o.first < |tokens|
         && IsFirstBehind(ClosesStatement(tokens, depth, tokens[o.first].depth), reference, |tokens|, o.stop)
  }

  /** The last token before `k` that decides whether the reference is declared, or -1. */
  function DecidedBy(tokens: Tokens, k: nat, depth: int): (r: int)
    requires k <= |tokens|
    ensures -1 <= r < k
  {
    if k == 0 then -1
    else if IsDeclaration(tokens[k - 1], depth) || BreaksOff(tokens[k - 1], depth) then k - 1
    else DecidedBy(tokens, k - 1, depth)
  }

  lemma {:induction false} DecidedExactly(tokens: Tokens, k: nat, depth: int)
    requires k <= |tokens|
    ensures var r := DecidedBy(tokens, k, depth);
      && IsLastBefore(Decides(tokens, depth), k, r)
      && DeclarationBefore(tokens, k, depth) == if r >= 0 && IsDeclarator(tokens, r, depth) then r else -1
  {
    if k > 0 { DecidedExactly(tokens, k - 1, depth); }
  }

  lemma {:induction false} BoundaryExactly(tokens: Tokens, k: nat, depth: int)
    requires k <= |tokens|
    ensures var r := BoundaryBefore(tokens, k, depth);
      && IsLastBefore(Bounds(tokens, depth), k, r)
      && (HasColon(tokens, k, depth) <==> exists j :: r < j < k && IsLevel(tokens, j, ":", depth))
  {
    if k > 0 {
      BoundaryExactly(tokens, k - 1, depth);
      assert IsColon(tokens[k - 1], depth) <==> IsLevel(tokens, k - 1, ":", depth);
    }
  }

  lemma {:induction false} PropertyExactly(tokens: Tokens, from: nat, k: nat, depth: int)
    requires from < k <= |tokens| && forall j :: from < j < k ==> !ClosesProperty(tokens, depth)(j)
    ensures IsFirstBehind(ClosesProperty(tokens, depth), from, |tokens|, PropertyEnd(tokens, k, depth))
    decreases |tokens| - k
  {
    if k < |tokens| && !EndsProperty(tokens[k], depth) { PropertyExactly(tokens, from, k + 1, depth); }
  }

  lemma {:induction false} StatementExactly(tokens: Tokens, from: nat, k: nat, depth: int, ownerDepth: int)
    requires from < k <= |tokens| && forall j :: from < j < k ==> !ClosesStatement(tokens, depth, ownerDepth)(j)
    ensures IsFirstBehind(ClosesStatement(tokens, depth, ownerDepth), from, |tokens|, StatementEnd(tokens, k, depth, ownerDepth))
    decreases |tokens| - k
  {
    if k < |tokens| && !EndsStatement(tokens[k], depth, ownerDepth) { StatementExactly(tokens, from, k + 1, depth, ownerDepth); }
  }

  lemma LastIsUnique(p: int -> bool, k: int, r: int, s: int)
    requires IsLastBefore(p, k, r) && IsLastBefore(p, k, s)
    ensures r == s
  {}

  lemma FirstIsUnique(p: int -> bool, k: int, n: int, r: int, s: int)
    requires IsFirstBehind(p, k, n, r) && IsFirstBehind(p, k, n, s)
    ensures r == s
  {}

  /** The owner found is exactly the one that is spelled in the source. */
  lemma OwnerExactly(tokens: Tokens, reference: nat, o: Owner)
    requires reference < |tokens|
    ensures OwnerOf(tokens, reference) == o <==> IsOwnerOf(tokens, reference, o)
  {
    hide Decides, Bounds, ClosesProperty, ClosesStatement, IsLastBefore, IsFirstBehind, DeclarationBefore, BoundaryBefore, HasColon,
      PropertyEnd, StatementEnd, DecidedBy, IsDeclarator;
    var depth := tokens[reference].depth;
    var declaration, boundary := DecidedBy(tokens, reference, depth), BoundaryBefore(tokens, reference, depth);
    var found := OwnerOf(tokens, reference);
    DecidedExactly(tokens, reference, depth);
    BoundaryExactly(tokens, reference, depth);
    PropertyExactly(tokens, reference, reference + 1, depth);
    StatementExactly(tokens, reference, reference + 1, depth, tokens[found.first].depth);
    assert IsOwnerWith(tokens, reference, found, declaration, boundary);
    if IsOwnerOf(tokens, reference, o) {
      var d, b :| IsOwnerWith(tokens, reference, o, d, b);
      LastIsUnique(Decides(tokens, depth), reference, declaration, d);
      LastIsUnique(Bounds(tokens, depth), reference, boundary, b);
      SameOwner(tokens, reference, o, found, declaration, boundary);
    }
  }

  lemma SameOwner(tokens: Tokens, reference: nat, o: Owner, found: Owner, declaration: int, boundary: int)
    requires reference < |tokens|
    requires IsOwnerWith(tokens, reference, o, declaration, boundary) && IsOwnerWith(tokens, reference, found, declaration, boundary)
    ensures o == found
  {
    hide Decides, Bounds, ClosesProperty, ClosesStatement, IsLastBefore, IsDeclarator;
  }

  // ---- Usages -----------------------------------------------------------------------------------

  /** The usage that a reference makes. */
  ghost predicate IsUsageOf(tokens: Tokens, r: Reference, u: TokenUsage)
    requires InList(tokens, r)
  {
    && u.name == r.name && IsOwnerOf(tokens, r.start, u.owner)
    && forall span :: u.default == Some(span) <==> IsDefaultOf(tokens, r, span)
  }

  /** In the order of their first tokens. */
  predicate Rise(references: seq<Reference>) {
    forall i, j :: 0 <= i < j < |references| ==> references[i].start < references[j].start
  }

  /** One usage for every reference, in the order of their tokens. */
  ghost predicate AreUsages(tokens: Tokens, us: seq<TokenUsage>) {
    exists references :: AreUsagesOf(tokens, references, us)
  }

  ghost predicate AreUsagesOf(tokens: Tokens, references: seq<Reference>, us: seq<TokenUsage>) {
    && |references| == |us|
    && (forall r :: r in references <==> IsReference(tokens, r))
    && Rise(references)
    && forall k :: 0 <= k < |us| ==> InList(tokens, references[k]) && IsUsageOf(tokens, references[k], us[k])
  }

  lemma AtMostOne(tokens: Tokens, i: nat)
    ensures |EnvironmentReference(tokens, i) + HelperReference(tokens, i)| <= 1
  {}

  lemma RiseOn(front: seq<Reference>, more: seq<Reference>, n: nat)
    requires Rise(front) && |more| <= 1 && (forall r :: r in front ==> r.start < n) && (forall r :: r in more ==> r.start == n)
    ensures Rise(front + more)
  {
    assert forall k :: 0 <= k < |front| ==> front[k] in front;
  }

  lemma {:induction false} ReferencesRise(tokens: Tokens, n: nat)
    ensures Rise(References(tokens, n))
  {
    hide EnvironmentReference, HelperReference, IsReference, Rise;
    if n == 0 {
      assert Rise([]) by { NoneRise(); }
    } else {
      ReferencesRise(tokens, n - 1);
      AtMostOne(tokens, n - 1);
      var front, more := References(tokens, n - 1), EnvironmentReference(tokens, n - 1) + HelperReference(tokens, n - 1);
      forall r | r in front ensures r.start < n - 1 { ListedBefore(tokens, n - 1, r); }
      forall r | r in more ensures r.start == n - 1 { StartsExactly(tokens, n - 1, r); }
      RiseOn(front, more, n - 1);
    }
  }

  lemma NoneRise()
    ensures Rise([])
  {}

  lemma UsageExactly(tokens: Tokens, r: Reference)
    requires Ordered(tokens) && InList(tokens, r)
    ensures IsUsageOf(tokens, r, UsageOf(tokens, r))
  {
    hide Ordered, DefaultOf, OwnerOf, IsDefaultOf, IsOwnerOf;
    OwnerExactly(tokens, r.start, OwnerOf(tokens, r.start));
    forall span ensures DefaultOf(tokens, r) == Some(span) <==> IsDefaultOf(tokens, r, span) { DefaultExactly(tokens, r, span); }
  }

  lemma {:induction false} UsageAt(tokens: Tokens, references: seq<Reference>, k: nat)
    requires (forall r :: r in references ==> InList(tokens, r)) && k < |references|
    ensures Usages(tokens, references)[k] == UsageOf(tokens, references[k])
  {
    hide UsageOf, InList;
    if k < |references| - 1 { UsageAt(tokens, references[..|references| - 1], k); }
  }

  /** The usages collected are those of all references, in their order. */
  lemma UsagesExactly(tokens: Tokens)
    requires Ordered(tokens)
    ensures AreUsages(tokens, UsagesIn(tokens))
  {
    hide Ordered, References, UsageOf, IsReference, IsUsageOf, InList, Rise;
    var references := References(tokens, |tokens|);
    ReferencesInList(tokens, |tokens|);
    ReferencesRise(tokens, |tokens|);
    forall r ensures r in references <==> IsReference(tokens, r) { ReferencesExactly(tokens, r); }
    forall k | 0 <= k < |references|
      ensures InList(tokens, references[k]) && IsUsageOf(tokens, references[k], UsagesIn(tokens)[k])
    {
      assert references[k] in references;
      UsageAt(tokens, references, k);
      UsageExactly(tokens, references[k]);
    }
    assert AreUsagesOf(tokens, references, UsagesIn(tokens));
  }
}
