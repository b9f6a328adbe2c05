/**
 The usages of configuration variables in a token list, from
 scripts/release-safety-config-diff.ts: which tokens name a variable, which literal is its
 default, and which tokens its owner spans.
 */
module ConfigUsages {
  import opened Options
  import opened JsText
  import L = Lexer

  type Tokens = seq<L.Token>

  predicate Is(tokens: Tokens, k: int, kind: L.TokenKind, value: string) {
    0 <= k < |tokens| && tokens[k].kind == kind && tokens[k].value == value
  }

  predicate IsMark(t: L.Token, values: set<string>) { t.kind == L.Punctuation && t.value in values }

  // ---- References -----------------------------------------------------------------------------

  predicate IsUpperName(s: string) {
    s != [] && 'A' <= s[0] <= 'Z' && forall k :: 0 <= k < |s| ==> 'A' <= s[k] <= 'Z' || IsDigit(s[k]) || s[k] == '_'
  }

  /** A literal that spells a variable's name. */
  predicate IsLiteralName(t: L.Token) { t.kind in {L.StringLiteral, L.Template} && IsUpperName(t.value) }

  predicate LiteralNameAt(tokens: Tokens, k: nat) { k < |tokens| && IsLiteralName(tokens[k]) }

  predicate UpperIdentifierAt(tokens: Tokens, k: nat) {
    k < |tokens| && tokens[k].kind == L.Identifier && IsUpperName(tokens[k].value)
  }

  /** The token with the name, the first and the last token; `helper` when the name is a helper's argument. */
  datatype Reference = Reference(name: nat, start: nat, end: nat, helper: bool)

  /** `process.env.NAME` or `process.env['NAME']` at `i`. */
  function EnvironmentReference(tokens: Tokens, i: nat): seq<Reference> {
    if !(Is(tokens, i, L.Identifier, "process") && Is(tokens, i + 1, L.Punctuation, ".") && Is(tokens, i + 2, L.Identifier, "env"))
    then []
    else if Is(tokens, i + 3, L.Punctuation, ".") && UpperIdentifierAt(tokens, i + 4) then [Reference(i + 4, i, i + 4, false)]
    else if Is(tokens, i + 3, L.Punctuation, "[") && LiteralNameAt(tokens, i + 4) && Is(tokens, i + 5, L.Punctuation, "]")
    then [Reference(i + 4, i, i + 5, false)]
    else []
  }

  predicate IsHelper(t: L.Token) { t.kind == L.Identifier && IndexOf(t.value, 0, "EnvironmentVariable").Some? }

  /** `someEnvironmentVariableHelper('NAME'` at `i`. */
  function HelperReference(tokens: Tokens, i: nat): seq<Reference> {
    if i < |tokens| && IsHelper(tokens[i]) && Is(tokens, i + 1, L.Punctuation, "(") && LiteralNameAt(tokens, i + 2)
    then [Reference(i + 2, i, i + 2, true)]
    else []
  }

  /** The references that start before `n`, in order. */
  function References(tokens: Tokens, n: nat): seq<Reference> {
    if n == 0 then []
    else References(tokens, n - 1) + (EnvironmentReference(tokens, n - 1) + HelperReference(tokens, n - 1))
  }

  method CollectReferences(tokens: Tokens) returns (references: seq<Reference>)
    ensures references == References(tokens, |tokens|)
  {
    references := [];
    for i := 0 to |tokens|
      invariant references == References(tokens, i)
    {
      references := references + (EnvironmentReference(tokens, i) + HelperReference(tokens, i));
    }
  }

  /** The reference's tokens are there, in order, and its name is the last or is followed by the last. */
  predicate InList(tokens: Tokens, r: Reference) { r.start < r.name <= r.end < |tokens| && r.end <= r.name + 1 }

  lemma {:induction false} ReferencesInList(tokens: Tokens, n: nat)
    ensures forall r :: r in References(tokens, n) ==> InList(tokens, r)
  {
    if n > 0 { ReferencesInList(tokens, n - 1); }
  }

  // ---- Defaults -------------------------------------------------------------------------------

  /** A stretch of tokens, both ends included. */
  datatype Span = Span(first: nat, last: nat)

  predicate IsValue(t: L.Token) {
    t.kind in {L.StringLiteral, L.Template, L.Number} || (t.kind == L.Identifier && t.value in {"true", "false"})
  }

  predicate IsSign(t: L.Token) { t.kind == L.Operator && t.value in {"-", "+"} }

  /** The literal behind `operator`; the sign of a number belongs to it. */
  function LiteralDefault(tokens: Tokens, operator: nat): (r: Option<Span>)
    ensures r.Some? ==> operator + 1 == r.value.first <= r.value.last <= operator + 2 && r.value.last < |tokens|
  {
    if operator + 1 >= |tokens| then None
    else if IsValue(tokens[operator + 1]) then Some(Span(operator + 1, operator + 1))
    else if operator + 2 < |tokens| && IsSign(tokens[operator + 1]) && tokens[operator + 2].kind == L.Number
    then Some(Span(operator + 1, operator + 2))
    else None
  }

  predicate OffersDefault(t: L.Token) { t.kind == L.Operator && t.value in {"??", "||"} }

  predicate EndsSearch(t: L.Token, depth: int) {
    (IsMark(t, {",", ";", "{"}) && t.depth <= depth) || (t.kind == L.Operator && t.value !in {"!", "?", "<", ">"})
  }

  /** The first token from `index` on, before `limit`, that decides the search. */
  function DefaultFrom(tokens: Tokens, index: nat, limit: nat, depth: int): (r: Option<Span>)
    ensures r.Some? ==> index < r.value.first <= r.value.last < |tokens|
    decreases limit - index
  {
    if index >= limit || index >= |tokens| then None
    else if OffersDefault(tokens[index]) then LiteralDefault(tokens, index)
    else if EndsSearch(tokens[index], depth) then None
    else DefaultFrom(tokens, index + 1, limit, depth)
  }

  method FindDefault(tokens: Tokens, referenceEnd: nat) returns (r: Option<Span>)
    requires referenceEnd < |tokens|
    ensures r == DefaultFrom(tokens, referenceEnd + 1, referenceEnd + 12, tokens[referenceEnd].depth)
  {
    var depth := tokens[referenceEnd].depth;
    var limit := if |tokens| < referenceEnd + 12 then |tokens| else referenceEnd + 12;
    var index := referenceEnd + 1;
    while index < limit
      invariant referenceEnd < index
      invariant DefaultFrom(tokens, index, referenceEnd + 12, depth)
        == DefaultFrom(tokens, referenceEnd + 1, referenceEnd + 12, depth)
    {
      if OffersDefault(tokens[index]) { return LiteralDefault(tokens, index); }
      if EndsSearch(tokens[index], depth) { return None; }
      index := index + 1;
    }
    return None;
  }

  /** The first token from `index` on that starts at `position` or behind it. */
  function TokenFrom(tokens: Tokens, index: nat, position: nat): (r: Option<nat>)
    ensures r.Some? ==> index <= r.value < |tokens|
    decreases |tokens| - index
  {
    if index >= |tokens| then None
    else if tokens[index].start >= position then Some(index)
    else TokenFrom(tokens, index + 1, position)
  }

  /** The literal that is the argument behind the name, when the argument is nothing else. */
  function HelperArgumentDefault(tokens: Tokens, name: nat): (r: Option<Span>)
    ensures r.Some? ==> name + 1 < r.value.first <= r.value.last < |tokens|
  {
    if !Is(tokens, name + 1, L.Punctuation, ",") then None
    else
      var value := LiteralDefault(tokens, name + 1);
      if value.None? then None
      else
        var next := TokenFrom(tokens, name + 2, tokens[value.value.last].end);
        if next.Some? && IsMark(tokens[next.value], {",", ")"}) then value else None
  }

  function DefaultOf(tokens: Tokens, r: Reference): (d: Option<Span>)
    requires InList(tokens, r)
    ensures d.Some? ==> r.name < d.value.first <= d.value.last < |tokens|
  {
    var argument := if r.helper then HelperArgumentDefault(tokens, r.name) else None;
    if argument.Some? then argument
    else DefaultFrom(tokens, r.end + 1, r.end + 12, tokens[r.end].depth)
  }

  method FindDefaultOf(tokens: Tokens, r: Reference) returns (d: Option<Span>)
    requires InList(tokens, r)
    ensures d == DefaultOf(tokens, r)
  {
    if r.helper {
      d := HelperArgumentDefault(tokens, r.name);
      if d.Some? { return; }
    }
    d := FindDefault(tokens, r.end);
  }

  // ---- Owners ---------------------------------------------------------------------------------

  /** The first token of an owner and the token that ends it, which may be missing. */
  datatype Owner = Owner(first: nat, stop: nat)

  predicate IsDeclaration(t: L.Token, depth: int) {
    t.kind == L.Identifier && t.value in {"const", "let", "var"} && t.depth <= depth
  }

  predicate BreaksOff(t: L.Token, depth: int) {
    (IsMark(t, {";"}) && t.depth <= depth) || (IsMark(t, {"{"}) && t.depth == depth - 1)
  }

  predicate IsColon(t: L.Token, depth: int) { IsMark(t, {":"}) && t.depth == depth }

  predicate IsBoundary(t: L.Token, depth: int) {
    (IsMark(t, {",", ";"}) && t.depth == depth) || (IsMark(t, {"{"}) && t.depth == depth - 1)
  }

  predicate EndsProperty(t: L.Token, depth: int) {
    (IsMark(t, {","}) && t.depth == depth) || (IsMark(t, {"}"}) && t.depth == depth - 1)
  }

  predicate EndsStatement(t: L.Token, depth: int, ownerDepth: int) {
    (IsMark(t, {";"}) && t.depth <= depth) || (IsMark(t, {","}) && t.depth == ownerDepth)
  }

  /** The `const`, `let` or `var` before token `k`, unless a statement or a block starts behind it; -1 when there is none. */
  function DeclarationBefore(tokens: Tokens, k: nat, depth: int): (r: int)
    requires k <= |tokens|
    ensures -1 <= r < k
  {
    if k == 0 then -1
    else if IsDeclaration(tokens[k - 1], depth) then k - 1
    else if BreaksOff(tokens[k - 1], depth) then -1
    else DeclarationBefore(tokens, k - 1, depth)
  }

  function BoundaryBefore(tokens: Tokens, k: nat, depth: int): (r: int)
    requires k <= |tokens|
    ensures -1 <= r < k
  {
    if k == 0 then -1 else if IsBoundary(tokens[k - 1], depth) then k - 1 else BoundaryBefore(tokens, k - 1, depth)
  }

  /** A colon between the boundary before token `k` and the token. */
  predicate HasColon(tokens: Tokens, k: nat, depth: int)
    requires k <= |tokens|
  {
    k > 0 && !IsBoundary(tokens[k - 1], depth) && (IsColon(tokens[k - 1], depth) || HasColon(tokens, k - 1, depth))
  }

  function PropertyEnd(tokens: Tokens, k: nat, depth: int): (r: nat)
    requires k <= |tokens|
    ensures k <= r <= |tokens| && (r < |tokens| ==> tokens[r].kind == L.Punctuation)
    decreases |tokens| - k
  {
    if k == |tokens| || EndsProperty(tokens[k], depth) then k else PropertyEnd(tokens, k + 1, depth)
  }

  function StatementEnd(tokens: Tokens, k: nat, depth: int, ownerDepth: int): (r: nat)
    requires k <= |tokens|
    ensures k <= r <= |tokens| && (r < |tokens| ==> tokens[r].kind == L.Punctuation)
    decreases |tokens| - k
  {
    if k == |tokens| || EndsStatement(tokens[k], depth, ownerDepth) then k
    else StatementEnd(tokens, k + 1, depth, ownerDepth)
  }

  /** A property that is not part of a declaration, or else the declaration or statement around the reference. */
  function OwnerOf(tokens: Tokens, reference: nat): (o: Owner)
    requires reference < |tokens|
    ensures IsOwner(tokens, o) && o.first <= reference < o.stop
  {
    var depth := tokens[reference].depth;
    var declaration := DeclarationBefore(tokens, reference, depth);
    var boundary := BoundaryBefore(tokens, reference, depth);
    if HasColon(tokens, reference, depth) && declaration < 0
    then Owner(boundary + 1, PropertyEnd(tokens, reference + 1, depth))
    else
      var first := if declaration >= 0 then declaration + 1 else boundary + 1;
      Owner(first, StatementEnd(tokens, reference + 1, depth, tokens[first].depth))
  }

  /** An owner ends in front of a punctuation mark or with the last token. */
  predicate IsOwner(tokens: Tokens, o: Owner) {
    o.first < o.stop <= |tokens| && (o.stop < |tokens| ==> tokens[o.stop].kind == L.Punctuation)
  }

  method FindDeclaration(tokens: Tokens, reference: nat, depth: int) returns (declaration: int)
    requires reference < |tokens|
    ensures declaration == DeclarationBefore(tokens, reference, depth)
  {
    var index := reference;
    while index > 0
      invariant 0 <= index <= reference
      invariant DeclarationBefore(tokens, index, depth) == DeclarationBefore(tokens, reference, depth)
    {
      if IsDeclaration(tokens[index - 1], depth) { return index - 1; }
      if BreaksOff(tokens[index - 1], depth) { return -1; }
      index := index - 1;
    }
    return -1;
  }

  /** The boundary, and the last colon met on the way back to it. */
  method FindBoundary(tokens: Tokens, reference: nat, depth: int) returns (boundary: int, colon: int)
    requires reference < |tokens|
    ensures boundary == BoundaryBefore(tokens, reference, depth)
    ensures colon > boundary <==> HasColon(tokens, reference, depth)
  {
    boundary, colon := -1, -1;
    var index := reference;
    while index > 0
      invariant 0 <= index <= reference && (colon >= 0 ==> colon >= index)
      invariant boundary == -1 && BoundaryBefore(tokens, index, depth) == BoundaryBefore(tokens, reference, depth)
      invariant (colon >= 0 || HasColon(tokens, index, depth)) <==> HasColon(tokens, reference, depth)
    {
      if IsColon(tokens[index - 1], depth) { colon := index - 1; }
      if IsBoundary(tokens[index - 1], depth) {
        boundary := index - 1;
        return;
      }
      index := index - 1;
    }
  }

  method FindOwnerRange(tokens: Tokens, reference: nat) returns (o: Owner)
    requires reference < |tokens|
    ensures o == OwnerOf(tokens, reference)
  {
    var depth: int := tokens[reference].depth;
    var declaration := FindDeclaration(tokens, reference, depth);
    var boundary, colon := FindBoundary(tokens, reference, depth);
    var end := reference + 1;
    if colon > boundary && declaration < 0 {
      while end < |tokens| && !EndsProperty(tokens[end], depth)
        invariant reference < end <= |tokens| && PropertyEnd(tokens, end, depth) == PropertyEnd(tokens, reference + 1, depth)
      {
        end := end + 1;
      }
      return Owner(boundary + 1, end);
    }
    var first := if declaration >= 0 then declaration + 1 else boundary + 1;
    var ownerDepth: int := tokens[first].depth;
    while end < |tokens| && !EndsStatement(tokens[end], depth, ownerDepth)
      invariant reference < end <= |tokens|
      invariant StatementEnd(tokens, end, depth, ownerDepth) == StatementEnd(tokens, reference + 1, depth, ownerDepth)
    {
      end := end + 1;
    }
    return Owner(first, end);
  }

  // ---- Usages ---------------------------------------------------------------------------------

  /** A usage by the tokens it consists of. */
  datatype TokenUsage = TokenUsage(name: nat, default: Option<Span>, owner: Owner)

  predicate UsageInList(tokens: Tokens, u: TokenUsage) {
    && u.name < |tokens| && IsOwner(tokens, u.owner)
    && (u.default.Some? ==> u.name < u.default.value.first <= u.default.value.last < |tokens|)
  }

  function UsageOf(tokens: Tokens, r: Reference): (u: TokenUsage)
    requires InList(tokens, r)
    ensures UsageInList(tokens, u)
  {
    TokenUsage(r.name, DefaultOf(tokens, r), OwnerOf(tokens, r.start))
  }

  function Usages(tokens: Tokens, references: seq<Reference>): (us: seq<TokenUsage>)
    requires forall r :: r in references ==> InList(tokens, r)
    ensures |us| == |references| && forall u :: u in us ==> UsageInList(tokens, u)
  {
    if references == [] then []
    else
      var n := |references| - 1;
      Usages(tokens, references[..n]) + [UsageOf(tokens, references[n])]
  }

  function UsagesIn(tokens: Tokens): (us: seq<TokenUsage>)
    ensures forall u :: u in us ==> UsageInList(tokens, u)
  {
    ReferencesInList(tokens, |tokens|);
    Usages(tokens, References(tokens, |tokens|))
  }

  method CollectUsages(tokens: Tokens) returns (usages: seq<TokenUsage>)
    ensures usages == UsagesIn(tokens)
  {
    var references := CollectReferences(tokens);
    ReferencesInList(tokens, |tokens|);
    usages := [];
    for k := 0 to |references|
      invariant usages == Usages(tokens, references[..k])
    {
      assert references[..k + 1][..k] == references[..k];
      var default := FindDefaultOf(tokens, references[k]);
      var owner := FindOwnerRange(tokens, references[k].start);
      usages := usages + [TokenUsage(references[k].name, default, owner)];
    }
    assert references[..|references|] == references;
  }
}
