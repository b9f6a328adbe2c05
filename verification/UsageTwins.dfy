/**
 Token lists that differ only in names and literals, and what the search for usages in
 scripts/release-safety-config-diff.ts makes of them: it reports the same tokens.
 */
module UsageTwins {
  import opened Options
  import opened JsText
  import opened ConfigUsages
  import opened SourceWords
  import L = Lexer

  predicate FollowsBracket(tokens: Tokens, k: nat)
    requires k < |tokens|
  {
    k > 0 && IsMark(tokens[k - 1], {"(", "["})
  }

  predicate FollowsSign(tokens: Tokens, k: nat)
    requires k < |tokens|
  {
    k > 0 && IsSign(tokens[k - 1])
  }

  /**
   The same token, or two names, or two signs, or two literals: a literal in brackets names a
   variable in both lists or in neither, and what has a sign is a number in both or in neither.
   */
  predicate AlikeAt(ts: Tokens, us: Tokens, k: nat)
    requires k < |ts| && k < |us|
  {
    var t, u := ts[k], us[k];
    && t.depth == u.depth
    && (|| (t.kind == u.kind && t.value == u.value)
        || (IsSign(t) && IsSign(u))
        || (t.kind == u.kind == L.Identifier && IsUpperName(t.value) && IsUpperName(u.value))
        || (IsValue(t) && IsValue(u)
            && (FollowsBracket(ts, k) ==> (IsLiteralName(t) <==> IsLiteralName(u)))
            && (FollowsSign(ts, k) ==> (t.kind == L.Number <==> u.kind == L.Number))))
  }

  /** Names and literals apart, and keeping the sign of a number or its lack of one, the lists are the same. */
  predicate Alike(ts: Tokens, us: Tokens) {
    |ts| == |us| && forall k :: 0 <= k < |ts| ==> AlikeAt(ts, us, k)
  }

  /** A kind and value that no name, literal or sign has. */
  predicate IsFixed(kind: L.TokenKind, value: string) {
    match kind
    case Identifier => !IsUpperName(value) && value !in {"true", "false"}
    case Operator => value !in {"-", "+"}
    case Punctuation => true
    case _ => false
  }

  lemma FixedStays(ts: Tokens, us: Tokens, k: int, kind: L.TokenKind, value: string)
    requires Alike(ts, us) && IsFixed(kind, value)
    ensures Is(ts, k, kind, value) <==> Is(us, k, kind, value)
  {
    if 0 <= k < |ts| { assert AlikeAt(ts, us, k); }
  }

  lemma MarkStays(ts: Tokens, us: Tokens, k: nat)
    requires Alike(ts, us) && k < |ts|
    ensures ts[k].kind == L.Punctuation <==> us[k].kind == L.Punctuation
    ensures forall values :: IsMark(ts[k], values) <==> IsMark(us[k], values)
    ensures ts[k].depth == us[k].depth
  {
    assert AlikeAt(ts, us, k);
  }

  // ---- References -----------------------------------------------------------------------------

  lemma UpperStays(ts: Tokens, us: Tokens, k: nat)
    requires Alike(ts, us)
    ensures UpperIdentifierAt(ts, k) <==> UpperIdentifierAt(us, k)
  {
    if k < |ts| {
      assert AlikeAt(ts, us, k);
      assert !IsUpperName("true") && !IsUpperName("false");
    }
  }

  lemma LiteralNameStays(ts: Tokens, us: Tokens, k: nat)
    requires Alike(ts, us) && (k < |ts| ==> FollowsBracket(ts, k))
    ensures LiteralNameAt(ts, k) <==> LiteralNameAt(us, k)
  {
    if k < |ts| { assert AlikeAt(ts, us, k); }
  }

  lemma EnvironmentStays(ts: Tokens, us: Tokens, i: nat)
    requires Alike(ts, us)
    ensures EnvironmentReference(ts, i) == EnvironmentReference(us, i)
  {
    hide Alike, UpperIdentifierAt, LiteralNameAt;
    assert !IsUpperName("process") && !IsUpperName("env");
    FixedStays(ts, us, i, L.Identifier, "process");
    FixedStays(ts, us, i + 1, L.Punctuation, ".");
    FixedStays(ts, us, i + 2, L.Identifier, "env");
    FixedStays(ts, us, i + 3, L.Punctuation, ".");
    FixedStays(ts, us, i + 3, L.Punctuation, "[");
    FixedStays(ts, us, i + 5, L.Punctuation, "]");
    UpperStays(ts, us, i + 4);
    if Is(ts, i + 3, L.Punctuation, "[") { LiteralNameStays(ts, us, i + 4); }
  }

  const HELPER := "EnvironmentVariable"

  /** A name in upper case does not name a helper, and neither does a truth value. */
  lemma HelperIsFixed(t: L.Token)
    requires IsHelper(t)
    ensures IsFixed(t.kind, t.value)
  {
    var at := IndexOf(t.value, 0, HELPER).value;
    var found := t.value[at..at + |HELPER|];
    assert found[1] == HELPER[1] == 'n' == t.value[at + 1];
    assert |t.value| >= |HELPER| == 19 && |"true"| == 4 && |"false"| == 5;
  }

  lemma IsHelperStays(ts: Tokens, us: Tokens, k: nat)
    requires Alike(ts, us) && k < |ts|
    ensures IsHelper(ts[k]) <==> IsHelper(us[k])
  {
    hide IsHelper;
    if IsHelper(ts[k]) {
      HelperIsFixed(ts[k]);
      FixedStays(ts, us, k, ts[k].kind, ts[k].value);
      SameHelper(ts[k], us[k]);
    } else if IsHelper(us[k]) {
      HelperIsFixed(us[k]);
      FixedStays(ts, us, k, us[k].kind, us[k].value);
      SameHelper(us[k], ts[k]);
    }
  }

  lemma SameHelper(t: L.Token, u: L.Token)
    requires IsHelper(t) && t.kind == u.kind && t.value == u.value
    ensures IsHelper(u)
  {}

  lemma HelperStays(ts: Tokens, us: Tokens, i: nat)
    requires Alike(ts, us)
    ensures HelperReference(ts, i) == HelperReference(us, i)
  {
    hide IsHelper, LiteralNameAt;
    if i < |ts| { IsHelperStays(ts, us, i); }
    FixedStays(ts, us, i + 1, L.Punctuation, "(");
    if Is(ts, i + 1, L.Punctuation, "(") { LiteralNameStays(ts, us, i + 2); }
  }

  lemma {:induction false} ReferencesStay(ts: Tokens, us: Tokens, n: nat)
    requires Alike(ts, us)
    ensures References(ts, n) == References(us, n)
  {
    hide Alike, EnvironmentReference, HelperReference;
    if n > 0 {
      ReferencesStay(ts, us, n - 1);
      EnvironmentStays(ts, us, n - 1);
      HelperStays(ts, us, n - 1);
    }
  }

  // ---- Defaults -------------------------------------------------------------------------------

  lemma LiteralStays(ts: Tokens, us: Tokens, operator: nat)
    requires Alike(ts, us)
    ensures LiteralDefault(ts, operator) == LiteralDefault(us, operator)
  {
    assert !IsUpperName("true") && !IsUpperName("false");
    if operator + 1 < |ts| { assert AlikeAt(ts, us, operator + 1); }
    if operator + 2 < |ts| { assert AlikeAt(ts, us, operator + 2); }
  }

  lemma DecidersStay(ts: Tokens, us: Tokens, k: nat, depth: int)
    requires Alike(ts, us) && k < |ts|
    ensures OffersDefault(ts[k]) <==> OffersDefault(us[k])
    ensures EndsSearch(ts[k], depth) <==> EndsSearch(us[k], depth)
  {
    assert AlikeAt(ts, us, k);
  }

  lemma {:induction false} SearchStays(ts: Tokens, us: Tokens, index: nat, limit: nat, depth: int)
    requires Alike(ts, us)
    ensures DefaultFrom(ts, index, limit, depth) == DefaultFrom(us, index, limit, depth)
    decreases limit - index
  {
    hide OffersDefault, EndsSearch, LiteralDefault;
    if index < limit && index < |ts| {
      DecidersStay(ts, us, index, depth);
      LiteralStays(ts, us, index);
      SearchStays(ts, us, index + 1, limit, depth);
    }
  }

  /** Behind a literal the next token is the one behind its last. */
  lemma NextIsBehind(tokens: Tokens, name: nat, value: Span)
    requires Ordered(tokens) && name + 2 == value.first <= value.last <= name + 3 && value.last < |tokens|
    ensures TokenFrom(tokens, name + 2, tokens[value.last].end)
      == if value.last + 1 < |tokens| then Some(value.last + 1) else None
  {
    var position := tokens[value.last].end;
    assert tokens[value.last].start < position && tokens[value.first].start < position;
    TokenFromHere(tokens, name + 2, position);
    if value.last == name + 3 { TokenFromHere(tokens, name + 3, position); }
    if value.last + 1 < |tokens| { TokenFromHere(tokens, value.last + 1, position); }
  }

  lemma TokenFromHere(tokens: Tokens, index: nat, position: nat)
    requires index < |tokens|
    ensures TokenFrom(tokens, index, position) ==
      if tokens[index].start >= position then Some(index)
      else if index + 1 == |tokens| then None else TokenFrom(tokens, index + 1, position)
  {}

  lemma ArgumentStays(ts: Tokens, us: Tokens, name: nat)
    requires Alike(ts, us) && Ordered(ts) && Ordered(us)
    ensures HelperArgumentDefault(ts, name) == HelperArgumentDefault(us, name)
  {
    hide LiteralDefault, TokenFrom, Ordered, Alike;
    FixedStays(ts, us, name + 1, L.Punctuation, ",");
    LiteralStays(ts, us, name + 1);
    var value := LiteralDefault(ts, name + 1);
    if value.Some? {
      SameLength(ts, us);
      NextIsBehind(ts, name, value.value);
      NextIsBehind(us, name, value.value);
      if value.value.last + 1 < |ts| { MarkStays(ts, us, value.value.last + 1); }
    }
  }

  lemma SameLength(ts: Tokens, us: Tokens)
    requires Alike(ts, us)
    ensures |ts| == |us|
  {}

  lemma DefaultStays(ts: Tokens, us: Tokens, r: Reference)
    requires Alike(ts, us) && Ordered(ts) && Ordered(us) && InList(ts, r)
    ensures InList(us, r) && DefaultOf(ts, r) == DefaultOf(us, r)
  {
    hide Alike, Ordered, HelperArgumentDefault, DefaultFrom;
    SameLength(ts, us);
    ArgumentStays(ts, us, r.name);
    MarkStays(ts, us, r.end);
    SearchStays(ts, us, r.end + 1, r.end + 12, ts[r.end].depth);
  }

  // ---- Owners ---------------------------------------------------------------------------------

  lemma DeclarationStays(ts: Tokens, us: Tokens, k: nat, depth: int)
    requires Alike(ts, us) && k < |ts|
    ensures IsDeclaration(ts[k], depth) <==> IsDeclaration(us[k], depth)
  {
    assert !IsUpperName("const") && !IsUpperName("let") && !IsUpperName("var");
    assert AlikeAt(ts, us, k);
  }

  lemma {:induction false} SearchesBackStay(ts: Tokens, us: Tokens, k: nat, depth: int)
    requires Alike(ts, us) && k <= |ts|
    ensures DeclarationBefore(ts, k, depth) == DeclarationBefore(us, k, depth)
    ensures BoundaryBefore(ts, k, depth) == BoundaryBefore(us, k, depth)
    ensures HasColon(ts, k, depth) <==> HasColon(us, k, depth)
  {
    hide IsDeclaration;
    if k > 0 {
      SearchesBackStay(ts, us, k - 1, depth);
      DeclarationStays(ts, us, k - 1, depth);
      MarkStays(ts, us, k - 1);
    }
  }

  lemma {:induction false} EndsStay(ts: Tokens, us: Tokens, k: nat, depth: int, ownerDepth: int)
    requires Alike(ts, us) && k <= |ts|
    ensures PropertyEnd(ts, k, depth) == PropertyEnd(us, k, depth)
    ensures StatementEnd(ts, k, depth, ownerDepth) == StatementEnd(us, k, depth, ownerDepth)
    decreases |ts| - k
  {
    if k < |ts| {
      EndsStay(ts, us, k + 1, depth, ownerDepth);
      MarkStays(ts, us, k);
    }
  }

  lemma OwnerStays(ts: Tokens, us: Tokens, reference: nat)
    requires Alike(ts, us) && reference < |ts|
    ensures OwnerOf(ts, reference) == OwnerOf(us, reference)
  {
    hide Alike, DeclarationBefore, BoundaryBefore, HasColon, PropertyEnd, StatementEnd;
    SameLength(ts, us);
    MarkStays(ts, us, reference);
    var depth := ts[reference].depth;
    SearchesBackStay(ts, us, reference, depth);
    var declaration := DeclarationBefore(ts, reference, depth);
    var first := if declaration >= 0 then declaration + 1 else BoundaryBefore(ts, reference, depth) + 1;
    MarkStays(ts, us, first);
    EndsStay(ts, us, reference + 1, depth, ts[first].depth);
  }

  // ---- Usages ---------------------------------------------------------------------------------

  lemma {:induction false} EachUsageStays(ts: Tokens, us: Tokens, references: seq<Reference>)
    requires Alike(ts, us) && Ordered(ts) && Ordered(us)
    requires (forall r :: r in references ==> InList(ts, r)) && (forall r :: r in references ==> InList(us, r))
    ensures Usages(ts, references) == Usages(us, references)
  {
    hide Alike, Ordered, DefaultOf, OwnerOf;
    if references != [] {
      var r := references[|references| - 1];
      EachUsageStays(ts, us, references[..|references| - 1]);
      SameLength(ts, us);
      DefaultStays(ts, us, r);
      OwnerStays(ts, us, r.start);
    }
  }

  /** Token lists that are alike report the same usages: the same names, defaults and owners, token by token. */
  lemma UsagesStay(ts: Tokens, us: Tokens)
    requires Alike(ts, us) && Ordered(ts) && Ordered(us)
    ensures UsagesIn(ts) == UsagesIn(us)
  {
    hide Alike, Ordered, References, Usages;
    SameLength(ts, us);
    ReferencesStay(ts, us, |ts|);
    ReferencesInList(ts, |ts|);
    ReferencesInList(us, |us|);
    EachUsageStays(ts, us, References(ts, |ts|));
  }
}
