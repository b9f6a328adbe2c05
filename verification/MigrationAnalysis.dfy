/**
 What scripts/release-safety-migrations.ts learns about one migration source: the
 operations its `up` body performs, how heavy they may be, and whether all of it was
 understood. SQL text is classified by regular expressions, which stay abstract here.
 */
module MigrationAnalysis {
  import opened Options
  import opened JsText
  import opened Lexer
  import opened Nesting
  import opened TokenSpelling

  datatype Operation =
    | CreateIndexConcurrently | CreateUniqueIndexConcurrently | DropIndexConcurrentlyIfExists
    | SetStatementTimeout | ResetStatementTimeout | SetLockTimeout | ResetLockTimeout
    | SelectInvalidIndex | Unknown

  /** `false`, `'unknown'` and `true`, from weakest to strongest. */
  datatype Weight = No | Maybe | Yes

  datatype Reason = ParseFailure | ColumnAlter | UnresolvedTableName

  /** The readings of SQL text that the source makes with regular expressions. */
  datatype SqlReader = SqlReader(
    statements: string -> seq<string>,
    classify: string -> Operation,
    locks: string -> bool,
    rewrites: string -> bool,
    scans: string -> bool)

  datatype Findings = Findings(
    operations: set<Operation>, locks: Weight, rewrites: Weight, scans: Weight, reasons: set<Reason>)

  datatype Analysis = Analysis(findings: Findings, complete: bool)

  const NOTHING := Findings({}, No, No, No, {})

  // ---- Names bound in a source ------------------------------------------------------

  const BINDING_KEYWORDS: seq<string> := ["const", "let", "var", "function", "class", "catch"]

  /** Where the bracket that token `o` spells closes; the spelling alone decides, as in the source. */
  function ClosingIndex(tokens: seq<Token>, o: nat): (r: Option<nat>)
    ensures r.Some? ==> r.value < |tokens|
    ensures o < |tokens| && tokens[o].value == "(" ==> r == Match(tokens, o, '(', ')')
    ensures o < |tokens| && tokens[o].value == "[" ==> r == Match(tokens, o, '[', ']')
    ensures o < |tokens| && tokens[o].value == "{" ==> r == Match(tokens, o, '{', '}')
    ensures o < |tokens| && tokens[o].value !in {"(", "[", "{"} ==> r == None
  {
    assert o < |tokens| && |tokens[o].value| == 1 ==> tokens[o].value == [tokens[o].value[0]];
    if o < |tokens| && |tokens[o].value| == 1 && IsOpening(tokens[o].value[0])
    then Match(tokens, o, tokens[o].value[0], ClosingFor(tokens[o].value[0]))
    else None
  }

  /** A name between the brackets opened at `o` that is not a member name. */
  predicate Enclosed(tokens: seq<Token>, o: nat, k: nat) {
    var end := ClosingIndex(tokens, o);
    end.Some? && o < k < end.value && tokens[k].kind == Identifier && tokens[k - 1].value != "."
  }

  /** An assignment target or a parameter default. */
  predicate IsTarget(tokens: seq<Token>, k: nat) {
    && k + 1 < |tokens| && tokens[k].kind == Identifier
    && tokens[k + 1].kind == Operator && tokens[k + 1].value == "="
  }

  predicate IsArrowList(tokens: seq<Token>, o: nat) {
    && o + 1 < |tokens| && IsMark(tokens[o], '(')
    && var end := ClosingIndex(tokens, o);
      end.Some? && end.value + 1 < |tokens| && tokens[end.value + 1].value == "=>"
  }

  /** The declaration keyword at `i` binds the name at `k`. */
  predicate Declares(tokens: seq<Token>, i: nat, k: nat) {
    && i + 1 < |tokens| && tokens[i].kind == Identifier
    && tokens[i].value in ["const", "let", "var", "function", "class", "catch"]
    && if tokens[i + 1].kind == Identifier then
         k == i + 1 || (i + 2 < |tokens| && tokens[i + 2].value == "(" && Enclosed(tokens, i + 2, k))
       else
         tokens[i + 1].kind == Punctuation && tokens[i + 1].value in ["{", "[", "("] && Enclosed(tokens, i + 1, k)
  }

  /** Token `i` makes token `k` a binding, by any of the rules. */
  predicate BoundBy(tokens: seq<Token>, i: nat, k: nat) {
    || (k == i && IsTarget(tokens, i))
    || (IsArrowList(tokens, i) && Enclosed(tokens, i, k))
    || Declares(tokens, i, k)
  }

  ghost predicate Binds(tokens: seq<Token>, k: nat) {
    exists i: nat :: i < |tokens| && BoundBy(tokens, i, k)
  }

  type Sites = map<string, set<nat>>

  predicate Has(sites: Sites, name: string, k: nat) { name in sites && k in sites[name] }

  function Bind(sites: Sites, name: string, k: nat): (r: Sites)
    ensures forall n, j: nat :: Has(r, n, j) <==> Has(sites, n, j) || (n == name && j == k)
  {
    sites[name := (if name in sites then sites[name] else {}) + {k}]
  }

  method BindEnclosed(tokens: seq<Token>, o: nat, sites: Sites) returns (r: Sites)
    ensures forall n, k: nat :: Has(r, n, k) <==>
      Has(sites, n, k) || (k < |tokens| && Enclosed(tokens, o, k) && n == tokens[k].value)
  {
    r := sites;
    var end := ClosingIndex(tokens, o);
    if end.None? { return; }
    var index := o + 1;
    while index < end.value
      invariant o < index
      invariant forall n, k: nat :: Has(r, n, k) <==>
        Has(sites, n, k) || (k < |tokens| && k < index && Enclosed(tokens, o, k) && n == tokens[k].value)
    {
      if tokens[index].kind == Identifier && tokens[index - 1].value != "." {
        r := Bind(r, tokens[index].value, index);
      }
      index := index + 1;
    }
  }

  /** What the token at `index` binds. */
  method BindFrom(tokens: seq<Token>, index: nat, sites: Sites) returns (r: Sites)
    requires index < |tokens|
    ensures forall n, k: nat :: Has(r, n, k) <==>
      Has(sites, n, k) || (k < |tokens| && BoundBy(tokens, index, k) && n == tokens[k].value)
  {
    r := sites;
    if index + 1 == |tokens| { return; }
    var token, next := tokens[index], tokens[index + 1];
    if token.kind == Identifier && next.kind == Operator && next.value == "=" {
      r := Bind(r, token.value, index);
    }
    if IsMark(token, '(') {
      var end := ClosingIndex(tokens, index);
      if end.Some? && end.value + 1 < |tokens| && tokens[end.value + 1].value == "=>" {
        r := BindEnclosed(tokens, index, r);
      }
    }
    if token.kind != Identifier || token.value !in BINDING_KEYWORDS { return; }
    if next.kind == Identifier {
      r := Bind(r, next.value, index + 1);
      if index + 2 < |tokens| && tokens[index + 2].value == "(" {
        r := BindEnclosed(tokens, index + 2, r);
      }
    } else if next.kind == Punctuation && next.value in ["{", "[", "("] {
      r := BindEnclosed(tokens, index + 1, r);
    }
  }

  ghost predicate BoundBefore(tokens: seq<Token>, limit: nat, k: nat) {
    exists i: nat :: i < limit && i < |tokens| && BoundBy(tokens, i, k)
  }

  /** Every token that binds a name, filed under that name, and nothing else. */
  ghost predicate AreSites(tokens: seq<Token>, sites: Sites) {
    forall n, k: nat :: Has(sites, n, k) <==> k < |tokens| && Binds(tokens, k) && n == tokens[k].value
  }

  method CollectBindingSites(tokens: seq<Token>) returns (sites: Sites)
    ensures AreSites(tokens, sites)
  {
    sites := map[];
    var index := 0;
    while index < |tokens|
      invariant index <= |tokens|
      invariant forall n, k: nat :: Has(sites, n, k) <==>
        k < |tokens| && BoundBefore(tokens, index, k) && n == tokens[k].value
    {
      ghost var before := sites;
      sites := BindFrom(tokens, index, sites);
      forall k: nat ensures BoundBefore(tokens, index + 1, k) <==>
        BoundBefore(tokens, index, k) || BoundBy(tokens, index, k)
      {
        if BoundBefore(tokens, index + 1, k) {
          var i: nat :| i < index + 1 && i < |tokens| && BoundBy(tokens, i, k);
        }
      }
      index := index + 1;
    }
    forall k: nat ensures BoundBefore(tokens, |tokens|, k) <==> Binds(tokens, k) {}
  }

  // ---- Constants with a literal value ----------------------------------------------

  /** `const NAME = literal` at module scope, with nothing after the literal in its clause. */
  predicate DeclaresLiteral(tokens: seq<Token>, i: nat, kinds: set<TokenKind>): (r: bool)
    ensures r ==> i + 3 < |tokens|
  {
    && i + 3 < |tokens|
    && IsName(tokens[i], "const") && tokens[i].depth == 0
    && tokens[i + 1].kind == Identifier
    && tokens[i + 2].kind == Operator && tokens[i + 2].value == "="
    && tokens[i + 3].kind in kinds
    && (i + 4 == |tokens| || IsMark(tokens[i + 4], ';') || IsMark(tokens[i + 4], ','))
  }

  /** `name` is bound at token `k` and nowhere else in the source. */
  ghost predicate BoundOnlyAt(tokens: seq<Token>, name: string, k: nat) {
    forall j: nat :: j < |tokens| && Binds(tokens, j) && tokens[j].value == name <==> j == k && k < |tokens|
  }

  ghost predicate IsConstant(tokens: seq<Token>, i: nat, kinds: set<TokenKind>): (r: bool)
    ensures r ==> i + 3 < |tokens|
  {
    && i + 3 < |tokens|
    && tokens[i].depth == 0 && IsIdentifier(tokens, i, "const") && tokens[i + 1].kind == Identifier
    && IsOperator(tokens, i + 2, "=") && tokens[i + 3].kind in kinds
    && (i + 4 == |tokens| || IsPunctuation(tokens, i + 4, ";") || IsPunctuation(tokens, i + 4, ","))
    && BoundOnlyAt(tokens, tokens[i + 1].value, i + 1)
  }

  /** Exactly the names that one literal declaration binds and nothing rebinds, with those literals. */
  ghost predicate AreConstants(tokens: seq<Token>, kinds: set<TokenKind>, m: map<string, string>) {
    && (forall i: nat :: IsConstant(tokens, i, kinds) ==>
        tokens[i + 1].value in m && m[tokens[i + 1].value] == tokens[i + 3].value)
    && (forall name :: name in m ==>
        exists i: nat :: IsConstant(tokens, i, kinds) && tokens[i + 1].value == name)
  }

  lemma DeclarationBinds(tokens: seq<Token>, i: nat, kinds: set<TokenKind>)
    requires DeclaresLiteral(tokens, i, kinds)
    ensures Binds(tokens, i + 1)
  {
    assert tokens[i].value in BINDING_KEYWORDS;
    assert BoundBy(tokens, i, i + 1);
  }

  lemma OnlyElement<T>(s: set<T>, x: T)
    requires x in s && |s| == 1
    ensures s == {x}
  {
    assert |s - {x}| == 0;
  }

  /** One binding site filed under the name of a literal declaration: that declaration's own. */
  lemma OneSite(tokens: seq<Token>, sites: Sites, i: nat, kinds: set<TokenKind>)
    requires AreSites(tokens, sites) && DeclaresLiteral(tokens, i, kinds)
    ensures var name := tokens[i + 1].value;
      name in sites && (|sites[name]| == 1 <==> BoundOnlyAt(tokens, name, i + 1))
  {
    var name := tokens[i + 1].value;
    DeclarationBinds(tokens, i, kinds);
    assert Has(sites, name, i + 1);
    if |sites[name]| == 1 {
      OnlyElement(sites[name], i + 1);
      forall j: nat | j < |tokens| && Binds(tokens, j) && tokens[j].value == name ensures j == i + 1 {
        assert Has(sites, name, j);
      }
    }
    if BoundOnlyAt(tokens, name, i + 1) {
      forall k | k in sites[name] ensures k == i + 1 {
        assert Has(sites, name, k);
      }
      assert sites[name] == {i + 1};
    }
  }

  /** The constants declared before `index`. */
  ghost predicate Gathered(tokens: seq<Token>, kinds: set<TokenKind>, m: map<string, string>, index: nat) {
    && (forall i: nat :: i < index && IsConstant(tokens, i, kinds) ==>
          tokens[i + 1].value in m && m[tokens[i + 1].value] == tokens[i + 3].value)
    && (forall name :: name in m ==>
          exists i: nat :: IsConstant(tokens, i, kinds) && tokens[i + 1].value == name)
  }

  lemma NothingGathered(tokens: seq<Token>, kinds: set<TokenKind>)
    ensures Gathered(tokens, kinds, map[], 0)
  {}

  lemma GatherOne(tokens: seq<Token>, kinds: set<TokenKind>, m: map<string, string>, index: nat)
    requires Gathered(tokens, kinds, m, index)
    ensures Gathered(tokens, kinds,
      if IsConstant(tokens, index, kinds) then m[tokens[index + 1].value := tokens[index + 3].value] else m, index + 1)
  {
    hide IsConstant;
    if IsConstant(tokens, index, kinds) {
      forall i: nat | i < index && IsConstant(tokens, i, kinds) ensures tokens[i + 1].value != tokens[index + 1].value {
        if tokens[i + 1].value == tokens[index + 1].value { SameNameSameSite(tokens, kinds, i, index); }
      }
    }
  }

  /** A name has one site. */
  lemma SameNameSameSite(tokens: seq<Token>, kinds: set<TokenKind>, i: nat, j: nat)
    requires IsConstant(tokens, i, kinds) && IsConstant(tokens, j, kinds) && tokens[i + 1].value == tokens[j + 1].value
    ensures i == j
  {
    DeclarationBinds(tokens, i, kinds);
  }

  lemma AllGathered(tokens: seq<Token>, kinds: set<TokenKind>, m: map<string, string>, index: nat)
    requires Gathered(tokens, kinds, m, index) && index + 3 >= |tokens|
    ensures AreConstants(tokens, kinds, m)
  {}

  method CollectStringConstants(tokens: seq<Token>, kinds: set<TokenKind>) returns (constants: map<string, string>)
    ensures AreConstants(tokens, kinds, constants)
  {
    hide Gathered, AreConstants, AreSites, BoundOnlyAt;
    constants := map[];
    var sites := CollectBindingSites(tokens);
    var index := 0;
    NothingGathered(tokens, kinds);
    while index + 3 < |tokens|
      invariant Gathered(tokens, kinds, constants, index)
    {
      ghost var before := constants;
      if DeclaresLiteral(tokens, index, kinds) {
        OneSite(tokens, sites, index, kinds);
        var name := tokens[index + 1].value;
        if |sites[name]| == 1 {
          constants := constants[name := tokens[index + 3].value];
        }
      }
      GatherOne(tokens, kinds, before, index);
      index := index + 1;
    }
    AllGathered(tokens, kinds, constants, index);
  }

  /** A source has one reading of its constants. */
  lemma ConstantsUnique(tokens: seq<Token>, kinds: set<TokenKind>, a: map<string, string>, b: map<string, string>)
    requires AreConstants(tokens, kinds, a) && AreConstants(tokens, kinds, b)
    ensures a == b
  {
    forall name | name in a || name in b ensures name in a && name in b && a[name] == b[name] {
      var i: nat :| IsConstant(tokens, i, kinds) && tokens[i + 1].value == name;
    }
    assert a.Keys == b.Keys;
  }

  // ---- The SQL a `.raw` argument stands for ---------------------------------------------

  /** A template cut at its `${...}` placeholders: literal text, then the text between the braces. */
  datatype Segment = Text(text: string) | Hole(inner: string)

  function Segments(value: string): (r: seq<Segment>)
    decreases |value|
  {
    var open := IndexOf(value, 0, "${");
    if open.None? then [Text(value)]
    else
      var close := IndexOf(value, open.value + 2, "}");
      if close.None? then [Text(value)]
      else
        [Text(value[..open.value]), Hole(value[open.value + 2..close.value])]
        + Segments(value[close.value + 1..])
  }

  function Unparse(segments: seq<Segment>): string {
    if segments == [] then []
    else
      (match segments[0] case Text(t) => t case Hole(h) => "${" + h + "}") + Unparse(segments[1..])
  }

  lemma UnparseCut(text: string, inner: string, rest: seq<Segment>)
    ensures Unparse([Text(text), Hole(inner)] + rest) == text + ("${" + inner + "}" + Unparse(rest))
  {
    var all := [Text(text), Hole(inner)] + rest;
    assert all[1..] == [Hole(inner)] + rest;
    assert ([Hole(inner)] + rest)[1..] == rest;
  }

  lemma UnparseText(value: string)
    ensures Unparse([Text(value)]) == value
  {
    assert Unparse([]) == [];
  }

  lemma CutText(value: string, o: nat, c: nat)
    requires StartsWith(value, o, "${") && o + 2 <= c && StartsWith(value, c, "}")
    ensures value == value[..o] + ("${" + value[o + 2..c] + "}" + value[c + 1..])
  {
    assert value[o..o + 2] == "${" && value[c..c + 1] == "}";
    assert value == value[..o] + (value[o..o + 2] + value[o + 2..c] + value[c..c + 1] + value[c + 1..]);
  }

  /** Cutting a template into segments loses nothing. */
  lemma {:induction false} SegmentsKeepText(value: string)
    ensures Unparse(Segments(value)) == value
    decreases |value|
  {
    hide IndexOf, Unparse;
    UnparseText(value);
    var open := IndexOf(value, 0, "${");
    if open.Some? {
      var close := IndexOf(value, open.value + 2, "}");
      if close.Some? {
        var tail := value[close.value + 1..];
        SegmentsKeepText(tail);
        UnparseCut(value[..open.value], value[open.value + 2..close.value], Segments(tail));
        CutText(value, open.value, close.value);
      }
    }
  }

  /** The template with every placeholder replaced by the constant it names. */
  function Fill(segments: seq<Segment>, constants: map<string, string>): Option<string> {
    if segments == [] then Some([])
    else
      var rest := Fill(segments[1..], constants);
      if rest.None? then None
      else
        match segments[0]
        case Text(t) => Some(t + rest.value)
        case Hole(h) =>
          if Trim(h) in constants then Some(constants[Trim(h)] + rest.value) else None
  }

  predicate MentionsPlaceholder(s: string) { IndexOf(s, 0, "${").Some? }

  function ResolveSql(token: Option<Token>, constants: map<string, string>): Option<string> {
    if token.None? then None
    else
      match token.value.kind
      case StringLiteral => Some(token.value.value)
      case Template => Some(token.value.value)
      case DynamicTemplate =>
        var filled := Fill(Segments(token.value.value), constants);
        if filled.None? || MentionsPlaceholder(filled.value) then None else filled
      case _ => None
  }

  function Prepend(text: string, o: Option<string>): Option<string> {
    if o.None? then None else Some(text + o.value)
  }

  lemma PrependTwice(a: string, b: string, o: Option<string>)
    ensures Prepend(a, Prepend(b, o)) == Prepend(a + b, o)
    ensures Prepend([], o) == o
  {
    if o.Some? {
      assert a + (b + o.value) == a + b + o.value;
      assert [] + o.value == o.value;
    }
  }

  lemma FillCut(text: string, inner: string, rest: seq<Segment>, constants: map<string, string>)
    ensures Fill([Text(text), Hole(inner)] + rest, constants) ==
      if Trim(inner) in constants then Prepend(text + constants[Trim(inner)], Fill(rest, constants)) else None
  {
    var all := [Text(text), Hole(inner)] + rest;
    assert all[1..] == [Hole(inner)] + rest;
    assert ([Hole(inner)] + rest)[1..] == rest;
    var tail := Fill(rest, constants);
    if Trim(inner) in constants && tail.Some? {
      assert text + (constants[Trim(inner)] + tail.value) == text + constants[Trim(inner)] + tail.value;
    }
  }

  /** Filling the first placeholder of a template, and then the rest. */
  lemma FillFirst(value: string, o: nat, c: nat, resolved: string, constants: map<string, string>)
    requires IndexOf(value, 0, "${") == Some(o) && IndexOf(value, o + 2, "}") == Some(c)
    ensures o + 2 <= c < |value|
    ensures var text, name := value[..o], Trim(value[o + 2..c]);
      Prepend(resolved, Fill(Segments(value), constants)) ==
        if name in constants
        then Prepend(resolved + (text + constants[name]), Fill(Segments(value[c + 1..]), constants)) else None
  {
    hide IndexOf, Fill, Trim;
    var text, inner, rest := value[..o], value[o + 2..c], Segments(value[c + 1..]);
    assert Segments(value) == [Text(text), Hole(inner)] + rest;
    FillCut(text, inner, rest, constants);
    if Trim(inner) in constants { PrependTwice(resolved, text + constants[Trim(inner)], Fill(rest, constants)); }
  }

  predicate NoPlaceholder(value: string) {
    var open := IndexOf(value, 0, "${");
    open.None? || IndexOf(value, open.value + 2, "}").None?
  }

  lemma FillPlain(value: string, constants: map<string, string>)
    requires NoPlaceholder(value)
    ensures Fill(Segments(value), constants) == Some(value)
  {
    assert Segments(value) == [Text(value)];
    assert [Text(value)][1..] == [];
    assert value + [] == value;
  }

  /** The first placeholder's brackets. */
  function FirstPlaceholder(value: string): (r: Option<(nat, nat)>)
    ensures r.None? <==> NoPlaceholder(value)
    ensures r.Some? ==> IndexOf(value, 0, "${") == Some(r.value.0) && IndexOf(value, r.value.0 + 2, "}") == Some(r.value.1)
    ensures r.Some? ==> r.value.0 + 2 <= r.value.1 < |value|
  {
    var open := IndexOf(value, 0, "${");
    if open.None? then None
    else
      var close := IndexOf(value, open.value + 2, "}");
      if close.None? then None else Some((open.value, close.value))
  }

  datatype Filling = Done | UnknownName | Next(resolved: string, rest: string)

  predicate FillsOn(resolved: string, rest: string, constants: map<string, string>, r: Filling) {
    var filled := Fill(Segments(rest), constants);
    match r
    case Done => filled == Some(rest)
    case UnknownName => filled == None
    case Next(resolved', rest') =>
      |rest'| < |rest| && Prepend(resolved, filled) == Prepend(resolved', Fill(Segments(rest'), constants))
  }

  /** Substitutes the first placeholder, if there is one. */
  method FillNext(resolved: string, rest: string, constants: map<string, string>) returns (r: Filling)
    ensures FillsOn(resolved, rest, constants, r)
  {
    var placeholder := FirstPlaceholder(rest);
    if placeholder.None? {
      FillPlain(rest, constants);
      return Done;
    }
    var (open, close) := placeholder.value;
    FillFirst(rest, open, close, resolved, constants);
    var name := Trim(rest[open + 2..close]);
    if name !in constants {
      NothingPrepended(resolved, Fill(Segments(rest), constants));
      return UnknownName;
    }
    return Next(resolved + (rest[..open] + constants[name]), rest[close + 1..]);
  }

  lemma NothingPrepended(text: string, o: Option<string>)
    requires Prepend(text, o) == None
    ensures o == None
  {}

  /** Substitutes placeholder after placeholder, giving up at the first unknown name. */
  method FillTemplate(value: string, constants: map<string, string>) returns (r: Option<string>)
    ensures r == Fill(Segments(value), constants)
  {
    ghost var whole := Fill(Segments(value), constants);
    var resolved: string, rest := [], value;
    PrependTwice([], [], whole);
    var step := FillNext(resolved, rest, constants);
    while step.Next?
      invariant whole == Prepend(resolved, Fill(Segments(rest), constants))
      invariant FillsOn(resolved, rest, constants, step)
      decreases |rest|, step.Next?
    {
      resolved, rest := step.resolved, step.rest;
      step := FillNext(resolved, rest, constants);
    }
    return if step.Done? then Some(resolved + rest) else None;
  }

  method ResolveSqlArgument(token: Option<Token>, constants: map<string, string>) returns (r: Option<string>)
    ensures r == ResolveSql(token, constants)
  {
    if token.None? { return None; }
    if token.value.kind == StringLiteral || token.value.kind == Template { return Some(token.value.value); }
    if token.value.kind != DynamicTemplate { return None; }
    r := FillTemplate(token.value.value, constants);
    if r.Some? && MentionsPlaceholder(r.value) { return None; }
  }

  // ---- What one token of the body contributes -------------------------------------------

  function Max(a: Weight, b: Weight): Weight {
    if a == Yes || b == Yes then Yes else if a == Maybe || b == Maybe then Maybe else No
  }

  function Join(a: Findings, b: Findings): Findings {
    Findings(a.operations + b.operations, Max(a.locks, b.locks), Max(a.rewrites, b.rewrites),
             Max(a.scans, b.scans), a.reasons + b.reasons)
  }

  function At(body: seq<Token>, k: nat): Option<Token> {
    if k < |body| then Some(body[k]) else None
  }

  predicate MarkAt(body: seq<Token>, k: int, c: char) { 0 <= k < |body| && IsMark(body[k], c) }

  predicate NameAt(body: seq<Token>, k: int, name: string) { 0 <= k < |body| && IsName(body[k], name) }

  predicate SpelledAt(body: seq<Token>, k: nat, words: seq<string>) { k < |body| && body[k].value in words }

  /** The member name `raw`. */
  predicate IsRawMember(body: seq<Token>, i: nat) { NameAt(body, i, "raw") && MarkAt(body, i - 1, '.') }

  predicate IsBoundary(t: Token, depth: nat) {
    t.depth == depth && (IsMark(t, '(') || IsMark(t, ';') || IsMark(t, ','))
  }

  /** Where the argument list of the `raw` member at `i` opens, past any type arguments. */
  function RawOpening(body: seq<Token>, i: nat): (r: Option<nat>)
    ensures r.Some? ==> i < r.value < |body|
  {
    if !IsRawMember(body, i)
      || !(MarkAt(body, i + 1, '(') || (i + 1 < |body| && body[i + 1].kind == Operator && body[i + 1].value == "<"))
    then None
    else
      var depth := body[i].depth;
      var boundary := FirstAfter(body, i, (t: Token) => IsBoundary(t, depth));
      if boundary.Some? && IsMark(body[boundary.value], '(') then boundary else None
  }

  predicate IsMethodCall(body: seq<Token>, i: nat) {
    && i < |body| && body[i].kind == Identifier && MarkAt(body, i - 1, '.')
    && (MarkAt(body, i + 1, '(') || RawOpening(body, i).Some?)
  }

  predicate IsConnection(body: seq<Token>, i: nat) { NameAt(body, i, "knex") || NameAt(body, i, "trx") }

  /** The connection at `i` is only used to reach `raw`. */
  predicate ReachesRaw(body: seq<Token>, i: nat) { MarkAt(body, i + 1, '.') && NameAt(body, i + 2, "raw") }

  datatype Constants = Constants(tables: map<string, string>, sql: map<string, string>)

  function ResolveTable(token: Option<Token>, constants: map<string, string>): Option<string> {
    if token.None? then None
    else
      match token.value.kind
      case StringLiteral => Some(token.value.value)
      case Template => Some(token.value.value)
      case Identifier =>
        if token.value.value in constants then Some(constants[token.value.value]) else None
      case _ => None
  }

  /** The text of the `.raw` call at `i`, when its first argument ends where it should and is static. */
  function RawSql(body: seq<Token>, i: nat, c: Constants): Option<string> {
    var opening := RawOpening(body, i);
    if opening.None? || !SpelledAt(body, opening.value + 2, [")", ","]) then None
    else ResolveSql(At(body, opening.value + 1), c.sql)
  }

  const UNKNOWN := NOTHING.(operations := {Unknown})

  function TableFinding(argument: Option<Token>, c: Constants): Findings {
    if ResolveTable(argument, c.tables).None? then NOTHING.(reasons := {UnresolvedTableName}) else NOTHING
  }

  /** A connection used for anything but `raw`, or a `raw` that is not called. */
  function ReceiverFinding(body: seq<Token>, i: nat, c: Constants): Findings {
    var uncalled := if IsRawMember(body, i) && RawOpening(body, i).None? then UNKNOWN else NOTHING;
    var connection :=
      if IsConnection(body, i) && MarkAt(body, i + 1, '(') then Join(UNKNOWN, TableFinding(At(body, i + 2), c))
      else if IsConnection(body, i) && !ReachesRaw(body, i) then UNKNOWN
      else NOTHING;
    Join(uncalled, connection)
  }

  const ALTERING: set<string> := {"alterTable", "table", "renameTable", "dropTable", "dropTableIfExists"}
  const CREATING: set<string> := {"createTable", "createTableIfNotExists"}
  const READING: set<string> :=
    {"from", "into", "join", "leftJoin", "rightJoin", "innerJoin", "fullOuterJoin", "inTable"}
  const WRITING: set<string> := {"update", "delete", "del"}
  const INDEXING: set<string> := {"index", "unique", "primary", "foreign"}
  const UNINDEXING: set<string> := {"dropIndex", "dropUnique", "dropPrimary", "dropForeign"}
  const RESHAPING: set<string> :=
    {"dropColumn", "dropColumns", "renameColumn", "setNullable", "dropNullable", "alter"}

  /** What naming a table as the first argument of this method implies. */
  function TableCallFinding(name: string, argument: Option<Token>, c: Constants): Findings {
    if name in ALTERING then Join(TableFinding(argument, c), NOTHING.(locks := Yes))
    else if name in CREATING || name in READING then TableFinding(argument, c)
    else NOTHING
  }

  /** What a schema or query method of this name does to rows and columns. */
  function ShapeFinding(name: string): Findings {
    Findings(
      {},
      if name in INDEXING || name in UNINDEXING || name in RESHAPING || name == "truncate" then Yes else No,
      if name in WRITING || name == "truncate" then Yes else if name == "alter" then Maybe else No,
      if name in WRITING || name in INDEXING then Yes else No,
      if name == "alter" then {ColumnAlter} else {})
  }

  function CallFinding(name: string, argument: Option<Token>, c: Constants): Findings {
    Join(TableCallFinding(name, argument, c), ShapeFinding(name))
  }

  function Classified(statements: seq<string>, sql: SqlReader): set<Operation> {
    set k | 0 <= k < |statements| :: sql.classify(statements[k])
  }

  function Flag(b: bool): Weight { if b then Yes else No }

  /** What running a known SQL text implies; nothing is known of an unresolved one. */
  function SqlFinding(text: Option<string>, sql: SqlReader): Findings {
    if text.None? then Findings({Unknown}, Maybe, Maybe, Maybe, {ParseFailure})
    else
      var statements := sql.statements(text.value);
      Findings(
        (if statements == [] then {Unknown} else {}) + Classified(statements, sql),
        Flag(sql.locks(text.value)), Flag(sql.rewrites(text.value)), Flag(sql.scans(text.value)), {})
  }

  function FindingAt(body: seq<Token>, i: nat, c: Constants, sql: SqlReader): Findings
    requires i < |body|
  {
    var called :=
      if !IsMethodCall(body, i) then NOTHING
      else if body[i].value == "raw" then SqlFinding(RawSql(body, i, c), sql)
      else CallFinding(body[i].value, At(body, i + 2), c);
    Join(ReceiverFinding(body, i, c), called)
  }

  /** What each token of the body contributes. */
  function FindingsOf(body: seq<Token>, c: Constants, sql: SqlReader): (r: seq<Findings>)
    ensures |r| == |body|
  {
    seq(|body|, i requires 0 <= i < |body| => FindingAt(body, i, c, sql))
  }

  function Total(findings: seq<Findings>): Findings {
    if findings == [] then NOTHING
    else Join(Total(findings[..|findings| - 1]), findings[|findings| - 1])
  }

  /** A source that could not be read: nothing about it may be ruled out. */
  const UNREADABLE := Findings({Unknown}, Maybe, Maybe, Maybe, {ParseFailure})

  /**
   The analysis of a tokenized source. The source lowers its `complete` flag exactly when it
   records a reason, so the flag is read off the reasons here.
   */
  function Analyze(tokens: seq<Token>, valid: bool, c: Constants, sql: SqlReader): Analysis {
    var body := FindUpBody(tokens);
    var found := if body.None? then UNREADABLE else Total(FindingsOf(body.value, c, sql));
    var all := if valid then found else Join(found, UNREADABLE);
    Analysis(all, all.reasons == {})
  }

  // ---- The analysis, one token at a time --------------------------------------------------

  method AddTable(f: Findings, argument: Option<Token>, c: Constants) returns (r: Findings)
    ensures r == Join(f, TableFinding(argument, c))
  {
    r := f;
    if ResolveTable(argument, c.tables).None? { r := r.(reasons := r.reasons + {UnresolvedTableName}); }
  }

  method VisitTableCall(f: Findings, name: string, argument: Option<Token>, c: Constants) returns (r: Findings)
    ensures r == Join(f, TableCallFinding(name, argument, c))
  {
    r := f;
    if name in ALTERING {
      r := AddTable(r, argument, c);
      r := r.(locks := Yes);
    } else if name in CREATING {
      r := AddTable(r, argument, c);
    } else if name in READING {
      r := AddTable(r, argument, c);
    }
  }

  method VisitShape(f: Findings, name: string) returns (r: Findings)
    ensures r == Join(f, ShapeFinding(name))
  {
    r := f;
    if name in WRITING { r := r.(rewrites := Yes, scans := Yes); }
    if name == "truncate" { r := r.(locks := Yes, rewrites := Yes); }
    if name in INDEXING || name in UNINDEXING {
      r := r.(locks := Yes);
      if name in INDEXING { r := r.(scans := Yes); }
    }
    if name in RESHAPING { r := r.(locks := Yes); }
    if name == "alter" {
      if r.rewrites != Yes { r := r.(rewrites := Maybe); }
      r := r.(reasons := r.reasons + {ColumnAlter});
    }
  }

  method VisitSql(f: Findings, text: Option<string>, sql: SqlReader) returns (r: Findings)
    ensures r == Join(f, SqlFinding(text, sql))
  {
    r := f;
    if text.None? {
      r := Findings(r.operations + {Unknown},
                    if r.locks == Yes then Yes else Maybe,
                    if r.rewrites == Yes then Yes else Maybe,
                    if r.scans == Yes then Yes else Maybe,
                    r.reasons + {ParseFailure});
      return;
    }
    var statements := sql.statements(text.value);
    if |statements| == 0 { r := r.(operations := r.operations + {Unknown}); }
    ghost var start := r.operations;
    for k := 0 to |statements|
      invariant r == f.(operations := start + Classified(statements[..k], sql))
    {
      ClassifiedStep(statements, k, sql);
      r := r.(operations := r.operations + {sql.classify(statements[k])});
    }
    assert statements[..|statements|] == statements;
    if sql.locks(text.value) { r := r.(locks := Yes); }
    if sql.rewrites(text.value) { r := r.(rewrites := Yes); }
    if sql.scans(text.value) { r := r.(scans := Yes); }
  }

  lemma ClassifiedStep(statements: seq<string>, k: nat, sql: SqlReader)
    requires k < |statements|
    ensures Classified(statements[..k + 1], sql) == Classified(statements[..k], sql) + {sql.classify(statements[k])}
  {
    var more, less := statements[..k + 1], statements[..k];
    forall op | op in Classified(more, sql) ensures op in Classified(less, sql) + {sql.classify(statements[k])} {
      var j :| 0 <= j < |more| && op == sql.classify(more[j]);
      if j < k { assert less[j] == more[j]; }
    }
    forall op | op in Classified(less, sql) + {sql.classify(statements[k])} ensures op in Classified(more, sql) {
      if op in Classified(less, sql) {
        var j :| 0 <= j < |less| && op == sql.classify(less[j]);
        assert more[j] == less[j];
      } else {
        assert more[k] == statements[k];
      }
    }
  }

  method VisitReceiver(f: Findings, body: seq<Token>, i: nat, c: Constants) returns (r: Findings)
    ensures r == Join(f, ReceiverFinding(body, i, c))
  {
    r := f;
    if IsRawMember(body, i) && RawOpening(body, i).None? {
      r := r.(operations := r.operations + {Unknown});
    }
    if IsConnection(body, i) && MarkAt(body, i + 1, '(') {
      r := AddTable(r, At(body, i + 2), c);
      r := r.(operations := r.operations + {Unknown});
    } else if IsConnection(body, i) && !ReachesRaw(body, i) {
      r := r.(operations := r.operations + {Unknown});
    }
  }

  lemma JoinAssociates(a: Findings, b: Findings, d: Findings)
    ensures Join(Join(a, b), d) == Join(a, Join(b, d))
    ensures Join(a, NOTHING) == a && Join(NOTHING, a) == a
  {}

  method VisitToken(f: Findings, body: seq<Token>, i: nat, c: Constants, sql: SqlReader) returns (r: Findings)
    requires i < |body|
    ensures r == Join(f, FindingAt(body, i, c, sql))
  {
    r := VisitReceiver(f, body, i, c);
    if !IsMethodCall(body, i) {
      JoinAssociates(f, ReceiverFinding(body, i, c), NOTHING);
      return;
    }
    var name := body[i].value;
    if name == "raw" {
      var text: Option<string> := None;
      var opening := RawOpening(body, i);
      if opening.Some? && SpelledAt(body, opening.value + 2, [")", ","]) {
        text := ResolveSqlArgument(At(body, opening.value + 1), c.sql);
      }
      r := VisitSql(r, text, sql);
      JoinAssociates(f, ReceiverFinding(body, i, c), SqlFinding(text, sql));
    } else {
      var argument := At(body, i + 2);
      var receiver, table := ReceiverFinding(body, i, c), TableCallFinding(name, argument, c);
      r := VisitTableCall(r, name, argument, c);
      r := VisitShape(r, name);
      JoinAssociates(Join(f, receiver), table, ShapeFinding(name));
      JoinAssociates(f, receiver, CallFinding(name, argument, c));
    }
  }

  /** The constants `Analyze` needs: table names may be strings, SQL may also embed numbers. */
  ghost predicate ReadsConstants(tokens: seq<Token>, c: Constants) {
    && AreConstants(tokens, {StringLiteral, Template}, c.tables)
    && AreConstants(tokens, {StringLiteral, Template, Number}, c.sql)
  }

  /** `a` is the analysis of `source`. */
  ghost predicate Analyzes(source: string, decode: string -> string, sql: SqlReader, a: Analysis) {
    exists tokens, valid, c ::
      && Tokenized(source, decode, tokens, valid)
      && ReadsConstants(tokens, c)
      && a == Analyze(tokens, valid, c, sql)
  }

  method AnalyzeMigrationSource(source: string, decode: string -> string, sql: SqlReader) returns (a: Analysis)
    ensures Analyzes(source, decode, sql, a)
  {
    hide Tokenized, FindUpBody, AreConstants, Total, FindingsOf, Join;
    var tokens, valid := Tokenize(source, decode);
    var body := FindUpBody(tokens);
    var tables := CollectStringConstants(tokens, {StringLiteral, Template});
    var literals := CollectStringConstants(tokens, {StringLiteral, Template, Number});
    var c := Constants(tables, literals);
    var f := UNREADABLE;
    if body.Some? { f := VisitBody(body.value, c, sql); }
    if !valid { f := VisitSql(f, None, sql); }
    a := Analysis(f, f.reasons == {});
    assert a == Analyze(tokens, valid, c, sql);
  }

  method VisitBody(body: seq<Token>, c: Constants, sql: SqlReader) returns (f: Findings)
    ensures f == Total(FindingsOf(body, c, sql))
  {
    hide FindingAt, Join;
    f := NOTHING;
    ghost var each := FindingsOf(body, c, sql);
    for index := 0 to |body|
      invariant f == Total(each[..index])
    {
      f := VisitToken(f, body, index, c, sql);
      assert each[..index + 1][..index] == each[..index];
    }
    assert each[..|body|] == each;
  }
}
