/**
 What the analysis of scripts/release-safety-migrations.ts says about an `up` body, token by
 token: which calls run which SQL, which methods weigh on a table, and what is left unknown.
 */
module MigrationMeaning {
  import opened Options
  import opened JsText
  import opened Lexer
  import opened Nesting
  import opened MigrationAnalysis
  import opened TokenSpelling

  // ---- Names that are bound ---------------------------------------------------------------

  /** Token `o` spells a bracket, and `c` is the first place from there on where those of its kind are even. */
  ghost predicate Surround(tokens: seq<Token>, o: nat, c: nat) {
    && o < |tokens|
    && ((tokens[o].value == "(" && FirstReturn(tokens, o, c, '(', ')'))
        || (tokens[o].value == "[" && FirstReturn(tokens, o, c, '[', ']'))
        || (tokens[o].value == "{" && FirstReturn(tokens, o, c, '{', '}')))
  }

  /** A name between the two that is no member. */
  ghost predicate IsInside(tokens: seq<Token>, o: nat, c: nat, k: nat) {
    Surround(tokens, o, c) && o < k < c < |tokens| && tokens[k].kind == Identifier && tokens[k - 1].value != "."
  }

  /** A name in the brackets that open at `o`. */
  ghost predicate IsWithin(tokens: seq<Token>, o: nat, k: nat) { exists c :: IsInside(tokens, o, c, k) }

  ghost predicate IsAssigned(tokens: seq<Token>, k: nat) {
    k + 1 < |tokens| && tokens[k].kind == Identifier && IsOperator(tokens, k + 1, "=")
  }

  /** A name in a list with an arrow behind it. */
  ghost predicate IsParameter(tokens: seq<Token>, k: nat, o: nat, c: nat) {
    IsPunctuation(tokens, o, "(") && IsInside(tokens, o, c, k) && c + 1 < |tokens| && tokens[c + 1].value == "=>"
  }

  /** The name behind a keyword, or one in the brackets behind that name or behind the keyword. */
  ghost predicate IsDeclared(tokens: seq<Token>, k: nat, i: nat) {
    && i + 1 < |tokens| && tokens[i].kind == Identifier
    && tokens[i].value in {"const", "let", "var", "function", "class", "catch"}
    && (|| (tokens[i + 1].kind == Identifier && k == i + 1)
        || (tokens[i + 1].kind == Identifier && IsWithin(tokens, i + 2, k) && tokens[i + 2].value == "(")
        || (tokens[i + 1].kind == Punctuation && IsWithin(tokens, i + 1, k)))
  }

  ghost predicate IsBinding(tokens: seq<Token>, k: nat) {
    || IsAssigned(tokens, k)
    || (exists o, c :: IsParameter(tokens, k, o, c))
    || exists i :: IsDeclared(tokens, k, i)
  }

  lemma ClosingExactly(tokens: seq<Token>, o: nat, c: nat)
    ensures ClosingIndex(tokens, o) == Some(c) <==> Surround(tokens, o, c)
  {
    hide FirstReturn, Match;
    if o < |tokens| {
      MatchIsFirstReturn(tokens, o, c, '(', ')');
      MatchIsFirstReturn(tokens, o, c, '[', ']');
      MatchIsFirstReturn(tokens, o, c, '{', '}');
    }
  }

  lemma InsideExactly(tokens: seq<Token>, o: nat, k: nat)
    ensures Enclosed(tokens, o, k) <==> IsWithin(tokens, o, k)
    ensures IsWithin(tokens, o, k) ==> o < |tokens| && tokens[o].value in {"(", "[", "{"}
  {
    hide Surround, ClosingIndex;
    forall c: nat ensures ClosingIndex(tokens, o) == Some(c) <==> Surround(tokens, o, c) { ClosingExactly(tokens, o, c); }
    if Enclosed(tokens, o, k) { assert IsInside(tokens, o, ClosingIndex(tokens, o).value, k); }
  }

  lemma ParameterExactly(tokens: seq<Token>, o: nat, k: nat)
    ensures IsArrowList(tokens, o) && Enclosed(tokens, o, k) <==> exists c :: IsParameter(tokens, k, o, c)
  {
    hide Surround, ClosingIndex;
    forall c: nat ensures ClosingIndex(tokens, o) == Some(c) <==> Surround(tokens, o, c) { ClosingExactly(tokens, o, c); }
    if IsArrowList(tokens, o) && Enclosed(tokens, o, k) { assert IsParameter(tokens, k, o, ClosingIndex(tokens, o).value); }
  }

  lemma DeclaredExactly(tokens: seq<Token>, i: nat, k: nat)
    ensures Declares(tokens, i, k) <==> IsDeclared(tokens, k, i)
  {
    hide IsWithin, Enclosed;
    InsideExactly(tokens, i + 1, k);
    InsideExactly(tokens, i + 2, k);
  }

  /** A token binds a name exactly when it is assigned to, a parameter of an arrow, or declared by a keyword. */
  lemma BindsExactly(tokens: seq<Token>, k: nat)
    ensures Binds(tokens, k) <==> IsBinding(tokens, k)
  {
    hide IsParameter, IsDeclared, Declares, IsArrowList, Enclosed;
    forall i: nat ensures IsArrowList(tokens, i) && Enclosed(tokens, i, k) <==> exists c :: IsParameter(tokens, k, i, c) { ParameterExactly(tokens, i, k); }
    forall i: nat ensures Declares(tokens, i, k) <==> IsDeclared(tokens, k, i) { DeclaredExactly(tokens, i, k); }
    if Binds(tokens, k) {
      var i: nat :| i < |tokens| && BoundBy(tokens, i, k);
      assert IsBinding(tokens, k);
    }
    if IsBinding(tokens, k) { BindingBinds(tokens, k); }
  }

  lemma BindingBinds(tokens: seq<Token>, k: nat)
    requires IsBinding(tokens, k)
    ensures Binds(tokens, k)
  {
    hide IsInside, IsWithin, Declares, IsArrowList, Enclosed;
    if IsAssigned(tokens, k) {
      assert BoundBy(tokens, k, k);
    } else if o, c :| IsParameter(tokens, k, o, c) {
      ParameterExactly(tokens, o, k);
      assert BoundBy(tokens, o, k);
    } else {
      var i :| IsDeclared(tokens, k, i);
      DeclaredExactly(tokens, i, k);
      assert BoundBy(tokens, i, k);
    }
  }

  // ---- The SQL of a call ------------------------------------------------------------------

  /** The first `${`, at `o`, and the first `}` behind it, at `c`. */
  ghost predicate IsFirstHole(value: string, o: nat, c: nat) {
    && o + 2 <= c < |value| && value[o] == '$' && value[o + 1] == '{' && value[c] == '}'
    && (forall k :: 0 <= k < o ==> !(value[k] == '$' && value[k + 1] == '{'))
    && forall k :: o + 2 <= k < c ==> value[k] != '}'
  }

  /** Every `${name}` of the value names a constant, and `text` has the constants in their place. */
  ghost predicate FillsTo(value: string, constants: map<string, string>, text: string)
    decreases |value|
  {
    || (text == value && forall o, c :: !IsFirstHole(value, o, c))
    || exists o, c, tail :: FillsFrom(value, o, c, constants, text, tail)
  }

  ghost predicate FillsFrom(value: string, o: nat, c: nat, constants: map<string, string>, text: string, tail: string)
    decreases |value|, 0
  {
    && IsFirstHole(value, o, c) && Trim(value[o + 2..c]) in constants
    && text == value[..o] + constants[Trim(value[o + 2..c])] + tail
    && FillsTo(value[c + 1..], constants, tail)
  }

  /** `text` is the SQL that the token stands for: a literal's value, or a template's with all its placeholders filled. */
  ghost predicate StandsFor(t: Token, constants: map<string, string>, text: string) {
    || (t.kind in {StringLiteral, Template} && text == t.value)
    || (t.kind == DynamicTemplate && FillsTo(t.value, constants, text)
        && forall k :: 0 <= k < |text| - 1 ==> !(text[k] == '$' && text[k + 1] == '{'))
  }

  /** A member `.raw`. */
  predicate IsRaw(body: seq<Token>, i: int) { IsIdentifier(body, i, "raw") && IsPunctuation(body, i - 1, ".") }

  predicate BreaksOff(body: seq<Token>, k: int) {
    IsPunctuation(body, k, "(") || IsPunctuation(body, k, ";") || IsPunctuation(body, k, ",")
  }

  /** The arguments of the `.raw` at `i` open at `o`, the first of three marks at its own depth. */
  predicate OpensArguments(body: seq<Token>, i: nat, o: nat) {
    && IsRaw(body, i) && (IsPunctuation(body, i + 1, "(") || IsOperator(body, i + 1, "<"))
    && i < o < |body| && IsPunctuation(body, o, "(") && body[o].depth == body[i].depth
    && forall k :: i < k < o ==> !(body[k].depth == body[i].depth && BreaksOff(body, k))
  }

  /** The `.raw` at `i` is called on `text`: its first argument is one token, and the call ends there or another follows. */
  ghost predicate RunsText(body: seq<Token>, i: nat, constants: map<string, string>, text: string) {
    exists o :: RunsAt(body, i, o, constants, text)
  }

  ghost predicate RunsAt(body: seq<Token>, i: nat, o: nat, constants: map<string, string>, text: string) {
    && OpensArguments(body, i, o) && o + 2 < |body| && body[o + 2].value in {")", ","}
    && StandsFor(body[o + 1], constants, text)
  }

  lemma OpensHole(value: string, k: nat)
    ensures StartsWith(value, k, "${") <==> k + 2 <= |value| && value[k] == '$' && value[k + 1] == '{'
  {
    if k + 2 <= |value| { assert value[k..k + 2] == [value[k], value[k + 1]]; }
  }

  lemma ClosesHole(value: string, k: nat)
    ensures StartsWith(value, k, "}") <==> k < |value| && value[k] == '}'
  {
    if k < |value| { assert value[k..k + 1] == [value[k]]; }
  }

  lemma FirstHole(value: string, o: nat, c: nat)
    ensures IsFirstHole(value, o, c) <==> FirstPlaceholder(value) == Some((o, c))
  {
    hide StartsWith;
    forall k: nat ensures StartsWith(value, k, "${") <==> k + 2 <= |value| && value[k] == '$' && value[k + 1] == '{' {
      OpensHole(value, k);
    }
    forall k: nat ensures StartsWith(value, k, "}") <==> k < |value| && value[k] == '}' { ClosesHole(value, k); }
    var open := IndexOf(value, 0, "${");
    if open.Some? {
      var close := IndexOf(value, open.value + 2, "}");
      if close.Some? { assert IsFirstHole(value, open.value, close.value); }
    }
  }

  /** Filling the placeholders one after the other, or failing at the first that names no constant. */
  lemma {:induction false} FillExactly(value: string, constants: map<string, string>, text: string)
    ensures Fill(Segments(value), constants) == Some(text) <==> FillsTo(value, constants, text)
    decreases |value|
  {
    hide Segments, Fill, IsFirstHole, Trim;
    var found := FirstPlaceholder(value);
    forall o, c { FirstHole(value, o, c); }
    if found.None? {
      FillPlain(value, constants);
    } else {
      var (o, c) := found.value;
      var name, rest := Trim(value[o + 2..c]), Fill(Segments(value[c + 1..]), constants);
      FillFirst(value, o, c, [], constants);
      WithNothing(Fill(Segments(value), constants));
      WithNothing2(value[..o], if name in constants then constants[name] else []);
      if rest.Some? { FillExactly(value[c + 1..], constants, rest.value); }
      forall tail | FillsFrom(value, o, c, constants, text, tail) ensures rest == Some(tail) {
        FillExactly(value[c + 1..], constants, tail);
      }
      if rest.Some? && name in constants && text == value[..o] + constants[name] + rest.value {
        assert FillsFrom(value, o, c, constants, text, rest.value);
      }
    }
  }

  lemma WithNothing(o: Option<string>)
    ensures Prepend([], o) == o
  {
    PrependTwice([], [], o);
  }

  lemma WithNothing2(a: string, b: string)
    ensures [] + (a + b) == a + b
  {}

  lemma SqlOfToken(t: Token, constants: map<string, string>, text: string)
    ensures ResolveSql(Some(t), constants) == Some(text) <==> StandsFor(t, constants, text)
  {
    hide Fill, Segments, FillsTo, StartsWith;
    FillExactly(t.value, constants, text);
    forall k: nat ensures StartsWith(text, k, "${") <==> k + 2 <= |text| && text[k] == '$' && text[k + 1] == '{' {
      OpensHole(text, k);
    }
    var mention := IndexOf(text, 0, "${");
    if mention.Some? { OpensHole(text, mention.value); }
    assert MentionsPlaceholder(text) <==> mention.Some?;
  }

  lemma OpeningExactly(body: seq<Token>, i: nat, o: nat)
    requires i < |body|
    ensures RawOpening(body, i) == Some(o) <==> OpensArguments(body, i, o)
  {}

  /** The text that the analysis reads off a `.raw` call is exactly the one it runs. */
  lemma RawSqlExactly(body: seq<Token>, i: nat, c: Constants, text: string)
    requires i < |body|
    ensures RawSql(body, i, c) == Some(text) <==> RunsText(body, i, c.sql, text)
  {
    hide RawOpening, OpensArguments, ResolveSql, StandsFor;
    forall o: nat { OpeningExactly(body, i, o); }
    forall t: Token { SqlOfToken(t, c.sql, text); }
    if RawSql(body, i, c) == Some(text) {
      assert RunsAt(body, i, RawOpening(body, i).value, c.sql, text);
    }
  }

  // ---- What a token of the body means -------------------------------------------------------

  /** A method with one of the names, called directly. */
  predicate Calls(body: seq<Token>, i: int, names: set<string>) {
    && 0 <= i < |body| && body[i].kind == Identifier && body[i].value in names
    && IsPunctuation(body, i - 1, ".") && IsPunctuation(body, i + 1, "(")
  }

  predicate IsConnectionName(body: seq<Token>, i: int) { IsIdentifier(body, i, "knex") || IsIdentifier(body, i, "trx") }

  /** Token `k` is a table's name, or that of a constant that holds one. */
  predicate NamesTable(body: seq<Token>, k: nat, tables: map<string, string>) {
    k < |body| && (body[k].kind in {StringLiteral, Template} || (body[k].kind == Identifier && body[k].value in tables))
  }

  /** The `.raw` at `i` is called, and what it runs is not static. */
  ghost predicate IsUnread(body: seq<Token>, i: nat, c: Constants) {
    && IsRaw(body, i) && (IsPunctuation(body, i + 1, "(") || exists o :: OpensArguments(body, i, o))
    && forall text :: !RunsText(body, i, c.sql, text)
  }

  /** The token leaves open what the migration does: a `.raw` without static SQL, SQL without statements, or a connection used otherwise. */
  ghost predicate IsObscure(body: seq<Token>, i: nat, c: Constants, sql: SqlReader) {
    || (IsRaw(body, i) && forall text :: !RunsText(body, i, c.sql, text))
    || (exists text :: RunsText(body, i, c.sql, text) && sql.statements(text) == [])
    || (IsConnectionName(body, i) && !(IsPunctuation(body, i + 1, ".") && IsIdentifier(body, i + 2, "raw")))
  }

  /** A statement of the SQL run at `i` is classified as `op`. */
  ghost predicate Performs(body: seq<Token>, i: nat, c: Constants, sql: SqlReader, op: Operation) {
    exists text :: RunsText(body, i, c.sql, text) && Classifies(sql, text, op)
  }

  predicate Classifies(sql: SqlReader, text: string, op: Operation) {
    exists k :: 0 <= k < |sql.statements(text)| && sql.classify(sql.statements(text)[k]) == op
  }

  /** The SQL run at `i` has the property. */
  ghost predicate RunsSome(body: seq<Token>, i: nat, c: Constants, p: string -> bool) {
    exists text :: RunsText(body, i, c.sql, text) && p(text)
  }

  ghost predicate Locks(body: seq<Token>, i: nat, c: Constants, sql: SqlReader) {
    || Calls(body, i, {"alterTable", "table", "renameTable", "dropTable", "dropTableIfExists", "truncate",
         "index", "unique", "primary", "foreign", "dropIndex", "dropUnique", "dropPrimary", "dropForeign",
         "dropColumn", "dropColumns", "renameColumn", "setNullable", "dropNullable", "alter"})
    || RunsSome(body, i, c, sql.locks)
  }

  ghost predicate Rewrites(body: seq<Token>, i: nat, c: Constants, sql: SqlReader) {
    Calls(body, i, {"update", "delete", "del", "truncate"}) || RunsSome(body, i, c, sql.rewrites)
  }

  ghost predicate Scans(body: seq<Token>, i: nat, c: Constants, sql: SqlReader) {
    || Calls(body, i, {"update", "delete", "del", "index", "unique", "primary", "foreign"})
    || RunsSome(body, i, c, sql.scans)
  }

  /** A table is named there, and not by a literal or a constant. */
  predicate NamesUnknownTable(body: seq<Token>, i: nat, c: Constants) {
    && (|| Calls(body, i, {"alterTable", "table", "renameTable", "dropTable", "dropTableIfExists",
             "createTable", "createTableIfNotExists", "from", "into", "join", "leftJoin", "rightJoin",
             "innerJoin", "fullOuterJoin", "inTable"})
        || (IsConnectionName(body, i) && IsPunctuation(body, i + 1, "(")))
    && !NamesTable(body, i + 2, c.tables)
  }

  /** The token performs the operation, or leaves open what it does. */
  ghost predicate Shows(body: seq<Token>, i: nat, c: Constants, sql: SqlReader, op: Operation) {
    (op == Operation.Unknown && IsObscure(body, i, c, sql)) || Performs(body, i, c, sql, op)
  }

  ghost predicate OperationsMean(f: Findings, body: seq<Token>, i: nat, c: Constants, sql: SqlReader) {
    forall op :: op in f.operations <==> Shows(body, i, c, sql, op)
  }

  ghost predicate WeightsMean(f: Findings, body: seq<Token>, i: nat, c: Constants, sql: SqlReader) {
    && (f.locks == Yes <==> Locks(body, i, c, sql))
    && (f.rewrites == Yes <==> Rewrites(body, i, c, sql))
    && (f.scans == Yes <==> Scans(body, i, c, sql))
    && (f.locks == Maybe <==> IsUnread(body, i, c))
    && (f.rewrites == Maybe <==> IsUnread(body, i, c) || Calls(body, i, {"alter"}))
    && (f.scans == Maybe <==> IsUnread(body, i, c))
  }

  ghost predicate ReasonsMean(f: Findings, body: seq<Token>, i: nat, c: Constants) {
    && (ParseFailure in f.reasons <==> IsUnread(body, i, c))
    && (ColumnAlter in f.reasons <==> Calls(body, i, {"alter"}))
    && (UnresolvedTableName in f.reasons <==> NamesUnknownTable(body, i, c))
  }

  /** Findings that say of one token what it means. */
  ghost predicate MeansToken(f: Findings, body: seq<Token>, i: nat, c: Constants, sql: SqlReader) {
    OperationsMean(f, body, i, c, sql) && WeightsMean(f, body, i, c, sql) && ReasonsMean(f, body, i, c)
  }

  /** Whether the SQL of a `.raw` is known, and what it says if it is. */
  lemma RawMeans(body: seq<Token>, i: nat, c: Constants)
    requires i < |body|
    ensures RawSql(body, i, c).Some? ==>
      forall text :: RunsText(body, i, c.sql, text) <==> text == RawSql(body, i, c).value
    ensures RawSql(body, i, c).None? ==> forall text :: !RunsText(body, i, c.sql, text)
    ensures RawSql(body, i, c).Some? ==> RunsText(body, i, c.sql, RawSql(body, i, c).value)
  {
    hide RawSql, RunsText;
    forall text ensures RunsText(body, i, c.sql, text) <==> RawSql(body, i, c) == Some(text) { RawSqlExactly(body, i, c, text); }
  }

  lemma OpensExactly(body: seq<Token>, i: nat)
    requires i < |body|
    ensures RawOpening(body, i).Some? <==> exists o :: OpensArguments(body, i, o)
  {
    hide RawOpening, OpensArguments;
    forall o: nat { OpeningExactly(body, i, o); }
    if RawOpening(body, i).Some? { assert OpensArguments(body, i, RawOpening(body, i).value); }
  }

  /** What SQL that is known, or is not, adds. */
  lemma SqlMeans(text: Option<string>, sql: SqlReader)
    ensures var f := SqlFinding(text, sql);
      && (forall op :: op in f.operations <==>
            if text.None? then op == Operation.Unknown
            else (op == Operation.Unknown && sql.statements(text.value) == []) || Classifies(sql, text.value, op))
      && (f.locks == Yes <==> text.Some? && sql.locks(text.value)) && (f.locks == Maybe <==> text.None?)
      && (f.rewrites == Yes <==> text.Some? && sql.rewrites(text.value)) && (f.rewrites == Maybe <==> text.None?)
      && (f.scans == Yes <==> text.Some? && sql.scans(text.value)) && (f.scans == Maybe <==> text.None?)
      && f.reasons == if text.None? then {ParseFailure} else {}
  {}

  /** A `.raw` that is called adds what its SQL does, and one that is not leaves open what it does. */
  lemma RawFinding(body: seq<Token>, i: nat, c: Constants, sql: SqlReader)
    requires i < |body| && IsRaw(body, i)
    ensures var called := IsPunctuation(body, i + 1, "(") || RawOpening(body, i).Some?;
      FindingAt(body, i, c, sql) ==
        Join(if RawOpening(body, i).None? then UNKNOWN else NOTHING, if called then SqlFinding(RawSql(body, i, c), sql) else NOTHING)
  {
    hide RawOpening, RawSql, SqlFinding;
    assert MarkAt(body, i + 1, '(') <==> IsPunctuation(body, i + 1, "(");
  }

  lemma NoOpeningNoText(body: seq<Token>, i: nat, c: Constants)
    requires i < |body|
    ensures RawOpening(body, i).None? ==> RawSql(body, i, c).None?
  {
    hide RawOpening;
  }

  lemma RawOperations(body: seq<Token>, i: nat, c: Constants, sql: SqlReader)
    requires i < |body| && IsRaw(body, i)
    ensures OperationsMean(FindingAt(body, i, c, sql), body, i, c, sql)
  {
    hide RunsText, RawOpening, RawSql, FindingAt, SqlFinding, Classifies;
    RawFinding(body, i, c, sql);
    RawMeans(body, i, c);
    NoOpeningNoText(body, i, c);
    SqlMeans(RawSql(body, i, c), sql);
  }

  lemma RawIsUnread(body: seq<Token>, i: nat, c: Constants)
    requires i < |body| && IsRaw(body, i)
    ensures IsUnread(body, i, c) <==> (IsPunctuation(body, i + 1, "(") || RawOpening(body, i).Some?) && RawSql(body, i, c).None?
  {
    hide RunsText, RawOpening, RawSql, OpensArguments;
    RawMeans(body, i, c);
    OpensExactly(body, i);
  }

  lemma RawWeights(body: seq<Token>, i: nat, c: Constants, sql: SqlReader)
    requires i < |body| && IsRaw(body, i)
    ensures WeightsMean(FindingAt(body, i, c, sql), body, i, c, sql) && ReasonsMean(FindingAt(body, i, c, sql), body, i, c)
  {
    hide RunsText, RawOpening, RawSql, FindingAt, SqlFinding, IsUnread;
    RawFinding(body, i, c, sql);
    RawMeans(body, i, c);
    NoOpeningNoText(body, i, c);
    SqlMeans(RawSql(body, i, c), sql);
    RawIsUnread(body, i, c);
  }

  lemma OtherFinding(body: seq<Token>, i: nat, c: Constants, sql: SqlReader)
    requires i < |body| && !IsRaw(body, i)
    ensures var called := body[i].kind == Identifier && IsPunctuation(body, i - 1, ".") && IsPunctuation(body, i + 1, "(");
      var table := TableFinding(At(body, i + 2), c);
      FindingAt(body, i, c, sql) ==
        Join(
          if !IsConnectionName(body, i) then NOTHING
          else if IsPunctuation(body, i + 1, "(") then Join(UNKNOWN, table)
          else if IsPunctuation(body, i + 1, ".") && IsIdentifier(body, i + 2, "raw") then NOTHING else UNKNOWN,
          if called then CallFinding(body[i].value, At(body, i + 2), c) else NOTHING)
  {
    hide CallFinding, TableFinding, SqlFinding, RawSql;
    assert RawOpening(body, i).None?;
  }

  lemma TableMeans(body: seq<Token>, k: nat, c: Constants)
    ensures TableFinding(At(body, k), c) == NOTHING.(reasons := if NamesTable(body, k, c.tables) then {} else {UnresolvedTableName})
  {}

  /** A token that is no `.raw` runs nothing. */
  lemma NothingRun(body: seq<Token>, i: nat, c: Constants)
    requires !IsRaw(body, i)
    ensures (forall text :: !RunsText(body, i, c.sql, text)) && !IsUnread(body, i, c)
  {}

  lemma OtherOperations(body: seq<Token>, i: nat, c: Constants, sql: SqlReader)
    requires i < |body| && !IsRaw(body, i)
    ensures OperationsMean(FindingAt(body, i, c, sql), body, i, c, sql)
  {
    hide RunsText, FindingAt, TableFinding, CallFinding, Classifies;
    NothingRun(body, i, c);
    OtherFinding(body, i, c, sql);
    TableMeans(body, i + 2, c);
    CallMeans(body[i].value, body, i + 2, c);
  }

  /** What calling a method of this name adds. */
  lemma CallMeans(name: string, body: seq<Token>, k: nat, c: Constants)
    ensures var f := CallFinding(name, At(body, k), c);
      && f.operations == {}
      && (f.locks == Yes <==> name in {"alterTable", "table", "renameTable", "dropTable", "dropTableIfExists", "truncate",
           "index", "unique", "primary", "foreign", "dropIndex", "dropUnique", "dropPrimary", "dropForeign",
           "dropColumn", "dropColumns", "renameColumn", "setNullable", "dropNullable", "alter"})
      && (f.rewrites == Yes <==> name in {"update", "delete", "del", "truncate"})
      && (f.scans == Yes <==> name in {"update", "delete", "del", "index", "unique", "primary", "foreign"})
      && f.locks != Maybe && f.scans != Maybe && (f.rewrites == Maybe <==> name == "alter")
      && ParseFailure !in f.reasons && (ColumnAlter in f.reasons <==> name == "alter")
      && (UnresolvedTableName in f.reasons <==>
            && name in {"alterTable", "table", "renameTable", "dropTable", "dropTableIfExists",
                 "createTable", "createTableIfNotExists", "from", "into", "join", "leftJoin", "rightJoin",
                 "innerJoin", "fullOuterJoin", "inTable"}
            && !NamesTable(body, k, c.tables))
  {
    hide TableFinding, NamesTable;
    TableMeans(body, k, c);
  }

  lemma OtherWeights(body: seq<Token>, i: nat, c: Constants, sql: SqlReader)
    requires i < |body| && !IsRaw(body, i)
    ensures WeightsMean(FindingAt(body, i, c, sql), body, i, c, sql)
  {
    hide RunsText, FindingAt, TableFinding, CallFinding, IsUnread, NamesTable;
    NothingRun(body, i, c);
    OtherFinding(body, i, c, sql);
    TableMeans(body, i + 2, c);
    CallMeans(body[i].value, body, i + 2, c);
  }

  lemma OtherReasons(body: seq<Token>, i: nat, c: Constants, sql: SqlReader)
    requires i < |body| && !IsRaw(body, i)
    ensures ReasonsMean(FindingAt(body, i, c, sql), body, i, c)
  {
    hide RunsText, FindingAt, TableFinding, CallFinding, IsUnread, NamesTable;
    NothingRun(body, i, c);
    OtherFinding(body, i, c, sql);
    TableMeans(body, i + 2, c);
    CallMeans(body[i].value, body, i + 2, c);
  }

  /** The analysis adds for each token exactly what the token means. */
  lemma TokenMeans(body: seq<Token>, i: nat, c: Constants, sql: SqlReader)
    requires i < |body|
    ensures MeansToken(FindingAt(body, i, c, sql), body, i, c, sql)
  {
    hide FindingAt, OperationsMean, WeightsMean, ReasonsMean;
    if IsRaw(body, i) {
      RawOperations(body, i, c, sql);
      RawWeights(body, i, c, sql);
    } else {
      OtherOperations(body, i, c, sql);
      OtherWeights(body, i, c, sql);
      OtherReasons(body, i, c, sql);
    }
  }

  // ---- What a body means ------------------------------------------------------------------------

  ghost predicate OperationsOf(f: Findings, body: seq<Token>, c: Constants, sql: SqlReader) {
    forall op :: op in f.operations <==> exists i: nat :: i < |body| && Shows(body, i, c, sql, op)
  }

  /** Yes when some token weighs on a table, otherwise maybe when some token may. */
  ghost predicate WeightsOf(f: Findings, body: seq<Token>, c: Constants, sql: SqlReader) {
    && (f.locks == Yes <==> exists i: nat :: i < |body| && Locks(body, i, c, sql))
    && (f.rewrites == Yes <==> exists i: nat :: i < |body| && Rewrites(body, i, c, sql))
    && (f.scans == Yes <==> exists i: nat :: i < |body| && Scans(body, i, c, sql))
    && (f.locks != No <==> exists i: nat :: i < |body| && (Locks(body, i, c, sql) || IsUnread(body, i, c)))
    && (f.rewrites != No <==>
          exists i: nat :: i < |body| && (Rewrites(body, i, c, sql) || IsUnread(body, i, c) || Calls(body, i, {"alter"})))
    && (f.scans != No <==> exists i: nat :: i < |body| && (Scans(body, i, c, sql) || IsUnread(body, i, c)))
  }

  ghost predicate ReasonsOf(f: Findings, body: seq<Token>, c: Constants) {
    && (ParseFailure in f.reasons <==> exists i: nat :: i < |body| && IsUnread(body, i, c))
    && (ColumnAlter in f.reasons <==> exists i: nat :: i < |body| && Calls(body, i, {"alter"}))
    && (UnresolvedTableName in f.reasons <==> exists i: nat :: i < |body| && NamesUnknownTable(body, i, c))
  }

  /** Findings that say of a whole body what it means. */
  ghost predicate Means(f: Findings, body: seq<Token>, c: Constants, sql: SqlReader) {
    OperationsOf(f, body, c, sql) && WeightsOf(f, body, c, sql) && ReasonsOf(f, body, c)
  }

  /** Something holds of joined findings exactly when it holds of one of the two. */
  ghost predicate IsCarried(p: Findings -> bool) {
    !p(NOTHING) && forall a, b :: p(Join(a, b)) <==> p(a) || p(b)
  }

  lemma {:induction false} CarriedUp(each: seq<Findings>, p: Findings -> bool, i: nat)
    requires IsCarried(p) && i < |each| && p(each[i])
    ensures p(Total(each))
  {
    hide Join;
    var last := |each| - 1;
    if i < last { CarriedUp(each[..last], p, i); }
    assert p(Join(Total(each[..last]), each[last])) <==> p(Total(each[..last])) || p(each[last]);
  }

  lemma {:induction false} CarriedFrom(each: seq<Findings>, p: Findings -> bool) returns (i: nat)
    requires IsCarried(p) && p(Total(each))
    ensures i < |each| && p(each[i])
  {
    hide Join;
    var last := |each| - 1;
    assert p(Join(Total(each[..last]), each[last])) <==> p(Total(each[..last])) || p(each[last]);
    if p(each[last]) { i := last; } else { i := CarriedFrom(each[..last], p); }
  }

  /** The findings of a body are exactly what its tokens mean: each thing is found when some token means it. */
  lemma BodyMeans(body: seq<Token>, c: Constants, sql: SqlReader)
    ensures Means(Total(FindingsOf(body, c, sql)), body, c, sql)
  {
    hide Total, FindingsOf, OperationsOf;
    BodyOperations(body, c, sql);
    BodyLocks(body, c, sql);
    BodyRewrites(body, c, sql);
    BodyScans(body, c, sql);
    BodyUnread(body, c, sql);
    BodyAlters(body, c, sql);
    BodyUnknownTables(body, c, sql);
  }

  lemma BodyOperations(body: seq<Token>, c: Constants, sql: SqlReader)
    ensures OperationsOf(Total(FindingsOf(body, c, sql)), body, c, sql)
  {
    hide FindingAt, Total, Shows;
    var each := FindingsOf(body, c, sql);
    forall op ensures op in Total(each).operations <==> exists i: nat :: i < |body| && Shows(body, i, c, sql, op) {
      var p := (f: Findings) => op in f.operations;
      forall i: nat | i < |body| ensures op in each[i].operations <==> Shows(body, i, c, sql, op) {
        TokenShows(body, i, c, sql, op);
      }
      if p(Total(each)) { var i := CarriedFrom(each, p); }
      if i: nat :| i < |body| && Shows(body, i, c, sql, op) { CarriedUp(each, p, i); }
    }
  }

  lemma TokenShows(body: seq<Token>, i: nat, c: Constants, sql: SqlReader, op: Operation)
    requires i < |body|
    ensures op in FindingAt(body, i, c, sql).operations <==> Shows(body, i, c, sql, op)
  {
    hide FindingAt, IsObscure, Performs, WeightsMean, ReasonsMean;
    TokenMeans(body, i, c, sql);
  }

  lemma BodyLocks(body: seq<Token>, c: Constants, sql: SqlReader)
    ensures var f := Total(FindingsOf(body, c, sql));
      && (f.locks == Yes <==> exists i: nat :: i < |body| && Locks(body, i, c, sql))
      && (f.locks != No <==> exists i: nat :: i < |body| && (Locks(body, i, c, sql) || IsUnread(body, i, c)))
  {
    hide FindingAt, Total, Locks, IsUnread, Calls, OperationsMean, ReasonsMean;
    var each := FindingsOf(body, c, sql);
    var yes, some := (f: Findings) => f.locks == Yes, (f: Findings) => f.locks != No;
    forall i: nat | i < |body|
      ensures (yes(each[i]) <==> Locks(body, i, c, sql)) && (some(each[i]) <==> Locks(body, i, c, sql) || IsUnread(body, i, c))
    {
      TokenMeans(body, i, c, sql);
    }
    if yes(Total(each)) { var i := CarriedFrom(each, yes); }
    if some(Total(each)) { var i := CarriedFrom(each, some); }
    if i: nat :| i < |body| && Locks(body, i, c, sql) { CarriedUp(each, yes, i); }
    if i: nat :| i < |body| && (Locks(body, i, c, sql) || IsUnread(body, i, c)) { CarriedUp(each, some, i); }
  }

  lemma BodyRewrites(body: seq<Token>, c: Constants, sql: SqlReader)
    ensures var f := Total(FindingsOf(body, c, sql));
      && (f.rewrites == Yes <==> exists i: nat :: i < |body| && Rewrites(body, i, c, sql))
      && (f.rewrites != No <==> exists i: nat :: i < |body| && (Rewrites(body, i, c, sql) || IsUnread(body, i, c) || Calls(body, i, {"alter"})))
  {
    hide FindingAt, Total, Rewrites, IsUnread, Calls, OperationsMean, ReasonsMean;
    var each := FindingsOf(body, c, sql);
    var yes, some := (f: Findings) => f.rewrites == Yes, (f: Findings) => f.rewrites != No;
    forall i: nat | i < |body|
      ensures (yes(each[i]) <==> Rewrites(body, i, c, sql)) && (some(each[i]) <==> Rewrites(body, i, c, sql) || IsUnread(body, i, c) || Calls(body, i, {"alter"}))
    {
      TokenMeans(body, i, c, sql);
    }
    if yes(Total(each)) { var i := CarriedFrom(each, yes); }
    if some(Total(each)) { var i := CarriedFrom(each, some); }
    if i: nat :| i < |body| && Rewrites(body, i, c, sql) { CarriedUp(each, yes, i); }
    if i: nat :| i < |body| && (Rewrites(body, i, c, sql) || IsUnread(body, i, c) || Calls(body, i, {"alter"})) { CarriedUp(each, some, i); }
  }

  lemma BodyScans(body: seq<Token>, c: Constants, sql: SqlReader)
    ensures var f := Total(FindingsOf(body, c, sql));
      && (f.scans == Yes <==> exists i: nat :: i < |body| && Scans(body, i, c, sql))
      && (f.scans != No <==> exists i: nat :: i < |body| && (Scans(body, i, c, sql) || IsUnread(body, i, c)))
  {
    hide FindingAt, Total, Scans, IsUnread, Calls, OperationsMean, ReasonsMean;
    var each := FindingsOf(body, c, sql);
    var yes, some := (f: Findings) => f.scans == Yes, (f: Findings) => f.scans != No;
    forall i: nat | i < |body|
      ensures (yes(each[i]) <==> Scans(body, i, c, sql)) && (some(each[i]) <==> Scans(body, i, c, sql) || IsUnread(body, i, c))
    {
      TokenMeans(body, i, c, sql);
    }
    if yes(Total(each)) { var i := CarriedFrom(each, yes); }
    if some(Total(each)) { var i := CarriedFrom(each, some); }
    if i: nat :| i < |body| && Scans(body, i, c, sql) { CarriedUp(each, yes, i); }
    if i: nat :| i < |body| && (Scans(body, i, c, sql) || IsUnread(body, i, c)) { CarriedUp(each, some, i); }
  }

  lemma BodyUnread(body: seq<Token>, c: Constants, sql: SqlReader)
    ensures ParseFailure in Total(FindingsOf(body, c, sql)).reasons <==> exists i: nat :: i < |body| && IsUnread(body, i, c)
  {
    hide FindingAt, Total, IsUnread, Calls, NamesUnknownTable, OperationsMean, WeightsMean;
    var each := FindingsOf(body, c, sql);
    var given := (f: Findings) => ParseFailure in f.reasons;
    forall i: nat | i < |body| ensures given(each[i]) <==> IsUnread(body, i, c) { TokenMeans(body, i, c, sql); }
    if given(Total(each)) { var i := CarriedFrom(each, given); }
    if i: nat :| i < |body| && IsUnread(body, i, c) { CarriedUp(each, given, i); }
  }

  lemma BodyAlters(body: seq<Token>, c: Constants, sql: SqlReader)
    ensures ColumnAlter in Total(FindingsOf(body, c, sql)).reasons <==> exists i: nat :: i < |body| && Calls(body, i, {"alter"})
  {
    hide FindingAt, Total, IsUnread, Calls, NamesUnknownTable, OperationsMean, WeightsMean;
    var each := FindingsOf(body, c, sql);
    var given := (f: Findings) => ColumnAlter in f.reasons;
    forall i: nat | i < |body| ensures given(each[i]) <==> Calls(body, i, {"alter"}) { TokenMeans(body, i, c, sql); }
    if given(Total(each)) { var i := CarriedFrom(each, given); }
    if i: nat :| i < |body| && Calls(body, i, {"alter"}) { CarriedUp(each, given, i); }
  }

  lemma BodyUnknownTables(body: seq<Token>, c: Constants, sql: SqlReader)
    ensures UnresolvedTableName in Total(FindingsOf(body, c, sql)).reasons <==> exists i: nat :: i < |body| && NamesUnknownTable(body, i, c)
  {
    hide FindingAt, Total, IsUnread, Calls, NamesUnknownTable, OperationsMean, WeightsMean;
    var each := FindingsOf(body, c, sql);
    var given := (f: Findings) => UnresolvedTableName in f.reasons;
    forall i: nat | i < |body| ensures given(each[i]) <==> NamesUnknownTable(body, i, c) { TokenMeans(body, i, c, sql); }
    if given(Total(each)) { var i := CarriedFrom(each, given); }
    if i: nat :| i < |body| && NamesUnknownTable(body, i, c) { CarriedUp(each, given, i); }
  }
}
