/**
 From the migrations a release adds to the verdict about it: what an analysis with only
 safe operations proves about the source, and what a safe verdict therefore rests on.
 */
module MigrationMetadata {
  import opened Options
  import opened Lexer
  import opened Nesting
  import opened MigrationAnalysis
  import opened MigrationMeaning
  import opened TokenSpelling
  import Marker

  /** The operations that are safe while both releases run. */
  predicate IsSafe(op: Operation) {
    op in {CreateIndexConcurrently, DropIndexConcurrentlyIfExists, SetStatementTimeout, ResetStatementTimeout,
      SetLockTimeout, ResetLockTimeout, SelectInvalidIndex}
  }

  predicate AllSafe(operations: set<Operation>) { forall op :: op in operations ==> IsSafe(op) }

  /** The `.raw` at `i` is called on static SQL, and each of its statements is known to be safe. */
  ghost predicate RunsSafeSql(body: seq<Token>, i: nat, c: Constants, sql: SqlReader) {
    exists text :: RunsText(body, i, c.sql, text) && IsSafeSql(sql, text)
  }

  predicate IsSafeSql(sql: SqlReader, text: string) {
    var statements := sql.statements(text);
    statements != [] && forall k :: 0 <= k < |statements| ==> IsSafe(sql.classify(statements[k]))
  }

  /** The token is no connection, or one that is only used for `.raw`; and it is no `.raw`, or one that runs safe static SQL. */
  ghost predicate IsHarmless(body: seq<Token>, i: nat, c: Constants, sql: SqlReader) {
    && (IsConnectionName(body, i) ==> IsPunctuation(body, i + 1, ".") && IsIdentifier(body, i + 2, "raw"))
    && (IsRaw(body, i) ==> RunsSafeSql(body, i, c, sql))
  }

  /** The connection is only used for `.raw`, and `.raw` only for safe static SQL. */
  ghost predicate OnlySafeSql(body: seq<Token>, c: Constants, sql: SqlReader) {
    forall i :: 0 <= i < |body| ==> IsHarmless(body, i, c, sql)
  }

  /** The source lexes, its `up` body is found, and that body runs only safe static SQL. */
  ghost predicate Understood(source: string, decode: string -> string, sql: SqlReader) {
    exists tokens, c, body :: UnderstoodBy(source, decode, sql, tokens, c, body)
  }

  ghost predicate UnderstoodBy(
    source: string, decode: string -> string, sql: SqlReader, tokens: seq<Token>, c: Constants, body: seq<Token>)
  {
    Tokenized(source, decode, tokens, true) && ReadsConstants(tokens, c) && IsUpBody(tokens, body) && OnlySafeSql(body, c, sql)
  }

  // ---- What safe operations prove ---------------------------------------------------------------

  lemma {:induction false} TotalIsSafe(findings: seq<Findings>)
    ensures AllSafe(Total(findings).operations) <==>
      forall i :: 0 <= i < |findings| ==> AllSafe(findings[i].operations)
  {
    if findings != [] {
      var last := |findings| - 1;
      TotalIsSafe(findings[..last]);
      SafeJoin(Total(findings[..last]), findings[last]);
    }
  }

  lemma SafeJoin(a: Findings, b: Findings)
    ensures AllSafe(Join(a, b).operations) <==> AllSafe(a.operations) && AllSafe(b.operations)
  {}

  /** A token contributes only safe operations exactly when it is harmless. */
  lemma TokenIsSafe(body: seq<Token>, i: nat, c: Constants, sql: SqlReader)
    requires i < |body|
    ensures AllSafe(FindingAt(body, i, c, sql).operations) <==> IsHarmless(body, i, c, sql)
  {
    hide RunsText, FindingAt, IsConnectionName, WeightsMean, ReasonsMean;
    TokenMeans(body, i, c, sql);
    RawMeans(body, i, c);
    NothingRunElsewhere(body, i, c);
    var operations := FindingAt(body, i, c, sql).operations;
    assert Operation.Unknown in operations <==> Shows(body, i, c, sql, Operation.Unknown);
    forall text | RunsText(body, i, c.sql, text) ensures AllSafe(operations) ==> IsSafeSql(sql, text) {
      if AllSafe(operations) { SafeStatements(body, i, c, sql, text, operations); }
    }
  }

  lemma NothingRunElsewhere(body: seq<Token>, i: nat, c: Constants)
    ensures !IsRaw(body, i) ==> forall text :: !RunsText(body, i, c.sql, text)
  {}

  lemma SafeStatements(body: seq<Token>, i: nat, c: Constants, sql: SqlReader, text: string, operations: set<Operation>)
    requires RunsText(body, i, c.sql, text) && AllSafe(operations)
    requires forall op :: op in operations <==> Shows(body, i, c, sql, op)
    ensures IsSafeSql(sql, text)
  {
    hide RunsText, IsConnectionName;
    var statements := sql.statements(text);
    assert statements == [] ==> IsObscure(body, i, c, sql);
    assert Shows(body, i, c, sql, Operation.Unknown) ==> Operation.Unknown in operations;
    forall k | 0 <= k < |statements| ensures IsSafe(sql.classify(statements[k])) {
      assert Classifies(sql, text, sql.classify(statements[k]));
      assert Shows(body, i, c, sql, sql.classify(statements[k]));
    }
  }

  lemma BodyIsSafe(body: seq<Token>, c: Constants, sql: SqlReader)
    ensures AllSafe(Total(FindingsOf(body, c, sql)).operations) <==> OnlySafeSql(body, c, sql)
  {
    hide FindingAt, IsHarmless, Total;
    var each := FindingsOf(body, c, sql);
    TotalIsSafe(each);
    forall i | 0 <= i < |body| ensures AllSafe(each[i].operations) <==> IsHarmless(body, i, c, sql) {
      TokenIsSafe(body, i, c, sql);
    }
  }

  /** A tokenized source is balanced when it is valid, and then its body is what it should be. */
  lemma BodyOfSource(source: string, decode: string -> string, tokens: seq<Token>, body: seq<Token>)
    requires Tokenized(source, decode, tokens, true)
    ensures FindUpBody(tokens) == Some(body) <==> IsUpBody(tokens, body)
  {
    hide FindUpBody, IsUpBody;
    UpBodyExactly(tokens, body);
  }

  /** The operations found are all safe exactly when the source is understood in full. */
  lemma SafeOperationsMeanUnderstood(source: string, decode: string -> string, sql: SqlReader, a: Analysis)
    requires Analyzes(source, decode, sql, a)
    ensures AllSafe(a.findings.operations) <==> Understood(source, decode, sql)
  {
    hide Tokenized, ReadsConstants, FindUpBody, IsUpBody, OnlySafeSql, Total, FindingsOf;
    var tokens, valid, c :| Tokenized(source, decode, tokens, valid) && ReadsConstants(tokens, c)
                            && a == Analyze(tokens, valid, c, sql);
    var body := FindUpBody(tokens);
    if Understood(source, decode, sql) {
      var tokens', c', body' :| UnderstoodBy(source, decode, sql, tokens', c', body');
      TokenizedUnique(source, decode, tokens, valid, tokens', true);
      SameConstants(tokens, c, c');
      BodyOfSource(source, decode, tokens, body');
      BodyIsSafe(body', c, sql);
    } else if valid && body.Some? {
      BodyOfSource(source, decode, tokens, body.value);
      BodyIsSafe(body.value, c, sql);
      assert OnlySafeSql(body.value, c, sql) ==> UnderstoodBy(source, decode, sql, tokens, c, body.value);
    } else {
      assert Operation.Unknown in a.findings.operations;
    }
  }

  lemma SameConstants(tokens: seq<Token>, a: Constants, b: Constants)
    requires ReadsConstants(tokens, a) && ReadsConstants(tokens, b)
    ensures a == b
  {
    hide AreConstants;
    ConstantsUnique(tokens, {StringLiteral, Template}, a.tables, b.tables);
    ConstantsUnique(tokens, {StringLiteral, Template, Number}, a.sql, b.sql);
  }

  /** What the analysis of a source says: that of its body's tokens when it could be read, and nothing ruled out when not. */
  lemma AnalysisMeans(source: string, decode: string -> string, sql: SqlReader, a: Analysis)
    returns (tokens: seq<Token>, valid: bool, c: Constants)
    requires Analyzes(source, decode, sql, a)
    ensures Tokenized(source, decode, tokens, valid) && ReadsConstants(tokens, c)
    ensures a.complete <==> a.findings.reasons == {}
    ensures valid ==> forall body :: IsUpBody(tokens, body) ==> Means(a.findings, body, c, sql)
    ensures !valid || (forall body :: !IsUpBody(tokens, body)) ==>
      && Operation.Unknown in a.findings.operations && ParseFailure in a.findings.reasons
      && a.findings.locks != No && a.findings.rewrites != No && a.findings.scans != No
  {
    hide Tokenized, ReadsConstants, FindUpBody, IsUpBody, Means, Total, FindingsOf;
    tokens, valid, c :| Tokenized(source, decode, tokens, valid) && ReadsConstants(tokens, c)
                        && a == Analyze(tokens, valid, c, sql);
    if valid {
      forall body ensures FindUpBody(tokens) == Some(body) <==> IsUpBody(tokens, body) {
        BodyOfSource(source, decode, tokens, body);
      }
      if FindUpBody(tokens).Some? { BodyMeans(FindUpBody(tokens).value, c, sql); }
    }
  }

  lemma {:induction false} StacksAgree(a: seq<Token>, b: seq<Token>, k: nat)
    requires Bares(a) == Bares(b) && k <= |a|
    ensures |a| == |b| && Stack(a, k) == Stack(b, k)
  {
    assert |Bares(a)| == |a| && |Bares(b)| == |b|;
    if k > 0 {
      StacksAgree(a, b, k - 1);
      assert Bares(a)[k - 1] == Bares(b)[k - 1];
    }
  }

  /** A source has one tokenization. */
  lemma TokenizedUnique(source: string, decode: string -> string, a: seq<Token>, validA: bool, b: seq<Token>, validB: bool)
    requires Tokenized(source, decode, a, validA) && Tokenized(source, decode, b, validB)
    ensures a == b && validA == validB
  {
    assert |Bares(a)| == |a| && |Bares(b)| == |b|;
    forall k | 0 <= k < |a| ensures a[k] == b[k] {
      StacksAgree(a, b, k);
      StacksAgree(a, b, k + 1);
      assert Bares(a)[k] == Bares(b)[k];
      assert a[k].depth == DepthAt(a, k) && b[k].depth == DepthAt(b, k);
    }
  }

  // ---- Heaviness is never understated -------------------------------------------------------------

  predicate NothingRuledOut(f: Findings) { f.locks != No && f.rewrites != No && f.scans != No }

  predicate FailsSafe(f: Findings) { ParseFailure in f.reasons ==> NothingRuledOut(f) }

  lemma JoinFailsSafe(a: Findings, b: Findings)
    requires FailsSafe(a) && FailsSafe(b)
    ensures FailsSafe(Join(a, b))
  {}

  lemma TokenFailsSafe(body: seq<Token>, i: nat, c: Constants, sql: SqlReader)
    requires i < |body|
    ensures FailsSafe(FindingAt(body, i, c, sql))
  {
    hide Join, FailsSafe, ReceiverFinding, SqlFinding, CallFinding, RawSql, IsMethodCall;
    ReceiverFailsSafe(body, i, c);
    SqlFailsSafe(RawSql(body, i, c), sql);
    CallFailsSafe(body[i].value, At(body, i + 2), c);
    assert FailsSafe(NOTHING) by { NothingFailsSafe(); }
    JoinFailsSafe(ReceiverFinding(body, i, c), NOTHING);
    JoinFailsSafe(ReceiverFinding(body, i, c), SqlFinding(RawSql(body, i, c), sql));
    JoinFailsSafe(ReceiverFinding(body, i, c), CallFinding(body[i].value, At(body, i + 2), c));
  }

  lemma NothingFailsSafe()
    ensures FailsSafe(NOTHING) && FailsSafe(UNKNOWN)
  {}

  lemma ReceiverFailsSafe(body: seq<Token>, i: nat, c: Constants)
    ensures FailsSafe(ReceiverFinding(body, i, c))
  {
    hide ReachesRaw, IsConnection, RawOpening, IsRawMember, ResolveTable;
  }

  lemma SqlFailsSafe(text: Option<string>, sql: SqlReader)
    ensures FailsSafe(SqlFinding(text, sql))
  {}

  lemma CallFailsSafe(name: string, argument: Option<Token>, c: Constants)
    ensures FailsSafe(CallFinding(name, argument, c))
  {
    hide ResolveTable;
  }

  lemma {:induction false} TotalFailsSafe(findings: seq<Findings>)
    requires forall i :: 0 <= i < |findings| ==> FailsSafe(findings[i])
    ensures FailsSafe(Total(findings))
  {
    if findings != [] { TotalFailsSafe(findings[..|findings| - 1]); }
  }

  /** A source with any part that could not be read never claims to be light in any respect. */
  lemma UnreadSourceIsNotLight(source: string, decode: string -> string, sql: SqlReader, a: Analysis)
    requires Analyzes(source, decode, sql, a) && ParseFailure in a.findings.reasons
    ensures NothingRuledOut(a.findings) && !a.complete
  {
    var tokens, valid, c :| Tokenized(source, decode, tokens, valid) && ReadsConstants(tokens, c)
                            && a == Analyze(tokens, valid, c, sql);
    var body := FindUpBody(tokens);
    if body.Some? {
      forall i | 0 <= i < |body.value| ensures FailsSafe(FindingsOf(body.value, c, sql)[i]) {
        TokenFailsSafe(body.value, i, c, sql);
      }
      TotalFailsSafe(FindingsOf(body.value, c, sql));
    }
  }

  // ---- All migrations of a release ----------------------------------------------------------------

  /** How the tool sees a release: file contents at its ref, and whether a source declares its own class. */
  datatype Checkout = Checkout(
    read: string -> Option<string>, decode: string -> string, sql: SqlReader, declares: string -> bool)

  datatype Metadata = Metadata(operations: set<Operation>, complete: bool)

  /** What one migration file adds. An incomplete analysis is excused by an explicit classification. */
  ghost predicate Contributes(path: string, at: Checkout, part: Metadata) {
    match at.read(path)
    case None => part == Metadata({Unknown}, false)
    case Some(source) => exists a ::
      && Analyzes(source, at.decode, at.sql, a)
      && part == Metadata(a.findings.operations, a.complete || at.declares(source))
  }

  /** `m` is the metadata of exactly these files: all operations of any, complete when all are. */
  ghost predicate IsMetadata(paths: seq<string>, at: Checkout, m: Metadata) {
    if paths == [] then m == Metadata({}, true)
    else exists rest, part ::
      && IsMetadata(paths[..|paths| - 1], at, rest)
      && Contributes(paths[|paths| - 1], at, part)
      && m == Metadata(rest.operations + part.operations, rest.complete && part.complete)
  }

  method ReadFile(path: string, at: Checkout) returns (part: Metadata)
    ensures Contributes(path, at, part)
  {
    var source := at.read(path);
    if source.None? { return Metadata({Unknown}, false); }
    var a := AnalyzeMigrationSource(source.value, at.decode, at.sql);
    return Metadata(a.findings.operations, a.complete || at.declares(source.value));
  }

  lemma MetadataGrows(paths: seq<string>, at: Checkout, rest: Metadata, part: Metadata)
    requires paths != [] && IsMetadata(paths[..|paths| - 1], at, rest) && Contributes(paths[|paths| - 1], at, part)
    ensures IsMetadata(paths, at, Metadata(rest.operations + part.operations, rest.complete && part.complete))
  {}

  method ReadMigrationMetadata(paths: seq<string>, at: Checkout) returns (m: Metadata)
    ensures IsMetadata(paths, at, m)
  {
    m := Metadata({}, true);
    for k := 0 to |paths|
      invariant IsMetadata(paths[..k], at, m)
    {
      var part := ReadFile(paths[k], at);
      assert paths[..k + 1][..k] == paths[..k];
      MetadataGrows(paths[..k + 1], at, m, part);
      m := Metadata(m.operations + part.operations, m.complete && part.complete);
    }
    assert paths[..|paths|] == paths;
  }

  ghost predicate FileUnderstood(path: string, at: Checkout) {
    at.read(path).Some? && Understood(at.read(path).value, at.decode, at.sql)
  }

  /** Every file was readable and is understood in full. */
  ghost predicate AllUnderstood(paths: seq<string>, at: Checkout) {
    forall path :: path in paths ==> FileUnderstood(path, at)
  }

  lemma SafePart(path: string, at: Checkout, part: Metadata)
    requires Contributes(path, at, part)
    ensures AllSafe(part.operations) <==> FileUnderstood(path, at)
  {
    match at.read(path)
    case None => assert Unknown in part.operations;
    case Some(source) =>
      var a :| Analyzes(source, at.decode, at.sql, a)
               && part == Metadata(a.findings.operations, a.complete || at.declares(source));
      SafeOperationsMeanUnderstood(source, at.decode, at.sql, a);
  }

  lemma OneMoreUnderstood(paths: seq<string>, at: Checkout)
    requires paths != []
    ensures var last := |paths| - 1;
      AllUnderstood(paths, at) <==> (AllUnderstood(paths[..last], at) && FileUnderstood(paths[last], at))
  {
    assert paths == paths[..|paths| - 1] + [paths[|paths| - 1]];
  }

  lemma SafeUnion(a: set<Operation>, b: set<Operation>)
    ensures AllSafe(a + b) <==> AllSafe(a) && AllSafe(b)
  {}

  lemma LastPart(paths: seq<string>, at: Checkout, m: Metadata) returns (rest: Metadata, part: Metadata)
    requires paths != [] && IsMetadata(paths, at, m)
    ensures IsMetadata(paths[..|paths| - 1], at, rest) && Contributes(paths[|paths| - 1], at, part)
    ensures m.operations == rest.operations + part.operations
  {
    hide Contributes;
    rest, part :| IsMetadata(paths[..|paths| - 1], at, rest) && Contributes(paths[|paths| - 1], at, part)
                  && m == Metadata(rest.operations + part.operations, rest.complete && part.complete);
  }

  /** The operations of all files are safe exactly when every file is understood. */
  lemma {:induction false} SafeMetadataMeansUnderstood(paths: seq<string>, at: Checkout, m: Metadata)
    requires IsMetadata(paths, at, m)
    ensures AllSafe(m.operations) <==> AllUnderstood(paths, at)
    decreases |paths|
  {
    if paths != [] {
      var rest, part := LastPart(paths, at, m);
      SafeUnion(rest.operations, part.operations);
      SafeMetadataMeansUnderstood(paths[..|paths| - 1], at, rest);
      SafePart(paths[|paths| - 1], at, part);
      OneMoreUnderstood(paths, at);
    }
  }

  /**
   A release that adds migrations and is called safe without a review has read every one of
   them to the end: the connection only ever runs static SQL whose every statement is safe.
   */
  lemma SafeVerdictIsUnderstood(paths: seq<string>, at: Checkout, m: Metadata, e: Marker.Evidence)
    requires IsMetadata(paths, at, m) && e.operations == m.operations
    requires e.present == Some(Marker.True) && e.ai.None? && Marker.Verdict(e) == Marker.True
    ensures AllUnderstood(paths, at)
    ensures m.operations != {}
  {
    hide IsMetadata, AllUnderstood;
    Marker.SafeExactly(e);
    SafeMetadataMeansUnderstood(paths, at, m);
  }
}
