/**
 What examples/upgrade-automation/scripts/bump-target.py leaves behind when it writes a value:
 which line changes, and what stands in it afterwards.
 */
module YamlWrites {
  import opened Options
  import opened YamlScalar
  import opened YamlEditor
  import opened YamlLines
  import opened YamlPaths
  import opened ScalarMeaning

  /** The line holds a key and a scalar. */
  ghost predicate IsScalarLine(line: string, e: Entry, p: Parts) {
    exists content :: IsContent(line, content) && IsLongestSplit(content, e) && IsScalar(e.value, p)
  }

  /** The line with only the scalar's own text changed: key, spacing, what follows and the line break stay. */
  ghost predicate IsRewritten(line: string, after: string, e: Entry, p: Parts, replacement: string) {
    exists written :: IsWrittenAs(replacement, p.quote, written)
      && after == e.indent + e.quote + e.key + e.quote + ":" + e.space + (written + p.trailing)
                  + if line != "" && line[|line| - 1] == '\n' then "\n" else ""
  }

  /** Only line `k` changes, which is the one at the path. */
  ghost predicate IsWrite(lines: seq<string>, keys: seq<string>, replacement: string, after: seq<string>, k: nat) {
    && k < |lines| && |after| == |lines| && (forall j :: 0 <= j < |lines| && j != k ==> after[j] == lines[j])
    && (exists value :: IsTheOne(RowsOf(lines), k, keys, value))
    && exists e, p :: IsScalarLine(lines[k], e, p) && IsRewritten(lines[k], after[k], e, p, replacement)
  }

  /** The replacement cannot be written in the style of the scalar at the path. */
  ghost predicate CannotWrite(lines: seq<string>, keys: seq<string>, replacement: string, k: nat, error: Error) {
    && k < |lines| && (exists value :: IsTheOne(RowsOf(lines), k, keys, value))
    && exists e, p :: IsScalarLine(lines[k], e, p) && IsUnwritable(replacement, p.quote, error)
  }

  /** What is found at a path is the scalar of the one line there. */
  lemma FoundLine(lines: seq<string>, keys: seq<string>) returns (found: Found)
    requires Lookup(RowsOf(lines), keys).Ok?
    ensures found == Lookup(RowsOf(lines), keys).value && found.index < |lines|
    ensures IsTheOne(RowsOf(lines), found.index, keys, found.parts.value)
    ensures forall k: nat, value :: IsTheOne(RowsOf(lines), k, keys, value) ==> k == found.index
    ensures IsScalarLine(lines[found.index], found.entry, found.parts)
    ensures forall e, p :: IsScalarLine(lines[found.index], e, p) ==> e == found.entry && p == found.parts
  {
    hide FindsAt, IsTheOne, Scan, IsScalarLine, IsRow;
    var rows := RowsOf(lines);
    found := Lookup(rows, keys).value;
    ScanFinds(rows, keys, |rows|);
    FoundRow(rows, keys, found);
    forall k: nat, value ensures IsTheOne(rows, k, keys, value) <==> k == found.index && value == found.parts.value {
      FoundIsTheOne(rows, keys, found, k, value);
    }
    ScalarOfRow(lines[found.index], found.entry, found.parts);
  }

  lemma FoundRow(rows: seq<Row>, keys: seq<string>, found: Found)
    requires FindsAt(rows, |rows|, keys, Some(found))
    ensures found.index < |rows| && rows[found.index].keyed.Some?
    ensures rows[found.index].keyed.value.entry == found.entry && rows[found.index].keyed.value.value == Scalar(Ok(found.parts))
  {
    hide IsAt, OneReadable;
  }

  lemma ScalarOfRow(line: string, entry: Entry, parts: Parts)
    requires RowOf(line).keyed.Some? && RowOf(line).keyed.value.entry == entry && RowOf(line).keyed.value.value == Scalar(Ok(parts))
    ensures IsScalarLine(line, entry, parts)
    ensures forall e, p :: IsScalarLine(line, e, p) ==> e == entry && p == parts
  {
    hide IsLongestSplit, IsScalar, MatchLine, ScalarParts, IsBlockMarker, Strip, IsContent;
    EntryValue(line);
    ContentExactly(line);
    forall content | IsContent(line, content) ensures content == Content(line) { ContentIsUnique(line, content); }
    MatchExactly(Content(line), entry);
    ScalarExactly(entry.value, parts);
    forall e, p | IsScalarLine(line, e, p) ensures e == entry && p == parts {
      LongestIsUnique(Content(line), e, entry);
      ScalarExactly(e.value, p);
    }
  }

  lemma ContentIsUnique(line: string, content: string)
    requires IsContent(line, content)
    ensures content == Content(line)
  {
    ContentExactly(line);
  }

  lemma LongestIsUnique(s: string, e: Entry, f: Entry)
    requires IsLongestSplit(s, e) && IsLongestSplit(s, f)
    ensures e == f
  {
    hide IsSplit;
    SplitIsUnique(s, e, f);
  }

  /** After writing, only the line at the path has changed, and only in its scalar. */
  lemma WriteExactly(lines: seq<string>, keys: seq<string>, replacement: string)
    requires Written(lines, keys, replacement).Ok?
    ensures exists k: nat :: IsWrite(lines, keys, replacement, Written(lines, keys, replacement).value, k)
  {
    hide IsTheOne, IsScalarLine, Lookup, IsWrittenAs, Render;
    var found := FoundLine(lines, keys);
    var after := Written(lines, keys, replacement).value;
    RenderExactly(replacement, found.parts.quote, NotFound);
    var written := Render(replacement, found.parts.quote).value;
    PrintIs(found.entry.(value := written + found.parts.trailing));
    assert IsRewritten(lines[found.index], after[found.index], found.entry, found.parts, replacement);
    assert IsWrite(lines, keys, replacement, after, found.index);
  }

  /** Writing fails when reading does, and otherwise exactly when the replacement cannot be written there. */
  lemma WriteFailsExactly(lines: seq<string>, keys: seq<string>, replacement: string, e: Error)
    ensures Written(lines, keys, replacement) == Err(e) <==>
      Read(lines, keys) == Err(e) || (Read(lines, keys).Ok? && exists k: nat :: CannotWrite(lines, keys, replacement, k, e))
  {
    hide IsTheOne, IsScalarLine, Lookup, IsUnwritable, Render;
    if Lookup(RowsOf(lines), keys).Ok? {
      var found := FoundLine(lines, keys);
      RenderExactly(replacement, found.parts.quote, e);
      if IsUnwritable(replacement, found.parts.quote, e) { assert CannotWrite(lines, keys, replacement, found.index, e); }
    }
  }
}
