/**
 * The stand-alone `SQLValidator` of validators.py, a yes/no check built in
 * four passes over the query text: a line joiner that keeps newlines inside
 * parentheses and cuts "--" comments, a FROM locator that skips a FROM inside
 * `EXTRACT(...)`, a comma splitter that cuts only at parenthesis count zero,
 * and a rule per column.  Each pass is a method with the source's loop,
 * proved equal to a reference function; the lemmas say what those functions
 * mean.  `ConfigValidator.validate` comes at the end.
 */
module Validators {
  import opened Text
  import opened Splitting
  import SqlSource
  import Schema

  // ---------------------------------------------------------------------
  // The line joiner

  /**
   * `clean_query` built from cleaned lines (each cut at its comment and
   * stripped): a space and the line for each non-blank one, in order.
   */
  function SpaceJoin(cleaned: seq<string>): string {
    if cleaned == [] then []
    else
      var init, s := SpaceJoin(cleaned[..|cleaned| - 1]), cleaned[|cleaned| - 1];
      if s != [] then init + " " + s else init
  }

  /** The last line is checked for blankness before its comment is cut, not after. */
  function JoinLastLine(clean: string, line: string): string {
    if Strip(line) != [] then clean + " " + Strip(SqlSource.CutComment(line)) else clean
  }

  /**
   * The cleaned query: the lines are the pieces of the query between the
   * newlines met at parenthesis count zero, so a newline inside parentheses
   * stays inside its line.
   */
  function CleanQuery(query: string): string {
    CleanOf(Pieces(query, '\n'))
  }

  /** The cleaned query made of its lines: all but the last are closed at a newline. */
  function CleanOf(lines: seq<string>): string
    requires lines != []
  {
    Strip(JoinLastLine(SpaceJoin(SqlSource.CleanLines(lines[..|lines| - 1])), lines[|lines| - 1]))
  }

  method Clean(query: string) returns (clean: string)
    ensures clean == CleanQuery(query)
  {
    clean := [];
    var currentLine: string := [];
    var inParens := 0;
    ghost var closed: seq<string> := [];
    ScanStart(query, '\n');
    for i := 0 to |query|
      invariant inParens == Depth(query[..i])
      invariant Pieces(query[..i], '\n') == closed + [currentLine]
      invariant clean == SpaceJoin(SqlSource.CleanLines(closed))
    {
      var c := query[i];
      DepthStep(query, i);
      if c == '(' {
        inParens := inParens + 1;
      } else if c == ')' {
        inParens := inParens - 1;
      }
      if c == '\n' && inParens == 0 {
        ScanSep(query, '\n', i, closed, currentLine);
        var line := currentLine;
        if Contains(line, "--") {
          line := line[..IndexOf(line, "--")];
        }
        JoinStep(closed, currentLine, Strip(line));
        if Strip(line) != [] {
          clean := clean + " " + Strip(line);
        }
        closed := closed + [currentLine];
        currentLine := [];
      } else {
        ScanChar(query, '\n', i, closed, currentLine);
        currentLine := currentLine + [c];
      }
    }
    ScanEnd(query);
    LastPiece(closed, currentLine);
    if Strip(currentLine) != [] {
      var line := currentLine;
      if Contains(line, "--") {
        line := line[..IndexOf(line, "--")];
      }
      clean := clean + " " + Strip(line);
    }
    clean := Strip(clean);
  }

  /** Closing one more line adds its cleaned text as SpaceJoin says. */
  lemma JoinStep(closed: seq<string>, line: string, s: string)
    requires s == Strip(SqlSource.CutComment(line))
    ensures SpaceJoin(SqlSource.CleanLines(closed + [line])) == SpaceJoin(SqlSource.CleanLines(closed) + [s])
  {
    CleanLinesConcat(closed, [line]);
  }

  lemma CleanLinesConcat(a: seq<string>, b: seq<string>)
    ensures SqlSource.CleanLines(a + b) == SqlSource.CleanLines(a) + SqlSource.CleanLines(b)
  {
    MapConcat(SqlSource.CleanLine, a, b,
      SqlSource.CleanLines(a + b), SqlSource.CleanLines(a), SqlSource.CleanLines(b));
  }

  lemma LastPiece(closed: seq<string>, line: string)
    ensures var ps := closed + [line]; ps[..|ps| - 1] == closed && ps[|ps| - 1] == line
  {
  }

  // ---------------------------------------------------------------------
  // What the joiner does

  /** Joining lines that are free of "--" with spaces, as SpaceJoin does, cannot create one. */
  lemma {:induction false} SpaceJoinNoComment(cleaned: seq<string>)
    requires forall i :: 0 <= i < |cleaned| ==> NoDoubleDash(cleaned[i])
    ensures NoDoubleDash(SpaceJoin(cleaned))
    decreases |cleaned|
  {
    if cleaned != [] {
      var init := cleaned[..|cleaned| - 1];
      SpaceJoinNoComment(init);
      var s := cleaned[|cleaned| - 1];
      if s != [] {
        ConcatSpaceNoDoubleDash(SpaceJoin(init), s);
      }
    }
  }

  /**
   * No comment marker survives: every line loses everything from its first
   * "--" on, including the text after a newline inside parentheses.
   */
  lemma CleanNoComment(query: string)
    ensures !Contains(CleanQuery(query), "--")
  {
    var ps := Pieces(query, '\n');
    var cleaned := SqlSource.CleanLines(ps[..|ps| - 1]);
    forall i | 0 <= i < |cleaned| ensures NoDoubleDash(cleaned[i]) {
      StripNoDoubleDash(SqlSource.CutComment(ps[..|ps| - 1][i]));
    }
    SpaceJoinNoComment(cleaned);
    var clean := SpaceJoin(cleaned);
    var last := ps[|ps| - 1];
    var joined := JoinLastLine(clean, last);
    if Strip(last) != [] {
      StripNoDoubleDash(SqlSource.CutComment(last));
      ConcatSpaceNoDoubleDash(clean, Strip(SqlSource.CutComment(last)));
    }
    StripNoDoubleDash(joined);
    NoDoubleDashContains(CleanQuery(query));
  }

  /** A blank cleaned line adds nothing, wherever it stands. */
  lemma {:induction false} SpaceJoinSkip(a: seq<string>, b: seq<string>)
    ensures SpaceJoin(a + [[]] + b) == SpaceJoin(a + b)
    decreases |b|
  {
    if b == [] {
      assert (a + [[]] + b)[..|a|] == a;
      assert a + b == a;
    } else {
      var b' := b[..|b| - 1];
      SpaceJoinSkip(a, b');
      assert (a + [[]] + b)[..|a + [[]] + b| - 1] == a + [[]] + b';
      assert (a + b)[..|a + b| - 1] == a + b';
    }
  }

  /** The cleaned query of the closed lines followed by the last one. */
  lemma CleanOfSnoc(closed: seq<string>, last: string)
    ensures CleanOf(closed + [last]) == Strip(JoinLastLine(SpaceJoin(SqlSource.CleanLines(closed)), last))
  {
    SnocParts(closed, last);
  }

  /** A closed line that cleans to nothing can be dropped from the lines. */
  lemma CleanOfSkip(pa: seq<string>, line: string, pb: seq<string>)
    requires pb != [] && Strip(SqlSource.CutComment(line)) == []
    ensures CleanOf(pa + [line] + pb) == CleanOf(pa + pb)
  {
    var pb', last := pb[..|pb| - 1], pb[|pb| - 1];
    SnocAssoc(pa + [line], pb);
    SnocAssoc(pa, pb);
    CleanOfSnoc(pa + [line] + pb', last);
    CleanOfSnoc(pa + pb', last);
    var x, y := SqlSource.CleanLines(pa), SqlSource.CleanLines(pb');
    CleanLinesBlank(line);
    CleanLinesConcat(pa + [line], pb');
    CleanLinesConcat(pa, [line]);
    CleanLinesConcat(pa, pb');
    SpaceJoinSkip(x, y);
  }

  lemma CleanLinesBlank(line: string)
    requires Strip(SqlSource.CutComment(line)) == []
    ensures SqlSource.CleanLines([line]) == [[]]
  {
  }

  /**
   * A blank or comment-only line between two newlines at count zero leaves
   * the cleaned query as if it were not there.
   */
  lemma CleanSkipsEmptyLine(a: string, line: string, b: string)
    requires Depth(a) == 0 && NoTopSep(line, '\n') && Depth(line) == 0
    requires Strip(SqlSource.CutComment(line)) == []
    ensures CleanQuery(a + "\n" + line + "\n" + b) == CleanQuery(a + "\n" + b)
  {
    var nl := "\n";
    assert nl == ['\n'];
    Regroup(a, nl, line, b);
    PiecesAtTopSep(a, '\n', line + nl + b);
    PiecesAtTopSep(line, '\n', b);
    PiecesSingle(line, '\n');
    PiecesAtTopSep(a, '\n', b);
    var pa, pb := Pieces(a, '\n'), Pieces(b, '\n');
    ConcatAssoc(pa, [line], pb);
    CleanOfSkip(pa, line, pb);
  }

  /** A last line alone: its comment cut, stripped. */
  lemma LastLineAlone(line: string)
    ensures Strip(JoinLastLine([], line)) == Strip(SqlSource.CutComment(line))
  {
    LoneLine(line, SqlSource.CutComment(line));
  }

  lemma LoneLine(line: string, cut: string)
    requires StartsWith(line, cut)
    ensures Strip(if Strip(line) != [] then [] + " " + Strip(cut) else []) == Strip(cut)
  {
    if Strip(line) != [] {
      assert [] + " " + Strip(cut) == " " + Strip(cut);
      StripSpaceBefore(Strip(cut));
    } else {
      BlankPrefix(line, cut);
    }
  }

  /** A query with no newline at count zero is one line: cut at its comment and stripped. */
  lemma CleanSingleLine(query: string)
    requires NoTopSep(query, '\n')
    ensures CleanQuery(query) == Strip(SqlSource.CutComment(query))
  {
    PiecesSingle(query, '\n');
    assert [query][..0] == [];
    LastLineAlone(query);
  }

  // ---------------------------------------------------------------------
  // The FROM locator

  /**
   * The `in_extract` flag when the scan reaches position i of u: set where
   * EXTRACT starts, cleared at a ')'.  (At the FROM the scan accepts, it
   * stops, so the flag is never updated there.)
   */
  predicate InExtract(u: string, i: nat)
    requires i <= |u|
    decreases i
  {
    if i == 0 then false
    else if OccursAt(u, "EXTRACT", i - 1) then true
    else if u[i - 1] == ')' then false
    else InExtract(u, i - 1)
  }

  /** A FROM at i that the locator accepts. */
  predicate QualifyingFrom(u: string, i: nat) {
    OccursAt(u, "FROM", i) && !InExtract(u, i)
  }

  /** `from_pos`: the first accepted FROM at or after i, or -1 when there is none. */
  function FirstFrom(u: string, i: nat): (r: int)
    requires i <= |u|
    ensures r == -1 || (i <= r && QualifyingFrom(u, r))
    ensures r == -1 ==> forall j :: i <= j < |u| ==> !QualifyingFrom(u, j)
    ensures r != -1 ==> forall j :: i <= j < r ==> !QualifyingFrom(u, j)
    decreases |u| - i
  {
    if i == |u| then -1
    else if QualifyingFrom(u, i) then i
    else FirstFrom(u, i + 1)
  }

  method LocateFrom(u: string) returns (fromPos: int)
    ensures fromPos == FirstFrom(u, 0)
  {
    var inExtract := false;
    fromPos := -1;
    var i := 0;
    while i < |u|
      invariant 0 <= i <= |u|
      invariant inExtract == InExtract(u, i)
      invariant FirstFrom(u, i) == FirstFrom(u, 0)
      invariant fromPos == -1
      decreases |u| - i
    {
      StartsWithAt(u, i, "EXTRACT");
      StartsWithAt(u, i, "FROM");
      if StartsWith(u[i..], "EXTRACT") {
        OccursAtHead(u, "EXTRACT", i);
        NotOccursAtHead(u, "FROM", i);
        inExtract := true;
      } else if StartsWith(u[i..], "FROM") && !inExtract {
        fromPos := i;
        break;
      } else if u[i] == ')' {
        inExtract := false;
      }
      i := i + 1;
    }
  }

  // ---------------------------------------------------------------------
  // What the locator does

  /** An EXTRACT at j with no ')' after it up to position i. */
  predicate ExtractOpen(u: string, j: nat, i: nat) {
    j < i <= |u| && OccursAt(u, "EXTRACT", j) && forall k :: j < k < i ==> u[k] != ')'
  }

  /** The flag is set exactly when an EXTRACT before i has not been closed by a ')'. */
  lemma {:induction false} InExtractMeaning(u: string, i: nat)
    requires i <= |u|
    ensures InExtract(u, i) <==> exists j :: ExtractOpen(u, j, i)
    decreases i
  {
    if i > 0 {
      InExtractMeaning(u, i - 1);
      if OccursAt(u, "EXTRACT", i - 1) {
        assert ExtractOpen(u, i - 1, i);
      } else if u[i - 1] == ')' {
      } else {
        if InExtract(u, i - 1) {
          var j :| ExtractOpen(u, j, i - 1);
          assert ExtractOpen(u, j, i);
        }
        if exists j :: ExtractOpen(u, j, i) {
          var j :| ExtractOpen(u, j, i);
          assert ExtractOpen(u, j, i - 1);
        }
      }
    }
  }

  /** A FROM after an EXTRACT with no ')' in between is skipped. */
  lemma ExtractHidesFrom(u: string, j: nat, k: nat)
    requires ExtractOpen(u, j, k) && OccursAt(u, "FROM", k)
    ensures FirstFrom(u, 0) != k
  {
    InExtractMeaning(u, k);
  }

  /** With no EXTRACT anywhere, the locator is `str.find(u, "FROM")`. */
  lemma NoExtractFindsFirst(u: string)
    requires !Contains(u, "EXTRACT")
    ensures FirstFrom(u, 0) == IndexOf(u, "FROM")
  {
    forall i | 0 <= i <= |u| ensures !InExtract(u, i) {
      InExtractMeaning(u, i);
    }
    var r := FirstFrom(u, 0);
    var k := IndexOf(u, "FROM");
    if k >= 0 {
      assert QualifyingFrom(u, k);
    }
    if r >= 0 {
      assert OccursAt(u, "FROM", r);
    }
  }

  // ---------------------------------------------------------------------
  // The comma splitters

  /** Closing one more piece: kept, stripped, when it is not empty. */
  lemma StripKeptSnoc(closed: seq<string>, current: string)
    ensures SqlSource.StripKept(closed + [current])
      == SqlSource.StripKept(closed) + (if current == [] then [] else [Strip(current)])
  {
    assert (closed + [current])[..|closed|] == closed;
  }

  /**
   * The splitter inside `validate_sql`: every piece at the commas met at
   * count zero that is not empty, stripped (a blank piece stays, as "").
   */
  method SplitSelect(selectPart: string) returns (columns: seq<string>)
    ensures columns == SqlSource.StripKept(Pieces(selectPart, ','))
  {
    columns := [];
    var current: string := [];
    var parens := 0;
    ghost var closed: seq<string> := [];
    ScanStart(selectPart, ',');
    for i := 0 to |selectPart|
      invariant parens == Depth(selectPart[..i])
      invariant Pieces(selectPart[..i], ',') == closed + [current]
      invariant columns == SqlSource.StripKept(closed)
    {
      var c := selectPart[i];
      DepthStep(selectPart, i);
      if c == '(' {
        parens := parens + 1;
        ScanChar(selectPart, ',', i, closed, current);
        current := current + [c];
      } else if c == ')' {
        parens := parens - 1;
        ScanChar(selectPart, ',', i, closed, current);
        current := current + [c];
      } else if c == ',' && parens == 0 {
        ScanSep(selectPart, ',', i, closed, current);
        StripKeptSnoc(closed, current);
        if current != [] {
          columns := columns + [Strip(current)];
        }
        closed := closed + [current];
        current := [];
      } else {
        ScanChar(selectPart, ',', i, closed, current);
        current := current + [c];
      }
    }
    ScanEnd(selectPart);
    StripKeptSnoc(closed, current);
    if current != [] {
      columns := columns + [Strip(current)];
    }
  }

  /** `[col for col in columns if col]`. */
  function DropEmpty(cols: seq<string>): seq<string> {
    if cols == [] then []
    else
      var last := cols[|cols| - 1];
      DropEmpty(cols[..|cols| - 1]) + (if last == [] then [] else [last])
  }

  /** `_split_columns`: the same scan, with the empty strings dropped at the end. */
  method SplitColumns(selectPart: string) returns (columns: seq<string>)
    ensures columns == NonBlank(Pieces(selectPart, ','))
  {
    columns := [];
    var current: string := [];
    var parens := 0;
    ghost var closed: seq<string> := [];
    ScanStart(selectPart, ',');
    for i := 0 to |selectPart|
      invariant parens == Depth(selectPart[..i])
      invariant Pieces(selectPart[..i], ',') == closed + [current]
      invariant columns == SqlSource.StripKept(closed)
    {
      var c := selectPart[i];
      DepthStep(selectPart, i);
      if c == '(' {
        parens := parens + 1;
      } else if c == ')' {
        parens := parens - 1;
      } else if c == ',' && parens == 0 {
        ScanSep(selectPart, ',', i, closed, current);
        StripKeptSnoc(closed, current);
        if current != [] {
          columns := columns + [Strip(current)];
        }
        closed := closed + [current];
        current := [];
        continue;
      }
      ScanChar(selectPart, ',', i, closed, current);
      current := current + [c];
    }
    ScanEnd(selectPart);
    StripKeptSnoc(closed, current);
    if current != [] {
      columns := columns + [Strip(current)];
    }
    ghost var kept := columns;
    columns := DropEmpty(columns);
    SplittersAgree(selectPart, kept);
  }

  /** Dropping the empty strings after stripping leaves the non-blank pieces. */
  lemma {:induction false} DropEmptyStripKept(ps: seq<string>)
    ensures DropEmpty(SqlSource.StripKept(ps)) == NonBlank(ps)
    decreases |ps|
  {
    if ps != [] {
      var init, last := ps[..|ps| - 1], ps[|ps| - 1];
      DropEmptyStripKept(init);
      var kept := SqlSource.StripKept(init);
      var tail := if last == [] then [] else [Strip(last)];
      assert SqlSource.StripKept(ps) == kept + tail;
      DropEmptyConcat(kept, tail);
      if last != [] {
        assert DropEmpty(tail) == if Strip(last) == [] then [] else [Strip(last)] by {
          assert tail[..0] == [];
        }
      }
    }
  }

  lemma {:induction false} DropEmptyConcat(a: seq<string>, b: seq<string>)
    ensures DropEmpty(a + b) == DropEmpty(a) + DropEmpty(b)
    decreases |b|
  {
    if b == [] {
      assert a + b == a;
    } else {
      var b' := b[..|b| - 1];
      DropEmptyConcat(a, b');
      assert (a + b)[..|a + b| - 1] == a + b';
    }
  }

  // ---------------------------------------------------------------------
  // What the splitters do

  /**
   * `_split_columns` returns non-empty, stripped columns, none of which holds
   * a comma at count zero: parentheses and the commas inside them stay.
   */
  lemma SplitColumnsPieces(selectPart: string)
    ensures forall k :: 0 <= k < |NonBlank(Pieces(selectPart, ','))| ==>
      NoTopSep(NonBlank(Pieces(selectPart, ','))[k], ',')
  {
    var ps := Pieces(selectPart, ',');
    PiecesNoTopSep(selectPart, ',');
    forall k | 0 <= k < |NonBlank(ps)| ensures NoTopSep(NonBlank(ps)[k], ',') {
      var i := NonBlankFrom(ps, k);
      StripNoTopSep(ps[i], ',');
    }
  }

  /** A column list with no comma at count zero comes back whole, stripped. */
  lemma SplitColumnsSingle(t: string)
    requires NoTopSep(t, ',') && Strip(t) != []
    ensures NonBlank(Pieces(t, ',')) == [Strip(t)]
  {
    PiecesSingle(t, ',');
    NonBlankSingle(t);
  }

  /** The columns before a comma at count zero come first: the order is the text's order. */
  lemma SplitColumnsConcat(a: string, b: string)
    requires Depth(a) == 0
    ensures NonBlank(Pieces(a + [','] + b, ',')) == NonBlank(Pieces(a, ',')) + NonBlank(Pieces(b, ','))
  {
    PiecesAtTopSep(a, ',', b);
    NonBlankConcat(Pieces(a, ','), Pieces(b, ','));
  }

  /** The two splitters agree once `_split_columns`' final filter drops the blank columns. */
  lemma SplittersAgree(selectPart: string, kept: seq<string>)
    requires kept == SqlSource.StripKept(Pieces(selectPart, ','))
    ensures DropEmpty(kept) == NonBlank(Pieces(selectPart, ','))
  {
    DropEmptyStripKept(Pieces(selectPart, ','));
  }

  // ---------------------------------------------------------------------
  // The rule for one column

  const Operators: seq<string> := ["+", "-", "*", "/"]
  const AliasKeywords: seq<string> := ["CASE", "EXTRACT"]

  /** `table.column`: a '.', not last, and exactly two parts around the dots. */
  predicate IsQualified(c: string) {
    '.' in c && !EndsWith(c, ".") && |SplitChar(c, '.')| == 2
  }

  /** The columns skipped before the alias test: aliased, alphanumeric, or qualified. */
  predicate Exempt(c: string) {
    Contains(c, " AS ") || IsAlnum(c) || IsQualified(c)
  }

  /** An expression that needs an alias. */
  predicate NeedsAlias(c: string) {
    EndsWith(c, ".") || '(' in c || Schema.ContainsAny(c, Operators) || Schema.ContainsAny(c, AliasKeywords)
  }

  /** The rule on the stripped, upper-cased column c. */
  predicate RejectsText(c: string) {
    c != [] && !Exempt(c) && NeedsAlias(c)
  }

  /** A column that makes `validate_sql` return False. */
  predicate Rejects(col: string) {
    RejectsText(Upper(Strip(col)))
  }

  predicate AllAccepted(cols: seq<string>) {
    forall i :: 0 <= i < |cols| ==> !Rejects(cols[i])
  }

  /** The loop over the columns: False at the first column that breaks the rule. */
  method CheckColumns(columns: seq<string>) returns (ok: bool)
    ensures ok <==> AllAccepted(columns)
  {
    for i := 0 to |columns|
      invariant AllAccepted(columns[..i])
    {
      var rejected := CheckColumn(columns[i]);
      AcceptedStep(columns, i, rejected);
      if rejected {
        return false;
      }
    }
    assert columns[..|columns|] == columns;
    return true;
  }

  lemma AcceptedStep(columns: seq<string>, i: nat, rejected: bool)
    requires i < |columns| && rejected == Rejects(columns[i])
    ensures AllAccepted(columns[..i + 1]) <==> AllAccepted(columns[..i]) && !rejected
    ensures rejected ==> !AllAccepted(columns)
  {
    assert columns[..i + 1] == columns[..i] + [columns[i]];
    AllAcceptedConcat(columns[..i], [columns[i]]);
    AllAcceptedSingle(columns[i]);
  }

  /** The body of that loop for one column: the skips first, then the alias test. */
  method CheckColumn(column: string) returns (rejected: bool)
    ensures rejected == Rejects(column)
  {
    var col := Upper(Strip(column));
    assert Rejects(column) == RejectsText(col);
    rejected := false;
    if col == [] {
      return;
    }
    var aliased := Contains(col, " AS ");
    var alnum := IsAlnum(col);
    var qualified := '.' in col && !EndsWith(col, ".") && |SplitChar(col, '.')| == 2;
    assert Exempt(col) == (aliased || alnum || qualified);
    if aliased || alnum || qualified {
      return;
    }
    rejected := EndsWith(col, ".") || '(' in col
      || Schema.ContainsAny(col, Operators) || Schema.ContainsAny(col, AliasKeywords);
    assert rejected == NeedsAlias(col);
  }

  // ---------------------------------------------------------------------
  // What the rule does

  /** Splitting at the one dot of `t.f` gives the two names. */
  lemma {:induction false} SplitAtOneDot(t: string, f: string)
    requires '.' !in t && '.' !in f
    ensures SplitChar(t + "." + f, '.') == [t, f]
    decreases |t|
  {
    var s := t + "." + f;
    if t == [] {
      assert s[0] == '.' && s[1..] == f;
      SplitCharNone(f, '.');
    } else {
      assert s[1..] == t[1..] + "." + f;
      SplitAtOneDot(t[1..], f);
      assert [t[0]] + t[1..] == t;
    }
  }

  /**
   * A name qualified once is accepted whatever its second part holds, so
   * an unaliased call such as `T.COUNT(X)` passes.
   */
  lemma QualifiedAccepted(t: string, f: string)
    requires '.' !in t && '.' !in f && f != []
    ensures !RejectsText(t + "." + f)
  {
    var c := t + "." + f;
    SplitAtOneDot(t, f);
    assert c[|t|] == '.';
    assert c[|c| - 1] == f[|f| - 1];
    assert c[|c| - 1..] == [f[|f| - 1]];
  }

  /** An unaliased call (a '(' with no ' AS ' and no '.') is rejected. */
  lemma CallNeedsAlias(c: string)
    requires '(' in c && !Contains(c, " AS ") && '.' !in c
    ensures RejectsText(c)
  {
    var k :| 0 <= k < |c| && c[k] == '(';
    assert !IsAlnumChar(c[k]);
  }

  /** Arithmetic without an alias is rejected unless the column is qualified once. */
  lemma OperatorNeedsAlias(c: string, k: nat)
    requires k < |Operators| && Contains(c, Operators[k])
    requires !Contains(c, " AS ") && !IsQualified(c)
    ensures RejectsText(c)
  {
    var j: int :| OccursAt(c, Operators[k], j);
    assert OccursAt(c, Operators[k], j);
    assert c[j] == c[j..j + 1][0];
    assert !IsAlnumChar(c[j]);
  }

  /** A column is never rejected for its case or the whitespace around it. */
  lemma RejectsNormalized(col: string)
    ensures Rejects(col) == Rejects(Upper(col))
  {
    StripUpper(col);
    UpperIsUpperCase(Strip(col));
  }

  // ---------------------------------------------------------------------
  // validate_sql

  /** `from_pos` in the cleaned query. */
  function FromPos(clean: string): int {
    FirstFrom(Upper(clean), 0)
  }

  /** `clean_query[6:from_pos].strip()`. */
  function SelectPart(clean: string): string
    requires FromPos(clean) != -1
  {
    Strip(Slice(clean, 6, FromPos(clean)))
  }

  /** What `validate_sql` checks on the cleaned query, in the order it checks it. */
  predicate ValidClean(clean: string) {
    StartsWith(Upper(clean), "SELECT") && FromPos(clean) != -1 && SelectPart(clean) != []
    && AllAccepted(SqlSource.StripKept(Pieces(SelectPart(clean), ',')))
  }

  /** What `validate_sql` returns. */
  predicate ValidSql(query: string) {
    ValidClean(CleanQuery(query))
  }

  method ValidateSql(query: string) returns (ok: bool)
    ensures ok == ValidSql(query)
  {
    var clean := Clean(query);
    if !StartsWith(Upper(clean), "SELECT") {
      return false;
    }
    var queryUpper := Upper(clean);
    var fromPos := LocateFrom(queryUpper);
    if fromPos == -1 {
      return false;
    }
    assert fromPos == FromPos(clean);
    var selectPart := Strip(Slice(clean, 6, fromPos));
    assert selectPart == SelectPart(clean);
    if selectPart == [] {
      return false;
    }
    var columns := SplitSelect(selectPart);
    ok := CheckColumns(columns);
  }

  // ---------------------------------------------------------------------
  // What validate_sql does

  /** The query passes exactly when its select list is there and every piece of it passes the rule. */
  lemma ValidCleanMeaning(clean: string)
    requires StartsWith(Upper(clean), "SELECT") && FromPos(clean) != -1
    ensures ValidClean(clean) <==> SelectPart(clean) != [] && AllAccepted(Pieces(SelectPart(clean), ','))
  {
    var ps := Pieces(SelectPart(clean), ',');
    StripKeptAccepted(ps);
  }

  /** Empty pieces are skipped and the others are stripped, which the rule does anyway. */
  lemma {:induction false} StripKeptAccepted(ps: seq<string>)
    ensures AllAccepted(SqlSource.StripKept(ps)) <==> AllAccepted(ps)
    decreases |ps|
  {
    if ps != [] {
      var init, last := ps[..|ps| - 1], ps[|ps| - 1];
      StripKeptAccepted(init);
      SnocAssoc([], ps);
      StripKeptSnoc(init, last);
      AllAcceptedConcat(init, [last]);
      AllAcceptedConcat(SqlSource.StripKept(init), if last == [] then [] else [Strip(last)]);
      KeptAccepted(last);
    }
  }

  /** What one piece contributes to the kept columns passes exactly when the piece does. */
  lemma KeptAccepted(last: string)
    ensures AllAccepted(if last == [] then [] else [Strip(last)]) <==> AllAccepted([last])
  {
    AllAcceptedSingle(last);
    if last != [] {
      AllAcceptedSingle(Strip(last));
      RejectsStrip(last);
    } else {
      RejectsEmpty();
    }
  }

  lemma RejectsStrip(s: string)
    ensures Rejects(Strip(s)) == Rejects(s)
  {
    StrippedFixed(Strip(s));
  }

  lemma RejectsEmpty()
    ensures !Rejects([])
  {
    assert Strip([]) == [];
  }

  lemma AllAcceptedSingle(x: string)
    ensures AllAccepted([x]) <==> !Rejects(x)
  {
    assert [x][0] == x;
  }

  lemma AllAcceptedConcat(a: seq<string>, b: seq<string>)
    ensures AllAccepted(a + b) <==> AllAccepted(a) && AllAccepted(b)
  {
    if AllAccepted(a) && AllAccepted(b) {
      forall i | 0 <= i < |a + b| ensures !Rejects((a + b)[i]) {
        if i < |a| {
          assert (a + b)[i] == a[i];
        } else {
          assert (a + b)[i] == b[i - |a|];
        }
      }
    }
    if AllAccepted(a + b) {
      forall i | 0 <= i < |a| ensures !Rejects(a[i]) {
        assert (a + b)[i] == a[i];
      }
      forall i | 0 <= i < |b| ensures !Rejects(b[i]) {
        assert (a + b)[|a| + i] == b[i];
      }
    }
  }

  /** A FROM inside an unclosed EXTRACT is never the one the select list ends at. */
  lemma ValidSkipsExtractFrom(clean: string, j: nat, k: nat)
    requires ExtractOpen(Upper(clean), j, k) && OccursAt(Upper(clean), "FROM", k)
    ensures FromPos(clean) != k
  {
    ExtractHidesFrom(Upper(clean), j, k);
  }

  // ---------------------------------------------------------------------
  // validate_config

  /** A configuration: a dictionary from field names to (string) values. */
  type Config = map<string, string>

  const RequiredKeys: seq<string> := ["query", "timestamp_field", "database"]

  /** `all(k in config for k in [...])`. */
  predicate HasRequiredKeys(config: Config)
    ensures HasRequiredKeys(config) ==> "query" in config
  {
    assert RequiredKeys[0] == "query";
    forall k :: k in RequiredKeys ==> k in config
  }

  /** `validate_config`: all three keys present, then the query's own verdict. */
  predicate ValidConfig(config: Config) {
    HasRequiredKeys(config) && ValidSql(config["query"])
  }

  /** `validate_config` passes exactly when all three keys are present and the query passes. */
  lemma ValidConfigMeaning(config: Config)
    ensures ValidConfig(config) <==>
      "query" in config && "timestamp_field" in config && "database" in config && ValidSql(config["query"])
  {
    RequiredKeysMeaning(config);
  }

  /** The keys are checked first and all three are needed. */
  lemma RequiredKeysMeaning(config: Config)
    ensures HasRequiredKeys(config) <==> "query" in config && "timestamp_field" in config && "database" in config
  {
    assert RequiredKeys[0] == "query" && RequiredKeys[1] == "timestamp_field" && RequiredKeys[2] == "database";
  }

  // ---------------------------------------------------------------------
  // ConfigValidator.validate

  /** The argument of `validate`: a dictionary, or any other value. */
  datatype ConfigArg = NotADict | Dict(entries: Config)

  /**
   * What `validate` does: a list of errors, or the `TypeError` raised by
   * `errors.extend` on the boolean `validate_sql` returns.
   */
  datatype Outcome = Errors(messages: seq<string>) | RaisesTypeError

  function Validate(config: ConfigArg): (r: Outcome)
    ensures config.NotADict? ==> r == Errors(["Configuration must be a dictionary"])
    ensures config.Dict? ==> r != Errors(["Configuration must be a dictionary"])
  {
    match config
    case NotADict => Errors(["Configuration must be a dictionary"])
    case Dict(entries) => if "query" in entries then RaisesTypeError else Errors([])
  }
}
