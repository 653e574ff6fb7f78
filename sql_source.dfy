/**
 * The base SQL source of sql_sources.py: the line-oriented SELECT/FROM
 * locator, the column splitter with its paren count and CASE flag, the
 * column parser, the type guesser, and `infer_schema`, which chains them.
 * Loops of the source are methods proved equal to a reference function;
 * the lemmas say what those functions mean.
 */
module SqlSource {
  import opened Optional
  import opened Text
  import opened Splitting

  /** The `ValueError`s the base source raises. */
  datatype SqlError =
    | CteNotSupported
    | MustStartWithSelect
    | MissingFromClause
    | InvalidStatement
    | EmptyQuery
  {
    function Message(): string {
      match this
      case CteNotSupported => "CTEs (WITH clauses) are not supported"
      case MustStartWithSelect => "Query must start with SELECT"
      case MissingFromClause => "Query must contain FROM clause"
      case InvalidStatement => "Invalid SELECT statement"
      case EmptyQuery => "Empty query"
    }
  }

  /** A value, or the `ValueError` raised instead of returning it. */
  datatype Result<T> = Ok(value: T) | Err(error: SqlError)

  /** The three normalised types a column can be given. */
  datatype DType = INT64 | FLOAT | STRING

  /** One entry `{'name': ..., 'dtype': ...}` of an inferred schema. */
  datatype Column = Column(name: string, dtype: DType)

  /** The characters that make a statement invalid outright. */
  predicate HasInvalidChar(q: string) {
    ';' in q || '`' in q || '|' in q
  }

  predicate IsSelectLine(line: string) {
    StartsWith(Upper(line), "SELECT")
  }

  predicate IsFromLine(line: string) {
    StartsWith(Upper(line), "FROM")
  }

  // ---------------------------------------------------------------------
  // _validate_format

  /** A query with no newline but with commas is broken into lines at every comma. */
  function SplitSingleLine(q: string): (r: string)
    ensures ('\n' in q || ',' !in q) ==> r == q
    ensures q != [] && q[0] != ',' ==> r != [] && r[0] == q[0]
  {
    if '\n' !in q && ',' in q then
      var ps := SplitChar(q, ',');
      JoinHead([','], ps);
      JoinHead("\n", ps);
      JoinWith("\n", ps)
    else q
  }

  /** The first line that starts with FROM (and not with SELECT), or |lines| when there is none. */
  function FromLine(lines: seq<string>): (f: nat)
    ensures f <= |lines|
    ensures f < |lines| ==> !IsSelectLine(lines[f]) && IsFromLine(lines[f])
    ensures forall i :: 0 <= i < f ==> IsSelectLine(lines[i]) || !IsFromLine(lines[i])
  {
    if lines == [] then 0
    else if !IsSelectLine(lines[0]) && IsFromLine(lines[0]) then 0
    else 1 + FromLine(lines[1..])
  }

  /** The last line before line f that starts with SELECT, or -1 when there is none. */
  function SelectLineBefore(lines: seq<string>, f: nat): (s: int)
    requires f <= |lines|
    ensures -1 <= s < f
    ensures s >= 0 ==> IsSelectLine(lines[s])
    ensures forall i :: s < i < f ==> !IsSelectLine(lines[i])
  {
    if f == 0 then -1
    else if IsSelectLine(lines[f - 1]) then f - 1
    else SelectLineBefore(lines, f - 1)
  }

  /**
   * What `_validate_format` returns: the stripped non-blank lines from the
   * last SELECT line before the first FROM line up to that FROM line.
   */
  function FormatLines(query: string): (r: Result<seq<string>>)
    ensures r.Ok? ==> r.value != [] && IsSelectLine(r.value[0])
    ensures r.Ok? ==> forall i :: 1 <= i < |r.value| ==> !IsSelectLine(r.value[i]) && !IsFromLine(r.value[i])
    ensures r.Ok? ==> forall i :: 0 <= i < |r.value| ==> r.value[i] != [] && IsStripped(r.value[i])
  {
    FormatStripped(Strip(query))
  }

  /** The format check once the query is stripped. */
  function FormatStripped(q: string): (r: Result<seq<string>>)
    ensures r.Ok? ==> r.value != [] && IsSelectLine(r.value[0])
    ensures r.Ok? ==> forall i :: 1 <= i < |r.value| ==> !IsSelectLine(r.value[i]) && !IsFromLine(r.value[i])
    ensures r.Ok? ==> forall i :: 0 <= i < |r.value| ==> r.value[i] != [] && IsStripped(r.value[i])
  {
    if HasInvalidChar(q) then Err(InvalidStatement)
    else
      var q2 := SplitSingleLine(q);
      if StartsWith(Upper(q2), "WITH") then Err(CteNotSupported)
      else Window(NonBlank(SplitLines(q2)))
  }

  /** The forbidden characters are not whitespace, so stripping neither adds nor removes one. */
  lemma StripKeepsInvalidChar(query: string)
    ensures HasInvalidChar(Strip(query)) == HasInvalidChar(query)
  {
    CharInStrip(query, ';');
    CharInStrip(query, '`');
    CharInStrip(query, '|');
  }

  /** The format check strips the query first, so stripping it beforehand changes nothing. */
  lemma FormatLinesStrip(query: string)
    ensures FormatLines(Strip(query)) == FormatLines(query)
  {
    StripIdempotent(query);
  }

  /** A stripped query that starts with SELECT keeps its leading S through the comma split, so it is not a CTE. */
  lemma SelectIsNoCte(query: string)
    requires StartsWith(Upper(Strip(query)), "SELECT")
    ensures FormatLines(query) != Err(CteNotSupported)
  {
    var q := Strip(query);
    SelectSplitIsNoCte(q);
    if !HasInvalidChar(q) {
      WindowNoCte(NonBlank(SplitLines(SplitSingleLine(q))));
    }
  }

  lemma SelectSplitIsNoCte(q: string)
    requires StartsWith(Upper(q), "SELECT")
    ensures !StartsWith(Upper(SplitSingleLine(q)), "WITH")
  {
    assert Upper(q)[0] == 'S';
    assert q[0] != ',';
    var q2 := SplitSingleLine(q);
    assert q2 != [] && q2[0] == q[0];
    assert Upper(q2)[0] == 'S';
  }

  lemma WindowNoCte(lines: seq<string>)
    requires forall i :: 0 <= i < |lines| ==> lines[i] != [] && IsStripped(lines[i])
    ensures Window(lines) != Err(CteNotSupported)
  {
  }

  /** The SELECT-to-FROM window of the cleaned lines, or why there is none. */
  function Window(lines: seq<string>): (r: Result<seq<string>>)
    requires forall i :: 0 <= i < |lines| ==> lines[i] != [] && IsStripped(lines[i])
    ensures r.Ok? ==> r.value != [] && IsSelectLine(r.value[0])
    ensures r.Ok? ==> forall i :: 1 <= i < |r.value| ==> !IsSelectLine(r.value[i]) && !IsFromLine(r.value[i])
    ensures r.Ok? ==> forall i :: 0 <= i < |r.value| ==> r.value[i] != [] && IsStripped(r.value[i])
  {
    if lines == [] then Err(EmptyQuery)
    else
      var f := FromLine(lines);
      var s := SelectLineBefore(lines, f);
      if s < 0 then Err(MustStartWithSelect)
      else if f == |lines| then Err(MissingFromClause)
      else
        SelectWindow(lines, s, f);
        Ok(lines[s..f])
  }

  /** The lines from the SELECT line up to the FROM line hold no other SELECT or FROM line. */
  lemma SelectWindow(lines: seq<string>, s: int, f: nat)
    requires forall i :: 0 <= i < |lines| ==> lines[i] != [] && IsStripped(lines[i])
    requires f == FromLine(lines) && f < |lines|
    requires s == SelectLineBefore(lines, f) && s >= 0
    ensures var w := lines[s..f];
      w != [] && IsSelectLine(w[0])
      && (forall i :: 1 <= i < |w| ==> !IsSelectLine(w[i]) && !IsFromLine(w[i]))
      && (forall i :: 0 <= i < |w| ==> w[i] != [] && IsStripped(w[i]))
  {
    var w := lines[s..f];
    forall i | 1 <= i < |w| ensures !IsSelectLine(w[i]) && !IsFromLine(w[i]) {
      assert w[i] == lines[s + i];
    }
  }

  lemma NonBlankStep(all: seq<string>, i: nat)
    requires i < |all|
    ensures NonBlank(all[..i + 1]) == NonBlank(all[..i]) + (if Strip(all[i]) == [] then [] else [Strip(all[i])])
  {
    assert all[..i + 1][..i] == all[..i];
  }

  method ValidateFormat(query: string) returns (r: Result<seq<string>>)
    ensures r == FormatLines(query)
  {
    var q := Strip(query);
    if ';' in q || '`' in q || '|' in q {
      return Err(InvalidStatement);
    }
    if '\n' !in q && ',' in q {
      var parts := SplitChar(q, ',');
      q := JoinWith("\n", parts);
    }
    if StartsWith(Upper(q), "WITH") {
      return Err(CteNotSupported);
    }
    var all := SplitLines(q);
    var cleanLines: seq<string> := [];
    for i := 0 to |all|
      invariant cleanLines == NonBlank(all[..i])
    {
      NonBlankStep(all, i);
      var line := Strip(all[i]);
      if line == [] {
        continue;
      }
      cleanLines := cleanLines + [line];
    }
    assert all[..|all|] == all;
    assert FormatLines(query) == Window(cleanLines);
    r := LocateWindow(cleanLines);
  }

  /** The second half of `_validate_format`: find the SELECT and FROM lines in the cleaned lines. */
  method LocateWindow(cleanLines: seq<string>) returns (r: Result<seq<string>>)
    requires forall i :: 0 <= i < |cleanLines| ==> cleanLines[i] != [] && IsStripped(cleanLines[i])
    ensures r == Window(cleanLines)
  {
    if cleanLines == [] {
      return Err(EmptyQuery);
    }
    var selectLine := -1;
    var fromLine := -1;
    var i := 0;
    while i < |cleanLines|
      invariant 0 <= i <= |cleanLines|
      invariant fromLine == -1 && i <= FromLine(cleanLines)
      invariant selectLine == SelectLineBefore(cleanLines, i)
    {
      if IsSelectLine(cleanLines[i]) {
        selectLine := i;
      } else if IsFromLine(cleanLines[i]) {
        fromLine := i;
        break;
      }
      i := i + 1;
    }
    if selectLine == -1 {
      return Err(MustStartWithSelect);
    }
    if fromLine == -1 {
      return Err(MissingFromClause);
    }
    WindowAt(cleanLines, selectLine, fromLine);
    r := Ok(cleanLines[selectLine..fromLine]);
  }

  lemma WindowAt(lines: seq<string>, s: int, f: int)
    requires forall i :: 0 <= i < |lines| ==> lines[i] != [] && IsStripped(lines[i])
    requires 0 <= f < |lines| && f <= FromLine(lines) && IsFromLine(lines[f]) && !IsSelectLine(lines[f])
    requires s == SelectLineBefore(lines, f) && s != -1
    ensures 0 <= s <= f && Window(lines) == Ok(lines[s..f])
  {
  }

  // ---------------------------------------------------------------------
  // _extract_select

  /** A line with a leading SELECT keyword removed (`line[6:].strip()`). */
  function DropSelect(line: string): string {
    if IsSelectLine(line) then Strip(line[6..]) else line
  }

  function DropSelectAll(lines: seq<string>): seq<string> {
    seq(|lines|, i requires 0 <= i < |lines| => DropSelect(lines[i]))
  }

  /** What `_extract_select` returns: the lines joined by spaces, SELECT keywords dropped. */
  function SelectText(lines: seq<string>): (s: string)
    ensures IsStripped(s)
  {
    Strip(JoinWith(" ", DropSelectAll(lines)))
  }

  lemma DropSelectStep(lines: seq<string>, i: nat)
    requires i < |lines|
    ensures DropSelectAll(lines[..i + 1]) == DropSelectAll(lines[..i]) + [DropSelect(lines[i])]
  {
    var next := DropSelectAll(lines[..i + 1]);
    forall k | 0 <= k <= i ensures next[k] == (DropSelectAll(lines[..i]) + [DropSelect(lines[i])])[k] {
      assert lines[..i + 1][k] == lines[k];
    }
  }

  method ExtractSelect(lines: seq<string>) returns (s: string)
    ensures s == SelectText(lines)
    ensures IsStripped(s)
  {
    var selectPart: seq<string> := [];
    for i := 0 to |lines|
      invariant selectPart == DropSelectAll(lines[..i])
    {
      DropSelectStep(lines, i);
      var line := lines[i];
      if IsSelectLine(line) {
        line := Strip(line[6..]);
      }
      selectPart := selectPart + [line];
    }
    assert lines[..|lines|] == lines;
    s := Strip(JoinWith(" ", selectPart));
  }

  // ---------------------------------------------------------------------
  // _clean_sql

  /** A line with its comment removed: everything from the first "--" (`line[:line.index('--')]`). */
  function CutComment(line: string): (r: string)
    ensures NoDoubleDash(r)
    ensures StartsWith(line, r)
    ensures !Contains(line, "--") ==> r == line
    ensures Contains(line, "--") ==> |r| == IndexOf(line, "--")
  {
    if Contains(line, "--") then
      var k := IndexOf(line, "--");
      BeforeFirst(line, "--", k);
      NoDoubleDashContains(line[..k]);
      line[..k]
    else
      NoDoubleDashContains(line);
      line
  }

  /** One line of `_clean_sql`: cut at its comment, then stripped. */
  function CleanLine(line: string): string {
    Strip(CutComment(line))
  }

  function CleanLines(lines: seq<string>): seq<string> {
    seq(|lines|, i requires 0 <= i < |lines| => CleanLine(lines[i]))
  }

  /** What `_clean_sql` returns: every physical line cut at "--", stripped, joined by spaces. */
  function CleanSqlText(sql: string): string {
    JoinWith(" ", CleanLines(SplitLines(sql)))
  }

  method CleanSql(sql: string) returns (r: string)
    ensures r == CleanSqlText(sql)
  {
    var all := SplitLines(sql);
    var cleanLines: seq<string> := [];
    for i := 0 to |all|
      invariant cleanLines == CleanLines(all[..i])
    {
      var line := all[i];
      if Contains(line, "--") {
        line := line[..IndexOf(line, "--")];
      }
      CleanStep(all, i, cleanLines, line);
      cleanLines := cleanLines + [Strip(line)];
    }
    assert all[..|all|] == all;
    r := JoinWith(" ", cleanLines);
  }

  lemma CleanStep(all: seq<string>, i: nat, cleanLines: seq<string>, line: string)
    requires i < |all| && cleanLines == CleanLines(all[..i]) && line == CutComment(all[i])
    ensures cleanLines + [Strip(line)] == CleanLines(all[..i + 1])
  {
    var next := CleanLines(all[..i + 1]);
    assert |next| == i + 1;
    forall k | 0 <= k <= i ensures (cleanLines + [Strip(line)])[k] == next[k] {
      assert all[..i + 1][k] == all[k];
    }
  }

  /** No comment marker survives cleaning: the result never contains "--". */
  lemma CleanSqlNoComment(sql: string)
    ensures !Contains(CleanSqlText(sql), "--")
  {
    var ls := CleanLines(SplitLines(sql));
    forall i | 0 <= i < |ls| ensures NoDoubleDash(ls[i]) {
      StripNoDoubleDash(CutComment(SplitLines(sql)[i]));
    }
    JoinNoDoubleDash(ls);
    NoDoubleDashContains(CleanSqlText(sql));
  }

  // ---------------------------------------------------------------------
  // _find_main_select

  /** `_find_main_select`: the stripped query, or the CTE error for a query starting with WITH. */
  function FindMainSelect(query: string): (r: Result<string>)
    ensures r.Err? <==> StartsWith(Upper(Strip(query)), "WITH")
    ensures r.Err? ==> r.error == CteNotSupported
    ensures r.Ok? ==> r.value == Strip(query)
  {
    var q := Strip(query);
    if StartsWith(Upper(q), "WITH") then Err(CteNotSupported) else Ok(q)
  }

  // ---------------------------------------------------------------------
  // _split_columns

  /**
   * Whether reading piece p switches the scanner's CASE flag on: some
   * character other than a parenthesis is read while the text of the piece
   * before it already contains "CASE" (in any case of letters).  Written
   * character by character from the end, as the scanner reads it.
   */
  predicate CaseTriggered(p: string)
    decreases |p|
  {
    p != [] &&
      var init, c := p[..|p| - 1], p[|p| - 1];
      CaseTriggered(init) || (c != '(' && c != ')' && Contains(Upper(init), "CASE"))
  }

  /** CaseTriggered holds exactly when some non-parenthesis character of p follows a "CASE". */
  lemma {:induction false} CaseTriggeredMeans(p: string)
    ensures CaseTriggered(p) <==>
      exists j | 0 <= j < |p| :: p[j] != '(' && p[j] != ')' && Contains(Upper(p[..j]), "CASE")
  {
    if p != [] {
      var init := p[..|p| - 1];
      CaseTriggeredMeans(init);
      assert forall j :: 0 <= j < |init| ==> init[j] == p[j] && init[..j] == p[..j];
      assert p[..|init|] == init;
    }
  }

  /** The first piece that switches the CASE flag on, or |ps|. */
  function FirstTriggered(ps: seq<string>): (m: nat)
    ensures m <= |ps|
  {
    if ps == [] then 0
    else if CaseTriggered(ps[0]) then 0
    else 1 + FirstTriggered(ps[1..])
  }

  /** FirstTriggered finds the first piece that switches the flag on. */
  lemma {:induction false} FirstTriggeredFirst(ps: seq<string>)
    ensures var m := FirstTriggered(ps);
      (forall k :: 0 <= k < m ==> !CaseTriggered(ps[k])) && (m < |ps| ==> CaseTriggered(ps[m]))
  {
    if ps != [] && !CaseTriggered(ps[0]) {
      FirstTriggeredFirst(ps[1..]);
      var m := FirstTriggered(ps);
      forall k | 1 <= k < m ensures !CaseTriggered(ps[k]) {
        assert ps[k] == ps[1..][k - 1];
      }
    }
  }

  /**
   * The columns of a normalised SELECT list: cut at every comma at paren
   * depth zero until the CASE flag goes on; from the piece where it goes on,
   * the rest of the text is one column.  Blank columns are dropped, the
   * others stripped.
   */
  function CaseSplit(t: string): (cols: seq<string>)
    ensures forall i :: 0 <= i < |cols| ==> cols[i] != [] && IsStripped(cols[i])
  {
    var ps := Pieces(t, ',');
    var m := FirstTriggered(ps);
    if m == |ps| then NonBlank(ps) else NonBlank(ps[..m] + [JoinWith(",", ps[m..])])
  }

  /** `' '.join(s.split())`: whitespace runs collapsed to one space, none at the ends. */
  function Normalize(s: string): string {
    JoinWith(" ", Words(s))
  }

  /** What `_split_columns` returns. */
  function Columns(selectPart: string): (cols: seq<string>)
    ensures forall i :: 0 <= i < |cols| ==> cols[i] != [] && IsStripped(cols[i])
  {
    CaseSplit(Normalize(selectPart))
  }

  /** A piece that holds no CASE never switches the flag on. */
  lemma NoCaseNotTriggered(p: string)
    requires !Contains(Upper(p), "CASE")
    ensures !CaseTriggered(p)
  {
    CaseTriggeredMeans(p);
    forall j | 0 <= j < |p| ensures !Contains(Upper(p[..j]), "CASE") {
      assert Upper(p[..j]) == Upper(p)[..j];
      if Contains(Upper(p)[..j], "CASE") {
        ContainsSlice(Upper(p), 0, j, "CASE");
      }
    }
  }

  /** With no piece switching the flag on, FirstTriggered reaches the end. */
  lemma {:induction false} FirstTriggeredNone(ps: seq<string>)
    requires forall k :: 0 <= k < |ps| ==> !CaseTriggered(ps[k])
    ensures FirstTriggered(ps) == |ps|
  {
    if ps != [] {
      assert forall k :: 0 <= k < |ps| - 1 ==> ps[1..][k] == ps[k + 1];
      FirstTriggeredNone(ps[1..]);
    }
  }

  /**
   * Without CASE the scanner is the plain comma splitter: the columns are
   * the stripped non-blank pieces of the normalised text cut at commas at
   * count zero, in text order, and no column holds such a comma.
   */
  lemma ColumnsWithoutCase(selectPart: string)
    requires forall k :: 0 <= k < |Pieces(Normalize(selectPart), ',')| ==>
      !Contains(Upper(Pieces(Normalize(selectPart), ',')[k]), "CASE")
    ensures Columns(selectPart) == NonBlank(Pieces(Normalize(selectPart), ','))
    ensures forall k :: 0 <= k < |Columns(selectPart)| ==> NoTopSep(Columns(selectPart)[k], ',')
  {
    CaseSplitWithoutCase(Normalize(selectPart));
  }

  lemma CaseSplitWithoutCase(t: string)
    requires forall k :: 0 <= k < |Pieces(t, ',')| ==> !Contains(Upper(Pieces(t, ',')[k]), "CASE")
    ensures CaseSplit(t) == NonBlank(Pieces(t, ','))
    ensures forall k :: 0 <= k < |CaseSplit(t)| ==> NoTopSep(CaseSplit(t)[k], ',')
  {
    PiecesNoTopSep(t, ',');
    NonBlankNoTopSep(Pieces(t, ','), ',');
    var ps := Pieces(t, ',');
    forall k | 0 <= k < |ps| ensures !CaseTriggered(ps[k]) {
      NoCaseNotTriggered(ps[k]);
    }
    FirstTriggeredNone(ps);
  }

  /** `[c.strip() for c in columns if c]`. */
  function StripKept(cols: seq<string>): seq<string> {
    if cols == [] then []
    else
      var last := cols[|cols| - 1];
      StripKept(cols[..|cols| - 1]) + (if last == [] then [] else [Strip(last)])
  }

  lemma StripKeptNonBlank(parts: seq<string>)
    ensures StripKept(NonBlank(parts)) == NonBlank(parts)
  {
    StripKeptStripped(NonBlank(parts));
  }

  /** Columns that are already non-blank and stripped pass the final clean-up unchanged. */
  lemma {:induction false} StripKeptStripped(cols: seq<string>)
    requires forall i :: 0 <= i < |cols| ==> cols[i] != [] && IsStripped(cols[i])
    ensures StripKept(cols) == cols
  {
    if cols != [] {
      var init := cols[..|cols| - 1];
      StripKeptStripped(init);
      assert init + [cols[|cols| - 1]] == cols;
    }
  }

  /**
   * The scanner outside a CASE, having read text[..i]: the pieces it closed
   * and the piece it is reading are the pieces of text[..i], and none of
   * them has switched the CASE flag on.
   */
  ghost predicate Outside(text: string, i: nat, closed: seq<string>, raw: string)
    requires i <= |text|
  {
    Pieces(text[..i], ',') == closed + [raw] && FirstTriggered(closed) == |closed| && !CaseTriggered(raw)
  }

  /**
   * The scanner inside a CASE, having read text[..i]: piece |closed| of
   * text[..i] switched the flag on, and what was read since that piece
   * started is the rest of text[..i], commas included.
   */
  ghost predicate Inside(text: string, i: nat, closed: seq<string>, raw: string)
    requires i <= |text|
  {
    var ps := Pieces(text[..i], ',');
    |closed| < |ps| && ps[..|closed|] == closed && FirstTriggered(closed) == |closed|
    && CaseTriggered(ps[|closed|]) && raw == JoinWith(",", ps[|closed|..])
  }

  method SplitColumns(selectPart: string) returns (columns: seq<string>)
    ensures columns == Columns(selectPart)
    ensures forall i :: 0 <= i < |columns| ==> columns[i] != [] && IsStripped(columns[i])
  {
    var text := JoinWith(" ", Words(selectPart));
    columns := [];
    var current: string := [];
    var parens := 0;
    var inCase := false;
    ghost var closed: seq<string> := [];
    ghost var raw: string := [];
    ScanStart(text, ',');
    for i := 0 to |text|
      invariant columns == NonBlank(closed)
      invariant current == LStrip(raw)
      invariant parens == Depth(text[..i])
      invariant !inCase ==> Outside(text, i, closed, raw)
      invariant inCase ==> Inside(text, i, closed, raw) && Contains(Upper(current), "CASE")
    {
      var c := text[i];
      ghost var parens0, inCase0, current0, columns0 := parens, inCase, current, columns;
      if c == '(' {
        parens := parens + 1;
        CurrentAppend(raw, c, current);
        current := current + [c];
      } else if c == ')' {
        parens := parens - 1;
        CurrentAppend(raw, c, current);
        current := current + [c];
      } else if c == ',' && parens == 0 && !inCase {
        var col := Strip(current);
        if col != [] {
          columns := columns + [col];
        }
        current := [];
      } else if IsSpace(c) && current == [] {
        // leading whitespace of a column is skipped
        CurrentSkip(raw, c, current);
      } else {
        if Contains(Upper(current), "CASE") {
          inCase := true;
        } else if inCase && Contains(Upper(current), "END") {
          inCase := false;
        }
        CurrentAppend(raw, c, current);
        current := current + [c];
      }
      // The same step in terms of the pieces.
      DepthStep(text, i);
      if c == ',' && parens0 == 0 && !inCase0 {
        StepSep(text, i, closed, raw);
        ColumnsSnoc(closed, raw, columns0, current0);
        closed := closed + [raw];
        raw := [];
      } else {
        StepKeep(text, i, closed, raw, inCase0, inCase, current0);
        raw := raw + [c];
      }
    }
    FinishColumns(selectPart, text, closed, raw, inCase, columns, current);
    if current != [] {
      var col := Strip(current);
      if col != [] {
        columns := columns + [col];
      }
    }
    columns := StripKept(columns);
  }

  /** The columns change as the pieces do when the scanner closes a piece. */
  lemma ColumnsSnoc(closed: seq<string>, raw: string, columns: seq<string>, current: string)
    requires columns == NonBlank(closed) && current == LStrip(raw)
    ensures NonBlank(closed + [raw]) == if Strip(current) != [] then columns + [Strip(current)] else columns
  {
    NonBlankConcat(closed, [raw]);
    NonBlankSingle(raw);
    StripLStrip(raw);
  }

  /** The column text is the piece read so far without its leading whitespace. */
  lemma CurrentSnoc(raw: string, c: char, current: string)
    requires current == LStrip(raw)
    ensures LStrip(raw + [c]) == if current == [] && IsSpace(c) then [] else current + [c]
  {
    LStripSnoc(raw, c);
  }

  lemma CurrentAppend(raw: string, c: char, current: string)
    requires current == LStrip(raw) && !(current == [] && IsSpace(c))
    ensures LStrip(raw + [c]) == current + [c]
  {
    CurrentSnoc(raw, c, current);
  }

  lemma CurrentSkip(raw: string, c: char, current: string)
    requires current == LStrip(raw) && current == [] && IsSpace(c)
    ensures LStrip(raw + [c]) == []
  {
    CurrentSnoc(raw, c, current);
  }

  /**
   * Any character but a comma at count zero outside a CASE is added to the
   * piece being read; the flag goes on once "CASE" has been read in it.
   */
  lemma StepKeep(text: string, i: nat, closed: seq<string>, raw: string, inCase: bool, inCase': bool,
                 current: string)
    requires i < |text| && current == LStrip(raw)
    requires !(text[i] == ',' && Depth(text[..i]) == 0 && !inCase)
    requires !inCase ==> Outside(text, i, closed, raw)
    requires inCase ==> Inside(text, i, closed, raw) && Contains(Upper(current), "CASE")
    requires inCase' == (inCase || (text[i] != '(' && text[i] != ')' && Contains(Upper(current), "CASE")))
    ensures !inCase' ==> Outside(text, i + 1, closed, raw + [text[i]])
    ensures inCase' ==> Inside(text, i + 1, closed, raw + [text[i]]) && Contains(Upper(current + [text[i]]), "CASE")
  {
    var c := text[i];
    if inCase {
      StepInside(text, i, closed, raw);
    } else if inCase' {
      ContainsUpperLStrip(raw, "CASE");
      StepTrigger(text, i, closed, raw);
    } else {
      if c != '(' && c != ')' {
        NoCaseRaw(raw, current);
      }
      StepOutside(text, i, closed, raw);
    }
    if inCase' {
      UpperSnocContains(current, c, "CASE");
    }
  }

  lemma StepOutside(text: string, i: nat, closed: seq<string>, raw: string)
    requires i < |text| && Outside(text, i, closed, raw)
    requires !(text[i] == ',' && Depth(text[..i]) == 0)
    requires text[i] == '(' || text[i] == ')' || !Contains(Upper(raw), "CASE")
    ensures Outside(text, i + 1, closed, raw + [text[i]])
  {
    ScanChar(text, ',', i, closed, raw);
    CaseTriggeredSnoc(raw, text[i]);
  }

  /** Leading whitespace cannot hide a "CASE". */
  lemma NoCaseRaw(raw: string, current: string)
    requires current == LStrip(raw) && !Contains(Upper(current), "CASE")
    ensures !Contains(Upper(raw), "CASE")
  {
    ContainsUpperLStrip(raw, "CASE");
  }

  lemma StepSep(text: string, i: nat, closed: seq<string>, raw: string)
    requires i < |text| && text[i] == ',' && Depth(text[..i]) == 0 && Outside(text, i, closed, raw)
    ensures Outside(text, i + 1, closed + [raw], [])
  {
    ScanSep(text, ',', i, closed, raw);
    FirstTriggeredSnoc(closed, raw);
  }

  lemma StepTrigger(text: string, i: nat, closed: seq<string>, raw: string)
    requires i < |text| && Outside(text, i, closed, raw)
    requires !(text[i] == ',' && Depth(text[..i]) == 0)
    requires text[i] != '(' && text[i] != ')' && Contains(Upper(raw), "CASE")
    ensures Inside(text, i + 1, closed, raw + [text[i]])
  {
    ScanChar(text, ',', i, closed, raw);
    CaseTriggeredSnoc(raw, text[i]);
    SplitAt(closed, [raw + [text[i]]]);
  }

  lemma StepInside(text: string, i: nat, closed: seq<string>, raw: string)
    requires i < |text| && Inside(text, i, closed, raw)
    ensures Inside(text, i + 1, closed, raw + [text[i]])
  {
    var ps := Pieces(text[..i], ',');
    var m := |closed|;
    var c := text[i];
    var n := |ps|;
    assert ps == ps[..n - 1] + [ps[n - 1]];
    if c == ',' && Depth(text[..i]) == 0 {
      ScanSep(text, ',', i, ps[..n - 1], ps[n - 1]);
      InsideAfterSep(ps, m);
    } else {
      ScanChar(text, ',', i, ps[..n - 1], ps[n - 1]);
      InsideAfterChar(ps, m, c);
      if m == n - 1 {
        CaseTriggeredSnoc(ps[m], c);
      }
    }
  }

  /** A separator inside a CASE piece is kept in the text read since the piece started. */
  lemma InsideAfterSep(ps: seq<string>, m: nat)
    requires m < |ps|
    ensures var ps' := ps + [[]];
      ps'[..m] == ps[..m] && ps'[m] == ps[m] && JoinWith(",", ps'[m..]) == JoinWith(",", ps[m..]) + ","
  {
    var ps' := ps + [[]];
    assert ps'[m..] == ps[m..] + [[]];
    JoinSnoc(",", ps[m..], []);
  }

  /** Any other character inside a CASE piece extends the last piece and the text read since. */
  lemma InsideAfterChar(ps: seq<string>, m: nat, c: char)
    requires m < |ps|
    ensures var n := |ps|; var ps' := ps[..n - 1] + [ps[n - 1] + [c]];
      ps'[..m] == ps[..m] && ps'[m] == (if m < n - 1 then ps[m] else ps[m] + [c])
      && JoinWith(",", ps'[m..]) == JoinWith(",", ps[m..]) + [c]
  {
    var n := |ps|;
    var ps' := ps[..n - 1] + [ps[n - 1] + [c]];
    var tail := ps[m..];
    assert ps'[m..] == tail[..|tail| - 1] + [tail[|tail| - 1] + [c]];
    JoinExtendLast(",", tail, c);
  }

  /** When the text is used up, the closed pieces and the piece being read give the columns. */
  lemma FinishColumns(selectPart: string, text: string, closed: seq<string>, raw: string, inCase: bool,
                      columns: seq<string>, current: string)
    requires text == JoinWith(" ", Words(selectPart))
    requires !inCase ==> Outside(text, |text|, closed, raw)
    requires inCase ==> Inside(text, |text|, closed, raw)
    requires columns == NonBlank(closed) && current == LStrip(raw)
    ensures StripKept(if current != [] && Strip(current) != [] then columns + [Strip(current)] else columns)
      == Columns(selectPart)
  {
    ScanColumns(selectPart, text, closed, raw, inCase);
    LastColumn(closed, raw, columns, current);
    StripKeptNonBlank(closed + [raw]);
  }

  lemma ScanColumns(selectPart: string, text: string, closed: seq<string>, raw: string, inCase: bool)
    requires text == JoinWith(" ", Words(selectPart))
    requires !inCase ==> Outside(text, |text|, closed, raw)
    requires inCase ==> Inside(text, |text|, closed, raw)
    ensures Columns(selectPart) == NonBlank(closed + [raw])
  {
    ScanEnd(text);
    var ps := Pieces(text, ',');
    if !inCase {
      FirstTriggeredSnoc(closed, raw);
    } else {
      FirstTriggeredAt(closed, ps);
      assert ps[..|closed|] + [JoinWith(",", ps[|closed|..])] == closed + [raw];
    }
    assert CaseSplit(text) == NonBlank(closed + [raw]);
  }

  /** The final append of the scanner closes the last piece. */
  lemma LastColumn(closed: seq<string>, raw: string, columns: seq<string>, current: string)
    requires columns == NonBlank(closed) && current == LStrip(raw)
    ensures (if current != [] && Strip(current) != [] then columns + [Strip(current)] else columns)
      == NonBlank(closed + [raw])
  {
    NonBlankConcat(closed, [raw]);
    NonBlankSingle(raw);
    StripLStrip(raw);
    if current == [] {
      assert Strip(current) == [];
    }
  }

  /** Appending one character to a piece switches the flag on exactly when it is read after "CASE". */
  lemma CaseTriggeredSnoc(raw: string, c: char)
    ensures CaseTriggered(raw + [c]) <==>
      CaseTriggered(raw) || (c != '(' && c != ')' && Contains(Upper(raw), "CASE"))
  {
    assert (raw + [c])[..|raw|] == raw;
  }

  /** Extending the pieces read so far past an untriggered piece keeps the flag off. */
  lemma {:induction false} FirstTriggeredSnoc(closed: seq<string>, raw: string)
    requires FirstTriggered(closed) == |closed| && !CaseTriggered(raw)
    ensures FirstTriggered(closed + [raw]) == |closed + [raw]|
  {
    var ps := closed + [raw];
    if closed != [] {
      assert ps[0] == closed[0];
      assert ps[1..] == closed[1..] + [raw];
      FirstTriggeredSnoc(closed[1..], raw);
    }
  }

  /** Pieces that start with the untriggered ones in closed and go on with a triggered one switch at |closed|. */
  lemma {:induction false} FirstTriggeredAt(closed: seq<string>, ps: seq<string>)
    requires FirstTriggered(closed) == |closed|
    requires |closed| < |ps| && ps[..|closed|] == closed && CaseTriggered(ps[|closed|])
    ensures FirstTriggered(ps) == |closed|
  {
    if closed != [] {
      assert ps[0] == closed[0];
      assert ps[1..][..|closed| - 1] == closed[1..];
      assert ps[1..][|closed| - 1] == ps[|closed|];
      FirstTriggeredAt(closed[1..], ps[1..]);
    }
  }

  lemma SplitAt<T>(a: seq<T>, b: seq<T>)
    ensures (a + b)[..|a|] == a && (a + b)[|a|..] == b
  {
  }
}
