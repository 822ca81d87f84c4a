/**
 * The text handling of the PDF exporter in export_views.py, apart from the
 * page layout: the initials drawn in the photo placeholder, the patient's
 * full name, the greedy word wrap of a text area (with the canvas's
 * stringWidth as an arbitrary integer-valued function) and the wrap_col
 * preprocessing of draw_info_table (with reportlab's Paragraph as an
 * abstract wrapper).
 */
module PdfExport {
  import opened Wrappers
  import opened Text

  /* ---------- initials (export_views.py:142) ---------- */

  /** [word[0].upper() for word in words], joined. */
  function FirstLetters(ws: seq<string>): (r: string)
    requires forall i :: 0 <= i < |ws| ==> IsWord(ws[i])
    ensures |r| == |ws|
    ensures forall i :: 0 <= i < |ws| ==> IsWord(ws[i]) && r[i] == UpperChar(ws[i][0])
  {
    if ws == [] then [] else assert IsWord(ws[0]); [UpperChar(ws[0][0])] + FirstLetters(ws[1..])
  }

  /** ''.join([word[0].upper() for word in name.split()[:2]]). */
  function Initials(name: string): (r: string)
    ensures |r| <= 2
    ensures |r| == if |Split(name)| < 2 then |Split(name)| else 2
    ensures forall i :: 0 <= i < |r| ==> IsWord(Split(name)[i]) && r[i] == UpperChar(Split(name)[i][0])
  {
    var words := Split(name);
    FirstLetters(if |words| < 2 then words else words[..2])
  }

  /** A blank name has no initials. */
  lemma BlankNameHasNoInitials(name: string)
    requires AllSpace(name)
    ensures Initials(name) == ""
  {
    SplitEmptyIffBlank(name);
  }

  /** The initials of words written with single spaces are the upper-cased first letters of the first two words. */
  lemma InitialsOfWords(ws: seq<string>)
    requires forall i :: 0 <= i < |ws| ==> IsWord(ws[i])
    ensures |Initials(Join(ws))| == if |ws| < 2 then |ws| else 2
    ensures forall i :: 0 <= i < |Initials(Join(ws))| ==> IsWord(ws[i]) && Initials(Join(ws))[i] == UpperChar(ws[i][0])
  {
    SplitJoin(ws);
  }

  /* ---------- full name (export_views.py:314, 396) ---------- */

  /** The f-string f"{first} {middle or ''} {last}". */
  function RawName(first: string, middle: Option<string>, last: string): (r: string)
    ensures |r| == |first| + |middle.GetOr("")| + |last| + 2
    ensures r[..|first|] == first && r[|first|] == ' '
    ensures r[|r| - |last|..] == last && r[|r| - |last| - 1] == ' '
  {
    first + " " + middle.GetOr("") + " " + last
  }

  /** s.strip().replace('  ', ' '): no blank at either end. */
  function Normalize(s: string): (r: string)
    ensures r == [] || (!IsSpace(r[0]) && !IsSpace(r[|r| - 1]))
  {
    var t := Strip(s);
    if t == [] then []
    else
      CollapseKeepsFirst(t);
      CollapseKeepsLast(t);
      CollapseSpacePairs(t)
  }

  /** The patient's full name as the PDF exports print it. */
  function FullName(first: string, middle: Option<string>, last: string): (r: string)
    ensures r == [] || (!IsSpace(r[0]) && !IsSpace(r[|r| - 1]))
  {
    Normalize(RawName(first, middle, last))
  }

  /** A word has no pair of spaces. */
  lemma WordHasNoPair(w: string)
    requires IsWord(w)
    ensures !HasSpacePair(w)
  {
    forall i | 0 <= i < |w| - 1 ensures !SpacePairAt(w, i) {
      assert !IsSpace(w[i]);
    }
  }

  /** Normalising words that have single spaces between them changes nothing. */
  lemma NormalizeJoin(ws: seq<string>)
    requires ws != [] && forall i :: 0 <= i < |ws| ==> IsWord(ws[i])
    ensures Normalize(Join(ws)) == Join(ws)
  {
    var s := Join(ws);
    JoinEnds(ws);
    JoinHasNoPair(ws);
    StripUnchanged(s);
    CollapseWithoutPairs(s);
  }

  /** A text with no blank at either end is only collapsed. */
  lemma NormalizeClean(s: string)
    requires s == [] || (!IsSpace(s[0]) && !IsSpace(s[|s| - 1]))
    ensures Normalize(s) == CollapseSpacePairs(s)
  {
    StripUnchanged(s);
  }

  /** replace('  ', ' ') turns two words with two spaces between them into two words with one. */
  lemma CollapseDoubleGap(a: string, b: string)
    requires IsWord(a) && IsWord(b)
    ensures CollapseSpacePairs(a + "  " + b) == a + " " + b
  {
    var tail := "  " + b;
    assert a + "  " + b == a + tail;
    WordHasNoPair(a);
    CollapseWithoutPairs(a);
    CollapseAppend(a, tail);
    assert tail[2..] == b;
    CollapseStepPair(tail);
    WordHasNoPair(b);
    CollapseWithoutPairs(b);
  }

  /** Normalising two words with two spaces between them leaves one space. */
  lemma NormalizeDoubleGap(a: string, b: string)
    requires IsWord(a) && IsWord(b)
    ensures Normalize(a + "  " + b) == a + " " + b
  {
    var s := a + "  " + b;
    assert s[0] == a[0] && s[|s| - 1] == b[|b| - 1];
    NormalizeClean(s);
    CollapseDoubleGap(a, b);
  }

  /** The names present, in order: first, the middle name when it is non-empty, last. */
  function NameParts(first: string, middle: Option<string>, last: string): seq<string> {
    if middle.GetOr("") == "" then [first, last] else [first, middle.value, last]
  }

  /**
   * For names that are single words, the full name is those names with one
   * space between each: in particular "first  last" becomes "first last"
   * when there is no middle name.
   */
  lemma FullNameOfWords(first: string, middle: Option<string>, last: string)
    requires IsWord(first) && IsWord(last)
    requires middle.GetOr("") == "" || IsWord(middle.value)
    ensures FullName(first, middle, last) == Join(NameParts(first, middle, last))
  {
    var parts := NameParts(first, middle, last);
    if middle.GetOr("") == "" {
      assert RawName(first, middle, last) == first + "  " + last;
      NormalizeDoubleGap(first, last);
      assert Join(parts) == first + " " + last;
    } else {
      var m := middle.value;
      assert parts[1..][1..] == [last];
      assert Join(parts[1..]) == m + " " + last;
      assert Join(parts) == RawName(first, middle, last);
      NormalizeJoin(parts);
    }
  }

  /** A name of at least two words with single spaces between them has the first letters of the first two as initials. */
  lemma InitialsOfTwoOrMore(name: string, ws: seq<string>)
    requires |ws| >= 2 && forall i :: 0 <= i < |ws| ==> IsWord(ws[i])
    requires IsWord(ws[0]) && IsWord(ws[1])
    requires name == Join(ws)
    ensures Initials(name) == [UpperChar(ws[0][0]), UpperChar(ws[1][0])]
  {
    InitialsOfWords(ws);
    var r := Initials(name);
    assert r == [r[0], r[1]];
  }

  /* ---------- word wrap (export_views.py:246-261) ---------- */

  /** The words of the lines, in order. */
  function LineWords(lines: seq<string>): seq<string> {
    if lines == [] then [] else LineWords(lines[..|lines| - 1]) + Split(lines[|lines| - 1])
  }

  lemma LineWordsSnoc(lines: seq<string>, line: string)
    ensures LineWords(lines + [line]) == LineWords(lines) + Split(line)
  {
    assert (lines + [line])[..|lines|] == lines;
  }

  /** A line fits when it is no wider than the limit; a line of one word is kept however wide. */
  predicate Fits(width: string -> int, maxWidth: int, line: string) {
    width(line) <= maxWidth || |Split(line)| == 1
  }

  /** `line` could not have taken the first word of `next`. */
  predicate Full(width: string -> int, maxWidth: int, line: string, next: string) {
    Split(next) != [] && width(line + " " + Split(next)[0]) > maxWidth
  }

  /**
   * Lines as the word wrap emits them: each is non-empty, is its words with
   * single spaces, and fits; and none could have taken the first word of
   * the next.
   */
  predicate WellWrapped(width: string -> int, maxWidth: int, lines: seq<string>) {
    && (forall i :: 0 <= i < |lines| ==> lines[i] != [] && lines[i] == Join(Split(lines[i])))
    && (forall i :: 0 <= i < |lines| ==> Fits(width, maxWidth, lines[i]))
    && (forall i :: 0 <= i < |lines| - 1 ==> Full(width, maxWidth, lines[i], lines[i + 1]))
  }

  /** The words of the current line: non-empty words, fitting unless there is only one. */
  predicate GoodCurrent(width: string -> int, maxWidth: int, currentLine: seq<string>) {
    && currentLine != []
    && (forall i :: 0 <= i < |currentLine| ==> IsWord(currentLine[i]))
    && (width(Join(currentLine)) <= maxWidth || |currentLine| == 1)
  }

  /**
   * The word wrap of draw_text_area: the words of `content` are put on
   * lines greedily, a word going onto the current line when the line with
   * it is no wider than `maxWidth`.  Every word is kept, in order; no line
   * is empty; each line is its words with single spaces; each line fits;
   * and no line could have taken the first word of the next.
   */
  method WrapText(content: string, width: string -> int, maxWidth: int) returns (lines: seq<string>)
    ensures LineWords(lines) == Split(content)
    ensures WellWrapped(width, maxWidth, lines)
  {
    var words := Split(content);
    lines := [];
    var currentLine: seq<string> := [];
    for k := 0 to |words|
      invariant LineWords(lines) + currentLine == words[..k]
      invariant WellWrapped(width, maxWidth, lines)
      invariant k > 0 ==> GoodCurrent(width, maxWidth, currentLine)
      invariant k == 0 ==> currentLine == [] && lines == []
      invariant lines != [] ==> currentLine != [] && width(lines[|lines| - 1] + " " + currentLine[0]) > maxWidth
    {
      lines, currentLine := WrapWord(lines, currentLine, words[k], width, maxWidth);
      TakeSnoc(words, k);
    }
    assert words[..|words|] == words;
    if currentLine != [] {
      lines := AppendLine(lines, currentLine, width, maxWidth);
    }
  }

  lemma TakeSnoc<T>(s: seq<T>, k: nat)
    requires k < |s|
    ensures s[..k + 1] == s[..k] + [s[k]]
  {
  }

  /** One turn of the loop over the words: the word joins the current line if the result fits, else it starts a new one. */
  method WrapWord(lines: seq<string>, currentLine: seq<string>, word: string, width: string -> int, maxWidth: int)
    returns (lines': seq<string>, currentLine': seq<string>)
    requires IsWord(word)
    requires WellWrapped(width, maxWidth, lines)
    requires currentLine == [] ==> lines == []
    requires currentLine != [] ==> GoodCurrent(width, maxWidth, currentLine)
    requires lines != [] ==> width(lines[|lines| - 1] + " " + currentLine[0]) > maxWidth
    ensures LineWords(lines') + currentLine' == LineWords(lines) + currentLine + [word]
    ensures WellWrapped(width, maxWidth, lines')
    ensures GoodCurrent(width, maxWidth, currentLine')
    ensures lines' != [] ==> width(lines'[|lines'| - 1] + " " + currentLine'[0]) > maxWidth
  {
    var testLine := Join(currentLine + [word]);
    if width(testLine) <= maxWidth {
      lines', currentLine' := lines, currentLine + [word];
    } else {
      lines' := lines;
      if currentLine != [] {
        lines' := AppendLine(lines, currentLine, width, maxWidth);
        JoinSnoc(currentLine, word);
      }
      currentLine' := [word];
    }
  }

  /** lines.append(' '.join(current_line)). */
  method AppendLine(lines: seq<string>, currentLine: seq<string>, width: string -> int, maxWidth: int)
    returns (lines': seq<string>)
    requires WellWrapped(width, maxWidth, lines)
    requires GoodCurrent(width, maxWidth, currentLine)
    requires lines != [] ==> width(lines[|lines| - 1] + " " + currentLine[0]) > maxWidth
    ensures lines' == lines + [Join(currentLine)]
    ensures LineWords(lines') == LineWords(lines) + currentLine
    ensures WellWrapped(width, maxWidth, lines')
  {
    lines' := lines + [Join(currentLine)];
    WellWrappedSnoc(lines, currentLine, width, maxWidth);
    LineWordsOfJoin(lines, currentLine);
  }

  lemma LineWordsOfJoin(lines: seq<string>, ws: seq<string>)
    requires forall i :: 0 <= i < |ws| ==> IsWord(ws[i])
    ensures LineWords(lines + [Join(ws)]) == LineWords(lines) + ws
  {
    SplitJoin(ws);
    LineWordsSnoc(lines, Join(ws));
  }

  lemma WellWrappedSnoc(lines: seq<string>, currentLine: seq<string>, width: string -> int, maxWidth: int)
    requires WellWrapped(width, maxWidth, lines)
    requires GoodCurrent(width, maxWidth, currentLine)
    requires lines != [] ==> width(lines[|lines| - 1] + " " + currentLine[0]) > maxWidth
    ensures WellWrapped(width, maxWidth, lines + [Join(currentLine)])
  {
    var line := Join(currentLine);
    SplitJoin(currentLine);
    JoinEnds(currentLine);
    var lines' := lines + [line];
    forall i | 0 <= i < |lines'|
      ensures lines'[i] != [] && lines'[i] == Join(Split(lines'[i])) && Fits(width, maxWidth, lines'[i])
    {
      if i < |lines| {
        assert lines'[i] == lines[i];
      }
    }
    forall i | 0 <= i < |lines'| - 1
      ensures Full(width, maxWidth, lines'[i], lines'[i + 1])
    {
      if i + 1 < |lines| {
        assert lines'[i] == lines[i] && lines'[i + 1] == lines[i + 1];
      } else {
        assert lines'[i] == lines[|lines| - 1] && lines'[i + 1] == line;
      }
    }
  }

  /* ---------- wrap_col (export_views.py:179-186) ---------- */

  /** A table cell: a plain value given as its str(), or a Paragraph made from str() of a cell. */
  datatype Cell = Text(text: string) | Para(of: Cell)

  /** wrap_col: a single column index or a list of them. */
  datatype WrapCol = Single(col: int) | Many(cols: seq<int>)

  /** `wrap_col if isinstance(wrap_col, list) else [wrap_col]`; no columns when wrap_col is None. */
  function Columns(w: Option<WrapCol>): (cols: seq<int>)
    ensures w.Some? && w.value.Single? ==> cols == [w.value.col]
    ensures w.Some? && w.value.Many? ==> cols == w.value.cols
    ensures w.None? ==> cols == []
  {
    match w
    case None => []
    case Some(Single(c)) => [c]
    case Some(Many(cs)) => cs
  }

  /** Python's new_row[col] on a row of n cells names cell j: col counts from the front, or from the back when negative. */
  predicate Names(col: int, n: nat, j: nat) {
    j < n && (col == j || (col < 0 && col + n == j))
  }

  /** How many entries of `cols` name cell j of a row of n cells. */
  function Hits(cols: seq<int>, n: nat, j: nat): nat {
    if cols == [] then 0
    else Hits(cols[..|cols| - 1], n, j) + (if Names(cols[|cols| - 1], n, j) then 1 else 0)
  }

  /** A cell wrapped in k Paragraphs. */
  function WrapTimes(c: Cell, k: nat): Cell {
    if k == 0 then c else Para(WrapTimes(c, k - 1))
  }

  /** new_row[col] raises IndexError: a body row has fewer than -col cells. */
  predicate Raises(data: seq<seq<Cell>>, cols: seq<int>) {
    exists i, k :: 0 < i < |data| && 0 <= k < |cols| && cols[k] < -|data[i]|
  }

  /** A cell is wrapped exactly when some entry of `cols` names it. */
  lemma {:induction false} HitsPositive(cols: seq<int>, n: nat, j: nat)
    ensures Hits(cols, n, j) > 0 <==> exists k :: 0 <= k < |cols| && Names(cols[k], n, j)
  {
    if cols != [] {
      var init := cols[..|cols| - 1];
      HitsPositive(init, n, j);
      if exists k :: 0 <= k < |init| && Names(init[k], n, j) {
        var k :| 0 <= k < |init| && Names(init[k], n, j);
        assert cols[k] == init[k];
      }
      if exists k :: 0 <= k < |cols| && Names(cols[k], n, j) {
        var k :| 0 <= k < |cols| && Names(cols[k], n, j);
        if k < |init| {
          assert init[k] == cols[k];
        }
      }
    }
  }

  /** A single wrap_col c >= 0 makes exactly cell c of each body row long enough to have it a Paragraph. */
  lemma SingleColumnHits(c: nat, n: nat, j: nat)
    ensures Hits([c], n, j) == if j == c && c < n then 1 else 0
  {
    assert [c][..0] == [];
  }

  /** Each cell of `newRow` is the cell of `row` wrapped once per entry of `cols` that names it. */
  predicate RowWrapped(row: seq<Cell>, newRow: seq<Cell>, cols: seq<int>) {
    |newRow| == |row| &&
    forall j :: 0 <= j < |row| ==> newRow[j] == WrapTimes(row[j], Hits(cols, |row|, j))
  }

  /**
   * The inner loop of the preprocessing on one row: a body row has every
   * cell that an entry of `cols` names wrapped, and an entry below
   * -len(row) raises IndexError; the header row is copied unchanged.
   */
  method WrapRow(row: seq<Cell>, cols: seq<int>, body: bool) returns (r: Result<seq<Cell>, string>)
    ensures r.Failure? <==> body && exists k :: 0 <= k < |cols| && cols[k] < -|row|
    ensures r.Failure? ==> r.error == "IndexError"
    ensures r.Success? && body ==> RowWrapped(row, r.value, cols)
    ensures !body ==> r == Success(row)
  {
    var newRow := row;
    for c := 0 to |cols|
      invariant |newRow| == |row|
      invariant body ==> forall k :: 0 <= k < c ==> cols[k] >= -|row|
      invariant forall j :: 0 <= j < |row| ==>
        newRow[j] == WrapTimes(row[j], if body then Hits(cols[..c], |row|, j) else 0)
    {
      var colIdx := cols[c];
      if colIdx < |newRow| && body {
        if colIdx < -|newRow| {
          return Failure("IndexError");
        }
        var j := if colIdx >= 0 then colIdx else colIdx + |newRow|;
        newRow := newRow[j := Para(newRow[j])];
      }
      assert cols[..c + 1][..c] == cols[..c];
    }
    assert cols[..|cols|] == cols;
    if !body {
      assert newRow == row;
    }
    return Success(newRow);
  }

  /**
   * draw_info_table's preprocessing: with wrap_col given, every row but the
   * header has each cell that an entry of wrap_col names replaced by a
   * Paragraph of its text, once per naming entry; entries beyond the end of
   * a row are skipped, and an entry below -len(row) raises IndexError.
   * Without wrap_col the data is used as it is.
   */
  method WrapColumns(data: seq<seq<Cell>>, wrapCol: Option<WrapCol>) returns (r: Result<seq<seq<Cell>>, string>)
    ensures wrapCol.None? ==> r == Success(data)
    ensures r.Failure? <==> Raises(data, Columns(wrapCol))
    ensures r.Failure? ==> r.error == "IndexError"
    ensures r.Success? ==> |r.value| == |data|
    ensures r.Success? && data != [] ==> r.value[0] == data[0]
    ensures r.Success? ==> forall i :: 0 < i < |data| ==>
      |r.value[i]| == |data[i]| &&
      forall j :: 0 <= j < |data[i]| ==> r.value[i][j] == WrapTimes(data[i][j], Hits(Columns(wrapCol), |data[i]|, j))
  {
    if wrapCol.None? {
      return Success(data);
    }
    var cols := Columns(wrapCol);
    var processed: seq<seq<Cell>> := [];
    for i := 0 to |data|
      invariant |processed| == i
      invariant forall t :: 0 < t < i ==> forall k :: 0 <= k < |cols| ==> cols[k] >= -|data[t]|
      invariant i > 0 ==> processed[0] == data[0]
      invariant forall t :: 0 < t < i ==> RowWrapped(data[t], processed[t], cols)
    {
      var newRow := WrapRow(data[i], cols, i > 0);
      if newRow.Failure? {
        return Failure("IndexError");
      }
      processed := processed + [newRow.value];
    }
    return Success(processed);
  }
}
