/** The table layout of `format_output` (luna/utils/helpers.py): a header
    row and content rows of text cells, each cell split into lines at
    '\n', laid out as a column-width list and two grids of lines, one for
    the header and one for the content, with a multi-line cell spread
    over consecutive grid rows. */
module Table {

  function Max(a: int, b: int): int
  {
    if a < b then b else a
  }

  // =======================================================================
  // Splitting a cell into lines

  /** Python's `s.split('\n')`: the pieces between separators, an empty
      piece before a leading, after a trailing and between two adjacent
      separators, so there is always at least one piece. */
  function Split(s: string): (r: seq<string>)
    ensures |r| >= 1
    decreases |s|
  {
    if s == [] then [[]]
    else if s[0] == '\n' then [[]] + Split(s[1..])
    else
      var t := Split(s[1..]);
      [[s[0]] + t[0]] + t[1..]
  }

  /** `'\n'.join(parts)`. */
  function Join(parts: seq<string>): string
    requires |parts| >= 1
    decreases |parts|
  {
    if |parts| == 1 then parts[0] else parts[0] + ("\n" + Join(parts[1..]))
  }

  predicate NoNewline(s: string)
  {
    forall k :: 0 <= k < |s| ==> s[k] != '\n'
  }

  /** Joining the pieces gives the cell back. */
  lemma {:induction false} SplitJoin(s: string)
    ensures Join(Split(s)) == s
    decreases |s|
  {
    if s != [] {
      var rest := s[1..];
      var t := Split(rest);
      SplitJoin(rest);
      if s[0] == '\n' {
        JoinAfterEmpty(t);
        assert s == "\n" + rest;
      } else {
        JoinGlued(s[0], t);
        assert s == [s[0]] + rest;
      }
    }
  }

  /** No piece holds a separator. */
  lemma {:induction false} SplitNoNewline(s: string)
    ensures forall k :: 0 <= k < |Split(s)| ==> NoNewline(Split(s)[k])
    decreases |s|
  {
    if s != [] {
      var rest := s[1..];
      var t := Split(rest);
      SplitNoNewline(rest);
      if s[0] == '\n' {
        assert Split(s)[1..] == t;
      } else {
        var p := Split(s);
        assert p == [[s[0]] + t[0]] + t[1..];
        forall k | 0 <= k < |p|
          ensures NoNewline(p[k])
        {
          if k == 0 {
            assert forall m :: 0 < m < |p[0]| ==> p[0][m] == t[0][m - 1];
          } else {
            assert p[k] == t[k];
          }
        }
      }
    }
  }

  /** A leading empty piece joins as a leading separator. */
  lemma JoinAfterEmpty(t: seq<string>)
    requires |t| >= 1
    ensures Join([[]] + t) == "\n" + Join(t)
  {
    var p: seq<string> := [[]] + t;
    assert p[0] == [] && p[1..] == t;
    assert Join(p) == p[0] + ("\n" + Join(p[1..]));
  }

  /** A character glued to the first piece comes first in the joined
      text. */
  lemma JoinGlued(ch: char, t: seq<string>)
    requires |t| >= 1
    ensures Join([[ch] + t[0]] + t[1..]) == [ch] + Join(t)
  {
    var p := [[ch] + t[0]] + t[1..];
    if |t| > 1 {
      var tail := Join(t[1..]);
      assert Join(p) == ([ch] + t[0]) + ("\n" + tail) by {
        assert p[1..] == t[1..];
      }
      assert Join(t) == t[0] + ("\n" + tail);
      SeqAssoc([ch], t[0], "\n" + tail);
    }
  }

  lemma SeqAssoc(a: string, b: string, c: string)
    ensures (a + b) + c == a + (b + c)
  {
  }

  /** Splitting lines joined with '\n' gives the lines back. */
  lemma {:induction false} JoinSplit(parts: seq<string>)
    requires |parts| >= 1
    requires forall k :: 0 <= k < |parts| ==> NoNewline(parts[k])
    ensures Split(Join(parts)) == parts
    decreases |Join(parts)|
  {
    if parts[0] == [] {
      if |parts| > 1 {
        var rest := Join(parts[1..]);
        assert Join(parts) == "\n" + rest;
        assert (("\n" + rest)[1..]) == rest;
        JoinSplit(parts[1..]);
        assert parts == [[]] + parts[1..];
      }
    } else {
      var s := Join(parts);
      var c := parts[0][0];
      var q := [parts[0][1..]] + parts[1..];
      assert NoNewline(parts[0]);
      assert s[0] == c && c != '\n';
      forall k | 0 <= k < |q|
        ensures NoNewline(q[k])
      {
        if k == 0 {
          assert forall m :: 0 <= m < |q[0]| ==> q[0][m] == parts[0][m + 1];
        } else {
          assert q[k] == parts[k];
        }
      }
      JoinParts(parts, q);
      JoinSplit(q);
      assert parts[0] == [c] + q[0];
      assert q[1..] == parts[1..];
      assert [[c] + q[0]] + q[1..] == parts;
    }
  }

  /** Dropping the first character of the first piece drops the first
      character of the joined text. */
  lemma JoinParts(parts: seq<string>, q: seq<string>)
    requires |parts| >= 1 && parts[0] != []
    requires q == [parts[0][1..]] + parts[1..]
    ensures Join(parts) != [] && Join(parts)[0] == parts[0][0]
    ensures Join(parts)[1..] == Join(q)
  {
    if |parts| > 1 {
      assert q[1..] == parts[1..];
    }
  }

  // =======================================================================
  // Measuring cells

  /** A cell as its lines, and a row as its cells' lines. */
  type Cell = seq<string>
  type Row = seq<Cell>

  /** Every cell of a row split into lines. */
  function SplitRow(cells: seq<string>): (r: Row)
    ensures |r| == |cells|
  {
    if cells == [] then [] else SplitRow(cells[..|cells| - 1]) + [Split(cells[|cells| - 1])]
  }

  /** Every cell of every row split into lines. */
  function SplitRows(content: seq<seq<string>>): (r: seq<Row>)
    ensures |r| == |content|
  {
    if content == [] then [] else SplitRows(content[..|content| - 1]) + [SplitRow(content[|content| - 1])]
  }

  /** Cell `i` of a split row is cell `i` split. */
  lemma {:induction false} SplitRowAt(cells: seq<string>, i: int)
    requires 0 <= i < |cells|
    ensures SplitRow(cells)[i] == Split(cells[i])
    decreases |cells|
  {
    var init := cells[..|cells| - 1];
    if i < |cells| - 1 {
      SplitRowAt(init, i);
      assert init[i] == cells[i];
    }
  }

  /** Row `k` of the split rows is row `k` split. */
  lemma {:induction false} SplitRowsAt(content: seq<seq<string>>, k: int)
    requires 0 <= k < |content|
    ensures SplitRows(content)[k] == SplitRow(content[k])
    decreases |content|
  {
    var init := content[..|content| - 1];
    if k < |content| - 1 {
      SplitRowsAt(init, k);
      assert init[k] == content[k];
    }
  }

  /** The lines of cell `c` of a row, none for a cell past the row's end. */
  function Lines(cells: Row, c: int): seq<string>
  {
    if 0 <= c < |cells| then cells[c] else []
  }

  /** Line `j` of cell `c`, or '' where the cell has no such line. */
  function CellLine(cells: Row, c: int, j: int): string
  {
    if 0 <= j < |Lines(cells, c)| then Lines(cells, c)[j] else ""
  }

  /** The row padded with empty cells to `n` columns. */
  function Padded(cells: Row, n: nat): (r: Row)
    ensures |r| == n
  {
    seq(n, c => Lines(cells, c))
  }

  /** The longest of the first `n` lines, 0 when there are none. */
  function Longest(lines: seq<string>, n: int): nat
    requires 0 <= n <= |lines|
  {
    if n == 0 then 0 else Max(Longest(lines, n - 1), |lines[n - 1]|)
  }

  /** The width cell `c` of a row asks for. */
  function CellWidth(cells: Row, c: int): nat
  {
    var lines := Lines(cells, c);
    Longest(lines, |lines|)
  }

  /** The most lines among the first `n` cells, 0 when there are none. */
  function Tall(cells: Row, n: int): nat
    requires 0 <= n <= |cells|
  {
    if n == 0 then 0 else Max(Tall(cells, n - 1), |cells[n - 1]|)
  }

  /** The number of grid rows a row of cells takes: its tallest cell's
      line count. */
  function Height(cells: Row): nat
  {
    Tall(cells, |cells|)
  }

  /** The column count over the header and the first `n` content rows. */
  function MaxCols(header: seq<string>, content: seq<seq<string>>, n: int): nat
    requires 0 <= n <= |content|
  {
    if n == 0 then |header| else Max(MaxCols(header, content, n - 1), |content[n - 1]|)
  }

  function NumCols(header: seq<string>, content: seq<seq<string>>): nat
  {
    MaxCols(header, content, |content|)
  }

  /** The width of column `c` over the header and the first `n` rows. */
  function ColWidth(header: Row, content: seq<Row>, n: int, c: int): nat
    requires 0 <= n <= |content|
  {
    if n == 0 then CellWidth(header, c)
    else Max(ColWidth(header, content, n - 1, c), CellWidth(content[n - 1], c))
  }

  function Width(header: Row, content: seq<Row>, c: int): nat
  {
    ColWidth(header, content, |content|, c)
  }

  /** The grid row at which content row `r` starts: the heights of the rows
      before it added up. */
  function Offset(content: seq<Row>, r: int): nat
    requires 0 <= r <= |content|
  {
    if r == 0 then 0 else Offset(content, r - 1) + Height(content[r - 1])
  }

  /** What the content grid holds at row `R`, column `c`, once the first
      `n` content rows are placed: the line of the last row starting at or
      above `R`, or ''. */
  function ContentAt(content: seq<Row>, n: int, R: int, c: int): string
    requires 0 <= n <= |content|
  {
    if n == 0 then ""
    else if R >= Offset(content, n - 1) then CellLine(content[n - 1], c, R - Offset(content, n - 1))
    else ContentAt(content, n - 1, R, c)
  }

  // =======================================================================
  // What the measures mean

  /** The column count is the header's length or the longest content row,
      whichever is larger. */
  lemma {:induction false} MaxColsFacts(header: seq<string>, content: seq<seq<string>>, n: int)
    requires 0 <= n <= |content|
    ensures |header| <= MaxCols(header, content, n)
    ensures forall r :: 0 <= r < n ==> |content[r]| <= MaxCols(header, content, n)
    ensures MaxCols(header, content, n) == |header|
      || exists r :: 0 <= r < n && MaxCols(header, content, n) == |content[r]|
  {
    if n > 0 {
      MaxColsFacts(header, content, n - 1);
    }
  }

  lemma NumColsFacts(header: seq<string>, content: seq<seq<string>>)
    ensures |header| <= NumCols(header, content)
    ensures forall r :: 0 <= r < |content| ==> |content[r]| <= NumCols(header, content)
    ensures NumCols(header, content) == |header|
      || exists r :: 0 <= r < |content| && NumCols(header, content) == |content[r]|
  {
    MaxColsFacts(header, content, |content|);
  }

  /** The longest line is at least as long as each line, and is one of them
      unless there are none. */
  lemma {:induction false} LongestFacts(lines: seq<string>, n: int)
    requires 0 <= n <= |lines|
    ensures forall k :: 0 <= k < n ==> |lines[k]| <= Longest(lines, n)
    ensures n == 0 ==> Longest(lines, n) == 0
    ensures n > 0 ==> exists k :: 0 <= k < n && Longest(lines, n) == |lines[k]|
  {
    if n > 0 {
      LongestFacts(lines, n - 1);
    }
  }

  /** The tallest cell's line count bounds every cell's and is one of them,
      0 for a row without cells. */
  lemma {:induction false} TallFacts(cells: Row, n: int)
    requires 0 <= n <= |cells|
    ensures forall c :: 0 <= c < n ==> |cells[c]| <= Tall(cells, n)
    ensures n == 0 ==> Tall(cells, n) == 0
    ensures n > 0 ==> exists c :: 0 <= c < n && Tall(cells, n) == |cells[c]|
  {
    if n > 0 {
      TallFacts(cells, n - 1);
    }
  }

  /** A column is as wide as the wider of its width over the rows before
      and the last row's cell. */
  lemma ColWidthStep(header: Row, content: seq<Row>, n: int, c: int)
    requires 0 < n <= |content|
    ensures ColWidth(header, content, n, c) == Max(ColWidth(header, content, n - 1, c), CellWidth(content[n - 1], c))
  {
  }

  /** The header's cell `c` fits in column `c`. */
  lemma {:induction false} HeaderWithinWidth(header: Row, content: seq<Row>, n: int, c: int)
    requires 0 <= n <= |content|
    ensures CellWidth(header, c) <= ColWidth(header, content, n, c)
  {
    if n > 0 {
      ColWidthStep(header, content, n, c);
      HeaderWithinWidth(header, content, n - 1, c);
    }
  }

  /** Cell `c` of content row `r` fits in column `c`. */
  lemma {:induction false} RowWithinWidth(header: Row, content: seq<Row>, n: int, r: int, c: int)
    requires 0 <= r < n <= |content|
    ensures CellWidth(content[r], c) <= ColWidth(header, content, n, c)
  {
    var m := n - 1;
    ColWidthStep(header, content, n, c);
    if r < m {
      RowWithinWidth(header, content, m, r, c);
    }
  }

  /** No line of a column is longer than the column's width: neither a
      line of the header's cell nor a line of any content row's cell. */
  lemma ColWidthBound(header: Row, content: seq<Row>, c: int)
    ensures forall k :: 0 <= k < |Lines(header, c)| ==> |Lines(header, c)[k]| <= Width(header, content, c)
    ensures forall r, k :: 0 <= r < |content| && 0 <= k < |Lines(content[r], c)| ==>
      |Lines(content[r], c)[k]| <= Width(header, content, c)
  {
    HeaderWithinWidth(header, content, |content|, c);
    CellWidthFacts(header, c);
    forall r | 0 <= r < |content|
      ensures forall k :: 0 <= k < |Lines(content[r], c)| ==> |Lines(content[r], c)[k]| <= Width(header, content, c)
    {
      RowWithinWidth(header, content, |content|, r, c);
      CellWidthFacts(content[r], c);
    }
  }

  /** Some line of the header's cell `c` is `w` long. */
  predicate HeaderLineOfLength(header: Row, c: int, w: int)
  {
    exists k :: 0 <= k < |Lines(header, c)| && |Lines(header, c)[k]| == w
  }

  /** Some line of cell `c` of one of the first `n` content rows is `w`
      long. */
  predicate RowLineOfLength(content: seq<Row>, n: int, c: int, w: int)
    requires 0 <= n <= |content|
  {
    exists r, k :: 0 <= r < n && 0 <= k < |Lines(content[r], c)| && |Lines(content[r], c)[k]| == w
  }

  /** A column's width is 0 or the length of one of its lines. */
  lemma {:induction false} ColWidthAttained(header: Row, content: seq<Row>, n: int, c: int)
    requires 0 <= n <= |content|
    ensures var w := ColWidth(header, content, n, c);
      w == 0 || HeaderLineOfLength(header, c, w) || RowLineOfLength(content, n, c, w)
  {
    var w := ColWidth(header, content, n, c);
    if n == 0 {
      CellWidthFacts(header, c);
    } else if w != 0 {
      var m := n - 1;
      ColWidthStep(header, content, n, c);
      if w == ColWidth(header, content, m, c) {
        ColWidthAttained(header, content, m, c);
        if RowLineOfLength(content, m, c, w) {
          RowLineMore(content, m, c, w);
        }
      } else {
        RowLineLast(content, m, c, w);
      }
    }
  }

  lemma RowLineMore(content: seq<Row>, m: int, c: int, w: int)
    requires 0 <= m < |content| && RowLineOfLength(content, m, c, w)
    ensures RowLineOfLength(content, m + 1, c, w)
  {
    var r, k :| 0 <= r < m && 0 <= k < |Lines(content[r], c)| && |Lines(content[r], c)[k]| == w;
    assert 0 <= r < m + 1;
  }

  lemma RowLineLast(content: seq<Row>, m: int, c: int, w: int)
    requires 0 <= m < |content| && w == CellWidth(content[m], c) && w != 0
    ensures RowLineOfLength(content, m + 1, c, w)
  {
    var cells := content[m];
    CellWidthFacts(cells, c);
    var k :| 0 <= k < |Lines(cells, c)| && |Lines(cells, c)[k]| == w;
    assert 0 <= m < m + 1;
  }

  lemma CellWidthFacts(cells: Row, c: int)
    ensures forall k :: 0 <= k < |Lines(cells, c)| ==> |Lines(cells, c)[k]| <= CellWidth(cells, c)
    ensures CellWidth(cells, c) == 0
      || exists k :: 0 <= k < |Lines(cells, c)| && |Lines(cells, c)[k]| == CellWidth(cells, c)
  {
    var lines := Lines(cells, c);
    LongestFacts(lines, |lines|);
  }

  /** A content row's lines fill grid rows Offset(r) to Offset(r + 1) - 1,
      and later rows start further down. */
  lemma {:induction false} OffsetMono(content: seq<Row>, r: int, s: int)
    requires 0 <= r <= s <= |content|
    ensures Offset(content, r) <= Offset(content, s)
    decreases s
  {
    if r < s {
      OffsetMono(content, r, s - 1);
    }
  }

  /** Once row `r` is placed, line `j` of its cell `c` sits at grid row
      Offset(r) + j. */
  lemma ContentAtOwn(content: seq<Row>, r: int, j: int, c: int)
    requires 0 <= r < |content| && 0 <= j
    ensures ContentAt(content, r + 1, Offset(content, r) + j, c) == CellLine(content[r], c, j)
  {
  }

  /** Placing row `n - 1` leaves the grid above its block as it was. */
  lemma ContentAtEarlier(content: seq<Row>, n: int, R: int, c: int)
    requires 0 < n <= |content| && R < Offset(content, n - 1)
    ensures ContentAt(content, n, R, c) == ContentAt(content, n - 1, R, c)
  {
  }

  /** Line `j` of cell `c` of content row `r` ends up at grid row
      Offset(r) + j, column `c`; a slot of that row's block without a line
      stays ''. */
  lemma {:induction false} ContentAtBlock(content: seq<Row>, n: int, r: int, j: int, c: int)
    requires 0 <= r < n <= |content| && 0 <= j < Height(content[r])
    ensures ContentAt(content, n, Offset(content, r) + j, c) == CellLine(content[r], c, j)
    decreases n
  {
    var m := n - 1;
    if m == r {
      ContentAtOwn(content, r, j, c);
    } else {
      var row := Offset(content, r) + j;
      OffsetMono(content, r + 1, m);
      ContentAtEarlier(content, n, row, c);
      ContentAtBlock(content, m, r, j, c);
    }
  }

  /** Below the last placed row's block the content grid holds ''. */
  lemma {:induction false} ContentAtBeyond(content: seq<Row>, n: int, R: int, c: int)
    requires 0 <= n <= |content| && R >= Offset(content, n)
    ensures ContentAt(content, n, R, c) == ""
  {
    if n > 0 {
      LinesHeight(content[n - 1], c);
    }
  }

  /** Placing row `r` puts its lines in its block and leaves the grid
      above unchanged. */
  lemma ContentAtStep(content: seq<Row>, r: int, R: int, c: int)
    requires 0 <= r < |content|
    ensures ContentAt(content, r + 1, R, c) ==
      if Offset(content, r) <= R < Offset(content, r) + |Lines(content[r], c)|
      then Lines(content[r], c)[R - Offset(content, r)]
      else ContentAt(content, r, R, c)
  {
    var off, lines := Offset(content, r), Lines(content[r], c);
    if R >= off {
      assert ContentAt(content, r + 1, R, c) == CellLine(content[r], c, R - off);
      if R >= off + |lines| {
        ContentAtBeyond(content, r, R, c);
      }
    }
  }

  /** No cell of a row has more lines than the row is tall. */
  lemma LinesHeight(cells: Row, c: int)
    ensures |Lines(cells, c)| <= Height(cells)
  {
    TallFacts(cells, |cells|);
  }

  /** A two-column header whose second cell has two lines, over one
      content row with a single cell. */
  lemma LayoutExample()
    ensures SplitRow(["a", "b\nc"]) == [["a"], ["b", "c"]]
    ensures SplitRows([["xx"]]) == [[["xx"]]]
    ensures NumCols(["a", "b\nc"], [["xx"]]) == 2
    ensures Width([["a"], ["b", "c"]], [[["xx"]]], 0) == 2 && Width([["a"], ["b", "c"]], [[["xx"]]], 1) == 1
    ensures Height([["a"], ["b", "c"]]) == 2 && Offset([[["xx"]]], 1) == 1
    ensures CellLine([["a"], ["b", "c"]], 0, 1) == "" && CellLine([["a"], ["b", "c"]], 1, 1) == "c"
    ensures ContentAt([[["xx"]]], 1, 0, 1) == ""
  {
    SplitExamples();
    var h := SplitRow(["a", "b\nc"]);
    SplitRowAt(["a", "b\nc"], 0);
    SplitRowAt(["a", "b\nc"], 1);
    assert h == [["a"], ["b", "c"]];
    var row := SplitRow(["xx"]);
    SplitRowAt(["xx"], 0);
    assert row == [["xx"]];
    SplitRowsAt([["xx"]], 0);
    assert SplitRows([["xx"]]) == [row];
  }

  /** Splitting the example cells. */
  lemma SplitExamples()
    ensures Split("a") == ["a"] && Split("xx") == ["xx"] && Split("b\nc") == ["b", "c"]
  {
    var e: string := [];
    assert Split(e) == [e];
    SplitCons('c', e);
    assert ['c'] + e == "c";
    SplitCons('x', e);
    assert ['x'] + e == "x";
    SplitCons('x', "x");
    assert ['x'] + "x" == "xx";
    SplitCons('a', e);
    assert ['a'] + e == "a";
    assert ['\n'] + "c" == "\nc";
    assert ("\nc")[1..] == "c";
    assert Split("\nc") == [e, "c"];
    SplitCons('b', "\nc");
    assert ['b'] + "\nc" == "b\nc";
    assert ['b'] + e == "b" && [e, "c"][1..] == ["c"];
  }

  lemma SplitCons(ch: char, rest: string)
    requires ch != '\n'
    ensures Split([ch] + rest) == [[ch] + Split(rest)[0]] + Split(rest)[1..]
  {
    assert ([ch] + rest)[1..] == rest;
  }

  // =======================================================================
  // The layout, step by step

  /** Measures the lines of one cell: widens `lengths[i]` to the cell's
      longest line and raises `tallest` to one more than its line count. */
  method MeasureCell(lengths: array<int>, i: int, lines: seq<string>, tallest: int) returns (t: int)
    requires 0 <= i < lengths.Length && lengths[i] >= 0
    modifies lengths
    ensures lengths[i] == Max(old(lengths[i]), Longest(lines, |lines|))
    ensures forall c :: 0 <= c < lengths.Length && c != i ==> lengths[c] == old(lengths[c])
    ensures t == if lines == [] then tallest else Max(tallest, |lines| + 1)
  {
    var newlines := 1;
    t := tallest;
    for k := 0 to |lines|
      invariant newlines == k + 1
      invariant lengths[i] == Max(old(lengths[i]), Longest(lines, k))
      invariant forall c :: 0 <= c < lengths.Length && c != i ==> lengths[c] == old(lengths[c])
      invariant t == if k == 0 then tallest else Max(tallest, k + 1)
    {
      newlines := newlines + 1;
      if |lines[k]| > lengths[i] {
        lengths[i] := |lines[k]|;
      }
      if newlines > t {
        t := newlines;
      }
    }
  }

  /** Splits every cell of a row into lines, padded with empty cells to
      the column count, widening each column to the row's lines; returns
      one more than the row's height. */
  method MeasureRow(lengths: array<int>, cells: seq<string>) returns (tmp: Row, tallest: int)
    requires |cells| <= lengths.Length
    requires forall c :: 0 <= c < lengths.Length ==> lengths[c] >= 0
    modifies lengths
    ensures tmp == Padded(SplitRow(cells), lengths.Length)
    ensures tallest == Height(SplitRow(cells)) + 1
    ensures forall c :: 0 <= c < lengths.Length ==>
      lengths[c] == if c < |cells| then Max(old(lengths[c]), CellWidth(SplitRow(cells), c)) else old(lengths[c])
  {
    ghost var row := SplitRow(cells);
    tmp := seq(lengths.Length, _ => []);
    tallest := 1;
    for i := 0 to |cells|
      invariant |tmp| == lengths.Length
      invariant forall c :: 0 <= c < |tmp| ==> tmp[c] == if c < i then Lines(row, c) else []
      invariant tallest == Tall(row, i) + 1
      invariant forall c :: 0 <= c < lengths.Length ==>
        lengths[c] == if c < i then Max(old(lengths[c]), CellWidth(row, c)) else old(lengths[c])
    {
      var lines := Split(cells[i]);
      SplitRowAt(cells, i);
      tmp := tmp[i := lines];
      tallest := MeasureCell(lengths, i, lines, tallest);
    }
  }

  /** Writes line `j` of column `c` of `tmp` to grid row `off + j`, column
      `c`, and nothing else. */
  method PlaceBlock(grid: array2<string>, off: int, tmp: Row)
    requires 0 <= off && |tmp| == grid.Length1
    requires forall c :: 0 <= c < |tmp| ==> off + |tmp[c]| <= grid.Length0
    modifies grid
    ensures forall R, c :: 0 <= R < grid.Length0 && 0 <= c < grid.Length1 ==>
      grid[R, c] == if off <= R < off + |tmp[c]| then tmp[c][R - off] else old(grid[R, c])
  {
    for i := 0 to grid.Length1
      invariant forall R, c :: 0 <= R < grid.Length0 && 0 <= c < grid.Length1 ==>
        grid[R, c] == if c < i && off <= R < off + |tmp[c]| then tmp[c][R - off] else old(grid[R, c])
    {
      for j := 0 to |tmp[i]|
        invariant forall R, c :: 0 <= R < grid.Length0 && 0 <= c < grid.Length1 ==>
          grid[R, c] == if (c < i || (c == i && R < off + j)) && off <= R < off + |tmp[c]|
            then tmp[c][R - off] else old(grid[R, c])
      {
        grid[off + j, i] := tmp[i][j];
      }
    }
  }

  /** Counts the content rows and the columns: the header's length or
      the longest content row, whichever is larger. */
  method CountColumns(header: seq<string>, content: seq<seq<string>>) returns (numCol: int, lenContent: int)
    ensures numCol == NumCols(header, content) && lenContent == |content|
  {
    numCol := |header|;
    lenContent := 0;
    for r := 0 to |content|
      invariant numCol == MaxCols(header, content, r)
      invariant lenContent == r
    {
      lenContent := lenContent + 1;
      if |content[r]| > numCol {
        numCol := |content[r]|;
      }
    }
  }

  /** The first `n` rows, each padded to `width` columns. */
  function PaddedRows(rows: seq<Row>, n: int, width: nat): (r: seq<Row>)
    requires 0 <= n <= |rows|
    ensures |r| == n
  {
    if n == 0 then [] else PaddedRows(rows, n - 1, width) + [Padded(rows[n - 1], width)]
  }

  /** One more than the height of each of the first `n` rows. */
  function Heights(rows: seq<Row>, n: int): (r: seq<int>)
    requires 0 <= n <= |rows|
    ensures |r| == n
  {
    if n == 0 then [] else Heights(rows, n - 1) + [Height(rows[n - 1]) + 1]
  }

  lemma {:induction false} PaddedRowsAt(rows: seq<Row>, n: int, width: nat, k: int)
    requires 0 <= k < n <= |rows|
    ensures PaddedRows(rows, n, width)[k] == Padded(rows[k], width)
  {
    if k < n - 1 {
      PaddedRowsAt(rows, n - 1, width, k);
    }
  }

  lemma {:induction false} HeightsAt(rows: seq<Row>, n: int, k: int)
    requires 0 <= k < n <= |rows|
    ensures Heights(rows, n)[k] == Height(rows[k]) + 1
  {
    if k < n - 1 {
      HeightsAt(rows, n - 1, k);
    }
  }

  /** Splits and measures every content row in turn, after the header has
      been measured into `lengths`. */
  method MeasureContent(lengths: array<int>, header: seq<string>, content: seq<seq<string>>)
    returns (contentTmp: seq<Row>, contentNewlines: seq<int>, total: int)
    requires lengths.Length == NumCols(header, content)
    requires forall c :: 0 <= c < lengths.Length ==> lengths[c] == ColWidth(SplitRow(header), SplitRows(content), 0, c)
    modifies lengths
    ensures contentTmp == PaddedRows(SplitRows(content), |content|, lengths.Length)
    ensures contentNewlines == Heights(SplitRows(content), |content|)
    ensures total == Offset(SplitRows(content), |content|) + 1
    ensures forall c :: 0 <= c < lengths.Length ==> lengths[c] == Width(SplitRow(header), SplitRows(content), c)
  {
    ghost var head, rows := SplitRow(header), SplitRows(content);
    NumColsFacts(header, content);
    contentTmp := [];
    contentNewlines := [];
    var contentLine := 0;
    total := 1;
    for r := 0 to |content|
      invariant contentLine == r
      invariant contentTmp == PaddedRows(rows, r, lengths.Length)
      invariant contentNewlines == Heights(rows, r)
      invariant total == Offset(rows, r) + 1
      invariant forall c :: 0 <= c < lengths.Length ==> lengths[c] == ColWidth(head, rows, r, c)
    {
      var tmp, newlines := MeasureRow(lengths, content[r]);
      SplitRowsAt(content, r);
      forall c | 0 <= c < lengths.Length
        ensures lengths[c] == ColWidth(head, rows, r + 1, c)
      {
        ColWidthStep(head, rows, r + 1, c);
      }
      contentTmp := contentTmp + [tmp];
      contentNewlines := contentNewlines + [newlines];
      total := total + newlines - 1;
      contentLine := contentLine + 1;
    }
  }

  /** Each content row's block lies inside the content grid. */
  lemma BlockFits(content: seq<Row>, r: int, c: int)
    requires 0 <= r < |content|
    ensures Offset(content, r) + |Lines(content[r], c)| <= Offset(content, |content|)
  {
    LinesHeight(content[r], c);
    OffsetMono(content, r + 1, |content|);
  }

  /** Writes every content row's lines into its block of the grid, the
      blocks one under the other. */
  method PlaceContent(contentArray: array2<string>, ghost content: seq<Row>,
                      contentTmp: seq<Row>, contentNewlines: seq<int>)
    requires contentTmp == PaddedRows(content, |content|, contentArray.Length1)
    requires contentNewlines == Heights(content, |content|)
    requires contentArray.Length0 == Offset(content, |content|)
    requires forall R, c :: 0 <= R < contentArray.Length0 && 0 <= c < contentArray.Length1 ==> contentArray[R, c] == ""
    modifies contentArray
    ensures forall R, c :: 0 <= R < contentArray.Length0 && 0 <= c < contentArray.Length1 ==>
      contentArray[R, c] == ContentAt(content, |content|, R, c)
  {
    var relativePointer := 0;
    for r := 0 to |contentTmp|
      invariant relativePointer == Offset(content, r)
      invariant forall R, c :: 0 <= R < contentArray.Length0 && 0 <= c < contentArray.Length1 ==>
        contentArray[R, c] == ContentAt(content, r, R, c)
    {
      PaddedRowsAt(content, |content|, contentArray.Length1, r);
      HeightsAt(content, |content|, r);
      forall c | 0 <= c < contentArray.Length1
        ensures relativePointer + |contentTmp[r][c]| <= contentArray.Length0
      {
        BlockFits(content, r, c);
      }
      PlaceBlock(contentArray, relativePointer, contentTmp[r]);
      forall R, c | 0 <= R < contentArray.Length0 && 0 <= c < contentArray.Length1
        ensures contentArray[R, c] == ContentAt(content, r + 1, R, c)
      {
        ContentAtStep(content, r, R, c);
      }
      relativePointer := relativePointer + contentNewlines[r] - 1;
    }
  }

  /** Allocates the header grid, one row per line of the header's
      tallest cell, and writes the header's lines into it. */
  method HeaderGrid(ghost header: Row, numCol: nat, headerTmp: Row, headerNewlines: int)
    returns (headerArray: array2<string>)
    requires headerTmp == Padded(header, numCol) && headerNewlines == Height(header) + 1
    ensures fresh(headerArray)
    ensures headerArray.Length0 == Height(header) && headerArray.Length1 == numCol
    ensures forall j, c :: 0 <= j < headerArray.Length0 && 0 <= c < headerArray.Length1 ==>
      headerArray[j, c] == CellLine(header, c, j)
  {
    headerArray := new string[headerNewlines - 1, numCol]((_, _) => "");
    forall c | 0 <= c < numCol
      ensures |headerTmp[c]| <= headerArray.Length0
    {
      LinesHeight(header, c);
    }
    PlaceBlock(headerArray, 0, headerTmp);
  }

  /** `format_output`: the width of every column, the header grid and the
      content grid, one grid row per line of the tallest cell of each
      row. */
  method FormatOutput(header: seq<string>, content: seq<seq<string>>)
    returns (lengths: array<int>, headerArray: array2<string>, contentArray: array2<string>)
    ensures fresh(lengths) && fresh(headerArray) && fresh(contentArray)
    ensures lengths.Length == NumCols(header, content)
    ensures forall c :: 0 <= c < lengths.Length ==> lengths[c] == Width(SplitRow(header), SplitRows(content), c)
    ensures headerArray.Length0 == Height(SplitRow(header))
    ensures headerArray.Length1 == NumCols(header, content)
    ensures forall j, c :: 0 <= j < headerArray.Length0 && 0 <= c < headerArray.Length1 ==>
      headerArray[j, c] == CellLine(SplitRow(header), c, j)
    ensures contentArray.Length0 == Offset(SplitRows(content), |content|)
    ensures contentArray.Length1 == NumCols(header, content)
    ensures forall R, c :: 0 <= R < contentArray.Length0 && 0 <= c < contentArray.Length1 ==>
      contentArray[R, c] == ContentAt(SplitRows(content), |content|, R, c)
  {
    var numCol, lenContent := CountColumns(header, content);
    NumColsFacts(header, content);
    lengths := new int[numCol](_ => 0);
    var headerTmp, headerNewlines := MeasureRow(lengths, header);
    var contentTmp, contentNewlines, total := MeasureContent(lengths, header, content);

    headerArray := HeaderGrid(SplitRow(header), numCol, headerTmp, headerNewlines);
    contentArray := new string[total - 1, numCol]((_, _) => "");
    PlaceContent(contentArray, SplitRows(content), contentTmp, contentNewlines);
  }
}
