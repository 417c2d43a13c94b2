/**
  The attendance counter of the answer router: for a counting question about
  attendance statuses, find the status column of a text table, tally the
  statuses below the header and format a summary of the asked categories.

  Cells are found with the regular expression `\s{2,}|\t`: a run of two or
  more whitespace characters, or a single tab, separates two cells.
 */
module Attendance {
  import opened Wrappers
  import opened Text

  // ---------------------------------------------------------------- cells of a line

  /** Number of whitespace characters at the front of `s`. */
  function SpaceRun(s: string): (n: nat)
    ensures n <= |s|
    ensures forall k :: 0 <= k < n ==> IsSpace(s[k])
    ensures n < |s| ==> !IsSpace(s[n])
  {
    if |s| == 0 || !IsSpace(s[0]) then 0 else 1 + SpaceRun(s[1..])
  }

  /** Length of the separator the pattern matches at the front of `s`, or 0
      when it matches nothing there. The first alternative is greedy, so a
      run of two or more whitespace characters is taken whole. */
  function SepLength(s: string): (n: nat)
    requires |s| > 0
    ensures n <= |s|
    ensures forall k :: 0 <= k < n ==> IsSpace(s[k])
    ensures n > 0 ==> n == |s| || !IsSpace(s[n])
    ensures n == 0 <==> !IsSpace(s[0]) || (s[0] != '\t' && (|s| == 1 || !IsSpace(s[1])))
  {
    var run := SpaceRun(s);
    if run >= 2 then run
    else if s[0] == '\t' then 1
    else 0
  }

  /** A cell as the splitter leaves it: no tab, and no two whitespace
      characters in a row. */
  predicate SingleSpaced(c: string) {
    && (forall i :: 0 <= i < |c| ==> c[i] != '\t')
    && (forall i :: 0 <= i < |c| - 1 ==> !(IsSpace(c[i]) && IsSpace(c[i + 1])))
  }

  /** The split of a line at every separator: the pieces between separators, including
      an empty piece before a leading or after a trailing separator. */
  function Cells(s: string): (r: seq<string>)
    ensures |r| >= 1
    decreases |s|
  {
    if |s| == 0 then [""]
    else
      var n := SepLength(s);
      if n > 0 then [""] + Cells(s[n..])
      else
        var rest := Cells(s[1..]);
        [[s[0]] + rest[0]] + rest[1..]
  }

  /** No separator starts anywhere in `s`. */
  predicate NoSeparator(s: string) {
    forall k :: 0 <= k < |s| ==> SepLength(s[k..]) == 0
  }

  /** A line without a separator is a single cell: the line itself. */
  lemma {:induction false} CellsWithoutSeparator(s: string)
    requires NoSeparator(s)
    ensures Cells(s) == [s]
    decreases |s|
  {
    if |s| > 0 {
      assert SepLength(s[0..]) == 0 && s[0..] == s;
      forall k | 0 <= k < |s[1..]| ensures SepLength(s[1..][k..]) == 0 {
        assert s[1..][k..] == s[k + 1..];
      }
      CellsWithoutSeparator(s[1..]);
      assert [s[0]] + s[1..] == s;
    }
  }

  /** A piece of text that does not start with a separator starts the first
      cell. */
  lemma {:induction false} CellsFirst(s: string)
    requires |s| > 0 && SepLength(s) == 0
    ensures |Cells(s)[0]| > 0 && Cells(s)[0][0] == s[0]
  {
  }

  /** Every cell of a split is single-spaced. */
  predicate AllSingleSpaced(cells: seq<string>) {
    forall k :: 0 <= k < |cells| ==> SingleSpaced(cells[k])
  }

  /** Every separator is consumed whole: no cell keeps a tab or two
      whitespace characters in a row. */
  lemma {:induction false} CellsSingleSpaced(s: string)
    ensures forall k :: 0 <= k < |Cells(s)| ==> SingleSpaced(Cells(s)[k])
    decreases |s|
  {
    if |s| > 0 {
      var n := SepLength(s);
      if n > 0 {
        CellsSingleSpaced(s[n..]);
        PrependEmptyCell(Cells(s[n..]));
      } else {
        CellsSingleSpaced(s[1..]);
        if |s| > 1 && IsSpace(s[0]) {
          CellsFirst(s[1..]);
        }
        ExtendFirstCell(s[0], Cells(s[1..]));
      }
    }
  }

  /** A separator in front adds an empty cell, which is single-spaced. */
  lemma PrependEmptyCell(rest: seq<string>)
    requires AllSingleSpaced(rest)
    ensures AllSingleSpaced([""] + rest)
  {
    var r := [""] + rest;
    forall k | 0 <= k < |r| ensures SingleSpaced(r[k]) {
      if k > 0 {
        assert r[k] == rest[k - 1];
      }
    }
  }

  /** A character that is not a separator in front extends the first cell. */
  lemma ExtendFirstCell(x: char, rest: seq<string>)
    requires |rest| >= 1 && AllSingleSpaced(rest) && x != '\t'
    requires IsSpace(x) && |rest[0]| > 0 ==> !IsSpace(rest[0][0])
    ensures AllSingleSpaced([[x] + rest[0]] + rest[1..])
  {
    ConsSingleSpaced(x, rest[0]);
    var r := [[x] + rest[0]] + rest[1..];
    forall k | 0 <= k < |r| ensures SingleSpaced(r[k]) {
      if k > 0 {
        assert r[k] == rest[k];
      }
    }
  }

  /** A character that is not a tab, in front of a single-spaced cell that
      does not start with whitespace after it, keeps the cell single-spaced. */
  lemma ConsSingleSpaced(x: char, cell: string)
    requires x != '\t' && SingleSpaced(cell)
    requires IsSpace(x) && |cell| > 0 ==> !IsSpace(cell[0])
    ensures SingleSpaced([x] + cell)
  {
    var c := [x] + cell;
    forall i | 0 <= i < |c| - 1 ensures !(IsSpace(c[i]) && IsSpace(c[i + 1])) {
      if i > 0 {
        assert c[i] == cell[i - 1] && c[i + 1] == cell[i];
      }
    }
  }

  /** A cell that can be written between tabs and read back: not empty, not
      starting or ending with whitespace, single-spaced. */
  predicate CleanCell(c: string) {
    |c| > 0 && !IsSpace(c[0]) && CleanTail(c)
  }

  /** The end of a clean cell: not empty, single-spaced, not ending with
      whitespace (it may start with one space). */
  predicate CleanTail(c: string) {
    |c| > 0 && !IsSpace(c[|c| - 1]) && SingleSpaced(c)
  }

  /** Text that follows a cell: nothing, or a separator. */
  predicate SepOrEnd(t: string) {
    |t| == 0 || SepLength(t) > 0
  }

  /** A clean cell tail glued in front of `t` extends the first piece of `t`. */
  lemma {:induction false} CellsOfTail(c: string, t: string)
    requires CleanTail(c)
    ensures Cells(c + t) == [c + Cells(t)[0]] + Cells(t)[1..]
    decreases |c|
  {
    var s := c + t;
    NoSeparatorAtCellHead(c, t);
    if |c| == 1 {
      assert s[1..] == t;
      assert c == [s[0]];
    } else {
      var c' := c[1..];
      assert s[1..] == c' + t;
      CleanTailOfTail(c);
      CellsOfTail(c', t);
      assert [c[0]] + (c' + Cells(t)[0]) == c + Cells(t)[0];
    }
  }

  /** A clean cell tail does not start with a separator, whatever follows. */
  lemma NoSeparatorAtCellHead(c: string, t: string)
    requires CleanTail(c)
    ensures |c + t| > 0 && (c + t)[0] == c[0] && SepLength(c + t) == 0
  {
    var s := c + t;
    assert s[0] == c[0];
    if |c| > 1 {
      assert s[1] == c[1];
    }
  }

  /** Dropping the first character of a clean tail of two or more characters
      leaves a clean tail. */
  lemma CleanTailOfTail(c: string)
    requires CleanTail(c) && |c| > 1
    ensures CleanTail(c[1..])
  {
    var c' := c[1..];
    forall i | 0 <= i < |c'| - 1 ensures !(IsSpace(c'[i]) && IsSpace(c'[i + 1])) {
      assert c'[i] == c[i + 1] && c'[i + 1] == c[i + 2];
    }
  }

  /** The cells of a row written with a tab between neighbours. */
  function JoinTabs(cells: seq<string>): string {
    JoinWith("\t", cells)
  }

  /** Splitting a tab-joined row of clean cells gives the cells back. */
  lemma {:induction false} CellsOfJoinTabs(cells: seq<string>)
    requires |cells| >= 1
    requires forall k :: 0 <= k < |cells| ==> CleanCell(cells[k])
    ensures Cells(JoinTabs(cells)) == cells
    decreases |cells|
  {
    var c := cells[0];
    if |cells| == 1 {
      CellsOfTail(c, "");
      assert c + "" == c;
    } else {
      var rest := JoinTabs(cells[1..]);
      CellsOfJoinTabs(cells[1..]);
      JoinStartsWithFirst(cells);
      JoinStartsWithFirst(cells[1..]);
      CellsAfterTab(rest);
      CellsOfTail(c, "\t" + rest);
      assert c + "" == c;
      assert cells == [c] + cells[1..];
    }
  }

  /** A tab followed by a cell ends the cell before it. */
  lemma CellsAfterTab(rest: string)
    requires |rest| > 0 && !IsSpace(rest[0])
    ensures Cells("\t" + rest) == [""] + Cells(rest)
  {
    var t := "\t" + rest;
    assert SepLength(t) == 1;
    assert t[1..] == rest;
  }

  lemma JoinStartsWithFirst(cells: seq<string>)
    requires |cells| >= 1 && |cells[0]| > 0
    ensures |JoinTabs(cells)| > 0 && JoinTabs(cells)[0] == cells[0][0]
    ensures |cells| > 1 ==> JoinTabs(cells) == cells[0] + ("\t" + JoinTabs(cells[1..]))
  {
  }

  // ---------------------------------------------------------------- header detection

  /** How many of the non-blank lines are searched for a header. */
  const HeaderScan: nat := 15

  const HeaderKeywords: seq<string> :=
    ["status", "attendance", "remark", "sts", "att", "day", "present", "absent"]

  /** A header cell: its lower-cased text contains a header keyword. */
  predicate IsHeaderCell(cell: string) {
    ContainsAny(Lower(cell), HeaderKeywords)
  }

  /** Position of the first header cell of a row. */
  function HeaderCol(cells: seq<string>): (r: Option<nat>)
    ensures r.Some? ==> r.value < |cells| && IsHeaderCell(cells[r.value])
    ensures r.Some? ==> forall j :: 0 <= j < r.value ==> !IsHeaderCell(cells[j])
    ensures r.None? <==> forall j :: 0 <= j < |cells| ==> !IsHeaderCell(cells[j])
  {
    if |cells| == 0 then None
    else if IsHeaderCell(cells[0]) then Some(0)
    else
      match HeaderCol(cells[1..])
      case None => None
      case Some(j) => Some(j + 1)
  }

  /** Where the header was found: its line and its status column. */
  datatype Header = Header(row: nat, col: nat)

  /** The lines of the table, each split into its cells. */
  function Rows(lines: seq<string>): (rows: seq<seq<string>>)
    ensures |rows| == |lines|
    ensures forall i :: 0 <= i < |lines| ==> rows[i] == Cells(lines[i]) && |rows[i]| >= 1
  {
    seq(|lines|, i requires 0 <= i < |lines| => Cells(lines[i]))
  }

  /** The first header cell of every row. */
  function HeaderCols(rows: seq<seq<string>>): (cols: seq<Option<nat>>)
    ensures |cols| == |rows|
    ensures forall i :: 0 <= i < |rows| ==> cols[i] == HeaderCol(rows[i])
  {
    seq(|rows|, i requires 0 <= i < |rows| => HeaderCol(rows[i]))
  }

  /** The first row, in order, that has a header cell, given each row's
      first header cell. */
  function FirstHeader(cols: seq<Option<nat>>): (r: Option<Header>)
    ensures r.Some? ==> r.value.row < |cols| && cols[r.value.row] == Some(r.value.col)
    ensures r.Some? ==> forall i :: 0 <= i < r.value.row ==> cols[i].None?
    ensures r.None? <==> forall i :: 0 <= i < |cols| ==> cols[i].None?
  {
    if |cols| == 0 then None
    else
      match cols[0]
      case Some(j) => Some(Header(0, j))
      case None =>
        match FirstHeader(cols[1..])
        case None => None
        case Some(h) =>
          assert forall i :: 1 <= i <= h.row ==> cols[i] == cols[1..][i - 1];
          Some(Header(h.row + 1, h.col))
  }

  /** The header search of the counter: the first 15 rows only. */
  function FindHeader(rows: seq<seq<string>>): (r: Option<Header>)
    ensures r.Some? ==> r.value.row < HeaderScan && r.value.row < |rows|
  {
    var cols := HeaderCols(rows);
    FirstHeader(if |cols| <= HeaderScan then cols else cols[..HeaderScan])
  }

  /** The header is the first header cell of the first of the first 15 rows
      that has one; there is none exactly when none of those rows has a
      header cell. */
  lemma FindHeaderIsFirst(rows: seq<seq<string>>)
    ensures var r := FindHeader(rows);
            r.Some? ==> HeaderCol(rows[r.value.row]) == Some(r.value.col)
                        && forall i :: 0 <= i < r.value.row ==> HeaderCol(rows[i]).None?
    ensures FindHeader(rows).None? <==> forall i :: 0 <= i < |rows| && i < HeaderScan ==> HeaderCol(rows[i]).None?
  {
    var cols := HeaderCols(rows);
    var scanned := if |cols| <= HeaderScan then cols else cols[..HeaderScan];
    assert forall i :: 0 <= i < |scanned| ==> scanned[i] == cols[i];
  }

  /** The status column: the header's, or -1 (the last cell) when no header
      was found. */
  function StatusCol(h: Option<Header>): (col: int)
    ensures col >= -1
    ensures col == -1 <==> h.None?
    ensures h.Some? ==> col == h.value.col
  {
    match h
    case None => -1
    case Some(hd) => hd.col
  }

  /** Where counting starts: the line after the header, or the first line. */
  function StartRow(h: Option<Header>): (start: nat)
    ensures h.None? <==> start == 0
    ensures h.Some? ==> start == h.value.row + 1
  {
    match h
    case None => 0
    case Some(hd) => hd.row + 1
  }

  // ---------------------------------------------------------------- status normalisation

  datatype Category = Present | Absent | Holiday | Leave

  /** The lookup in the status table: a key is found only when its first
      letter already names its category. */
  function StatusMap(s: string): (r: Option<Category>)
    ensures r.Some? ==> |s| > 0 && LetterCategory(s[0]) == r
  {
    if s == "p" || s == "present" || s == "pres" then Some(Present)
    else if s == "a" || s == "absent" then Some(Absent)
    else if s == "h" || s == "holiday" then Some(Holiday)
    else if s == "l" || s == "leave" then Some(Leave)
    else None
  }

  /** The category a single letter stands for. */
  function LetterCategory(c: char): Option<Category> {
    if c == 'p' then Some(Present)
    else if c == 'a' then Some(Absent)
    else if c == 'h' then Some(Holiday)
    else if c == 'l' then Some(Leave)
    else None
  }

  /** The full-word lookup, falling back to the lookup of the first letter.
      Every full-word key starts with its category's letter, so the
      full-word lookup never decides anything the first-letter lookup would
      not: a status normalises exactly by its first character. */
  function Normalize(status: string): (r: Option<Category>)
    ensures r == if status == "" then None else LetterCategory(status[0])
  {
    match StatusMap(status)
    case Some(c) => Some(c)
    case None =>
      if status == "" then StatusMap("")
      else
        assert StatusMap([status[0]]) == LetterCategory(status[0]);
        StatusMap([status[0]])
  }

  /** The status cell of a row for column `col`: Python's `cells[col]`, where
      the column -1 stands for the last cell; nothing when the row is too
      short. */
  function StatusCell(cells: seq<string>, col: int): (r: Option<string>)
    requires |cells| >= 1 && col >= -1
    ensures r.Some? <==> col < |cells|
    ensures col == -1 ==> r == Some(cells[|cells| - 1])
    ensures 0 <= col < |cells| ==> r == Some(cells[col])
  {
    if col < |cells| then Some(if col == -1 then cells[|cells| - 1] else cells[col])
    else None
  }

  /** The category a row counts towards, if any: none when the row is too
      short for the column, otherwise the category named by the first
      non-whitespace character of the status cell, in either case. */
  function StatusOf(cells: seq<string>, col: int): (r: Option<Category>)
    requires |cells| >= 1 && col >= -1
    ensures col >= |cells| ==> r == None
    ensures col < |cells| ==>
              var lead := TrimLeft(cells[if col == -1 then |cells| - 1 else col]);
              r == if lead == "" then None else LetterCategory(LowerChar(lead[0]))
  {
    match StatusCell(cells, col)
    case None => None
    case Some(cell) =>
      StripStartsAtFirstNonSpace(cell);
      Normalize(Lower(Strip(cell)))
  }

  /** The status of every row, for column `col`. */
  function Statuses(rows: seq<seq<string>>, col: int): (r: seq<Option<Category>>)
    requires col >= -1
    requires forall i :: 0 <= i < |rows| ==> |rows[i]| >= 1
    ensures |r| == |rows|
    ensures forall i :: 0 <= i < |rows| ==> r[i] == StatusOf(rows[i], col)
  {
    seq(|rows|, i requires 0 <= i < |rows| => StatusOf(rows[i], col))
  }

  // ---------------------------------------------------------------- tally

  datatype Tally = Tally(present: nat, absent: nat, holiday: nat, leave: nat) {
    /** The number of lines counted at all. */
    function Total(): nat {
      Get(Present) + Get(Absent) + Get(Holiday) + Get(Leave)
    }

    function Get(c: Category): nat {
      match c
      case Present => present
      case Absent => absent
      case Holiday => holiday
      case Leave => leave
    }

    /** One more line of category `c`. */
    function Bump(c: Category): (t: Tally)
      ensures t.Get(c) == Get(c) + 1
      ensures forall d :: d != c ==> t.Get(d) == Get(d)
    {
      match c
      case Present => this.(present := present + 1)
      case Absent => this.(absent := absent + 1)
      case Holiday => this.(holiday := holiday + 1)
      case Leave => this.(leave := leave + 1)
    }
  }

  const NoCounts := Tally(0, 0, 0, 0)

  /** Reference count: how many of the statuses are `c`. */
  function Count(statuses: seq<Option<Category>>, c: Category): (n: nat)
    ensures n <= |statuses|
  {
    if |statuses| == 0 then 0
    else (if statuses[0] == Some(c) then 1 else 0) + Count(statuses[1..], c)
  }

  lemma {:induction false} CountAppend(statuses: seq<Option<Category>>, s: Option<Category>, c: Category)
    ensures Count(statuses + [s], c) == Count(statuses, c) + (if s == Some(c) then 1 else 0)
    decreases |statuses|
  {
    if |statuses| > 0 {
      assert (statuses + [s])[1..] == statuses[1..] + [s];
      CountAppend(statuses[1..], s, c);
    } else {
      assert (statuses + [s])[1..] == [];
    }
  }

  /** A line counts towards at most one category, so the four counts add up
      to at most the number of lines, and to all of them exactly when every
      line has a status. */
  lemma {:induction false} CountsTotal(statuses: seq<Option<Category>>)
    ensures var n := Count(statuses, Present) + Count(statuses, Absent) + Count(statuses, Holiday) + Count(statuses, Leave);
            n <= |statuses| && (n == |statuses| <==> forall i :: 0 <= i < |statuses| ==> statuses[i].Some?)
    decreases |statuses|
  {
    if |statuses| > 0 {
      var rest := statuses[1..];
      CountsTotal(rest);
      assert forall i :: 1 <= i < |statuses| ==> statuses[i] == rest[i - 1];
      forall c ensures Count(statuses, c) == (if statuses[0] == Some(c) then 1 else 0) + Count(rest, c) {
      }
      if forall i :: 0 <= i < |statuses| ==> statuses[i].Some? {
        assert forall i :: 0 <= i < |rest| ==> rest[i] == statuses[i + 1];
        match statuses[0]
        case Some(c) => assert c == Present || c == Absent || c == Holiday || c == Leave;
      }
    }
  }

  /** The counting loop over the rows below the header: afterwards each
      category's count is the number of rows whose status is that category. */
  function TallyOf(statuses: seq<Option<Category>>): (t: Tally)
    ensures forall c :: t.Get(c) == Count(statuses, c)
  {
    if |statuses| == 0 then NoCounts
    else
      var t := TallyOf(statuses[1..]);
      match statuses[0]
      case None => t
      case Some(c) => t.Bump(c)
  }

  // ---------------------------------------------------------------- summary

  const CountKeywords: seq<string> := ["count", "number", "how many", "total"]
  const StatusIndicators: seq<string> := ["present", "absent", "holiday", "leave", "p", "a", "h", "l"]

  /** The category an indicator names. */
  function IndicatorCategory(ind: string): Category {
    if ind == "present" || ind == "p" then Present
    else if ind == "absent" || ind == "a" then Absent
    else if ind == "holiday" || ind == "h" then Holiday
    else Leave
  }

  function CategoryName(c: Category): string {
    match c
    case Present => "Present"
    case Absent => "Absent"
    case Holiday => "Holiday"
    case Leave => "Leave"
  }

  /** The indicators of `inds` that occur in the query, in the order of
      `inds`. */
  function AskedAmong(query: string, inds: seq<string>): (r: seq<string>)
    ensures |r| <= |inds|
    ensures forall k :: 0 <= k < |r| ==> Contains(query, r[k]) && r[k] in inds
    ensures forall ind :: ind in inds && Contains(query, ind) ==> ind in r
  {
    if |inds| == 0 then []
    else (if Contains(query, inds[0]) then [inds[0]] else []) + AskedAmong(query, inds[1..])
  }

  /** Filtering distributes over concatenation: the indicators asked among
      `a + b` are those asked among `a`, then those asked among `b`. */
  lemma {:induction false} AskedAmongAppend(query: string, a: seq<string>, b: seq<string>)
    ensures AskedAmong(query, a + b) == AskedAmong(query, a) + AskedAmong(query, b)
    decreases |a|
  {
    if |a| > 0 {
      assert (a + b)[1..] == a[1..] + b;
      AskedAmongAppend(query, a[1..], b);
    } else {
      assert a + b == b;
    }
  }

  /** The asked indicators keep the order of the list: a mentioned
      indicator at position `j` comes right after the ones asked before it. */
  lemma AskedInListOrder(query: string, inds: seq<string>, j: nat)
    requires j < |inds| && Contains(query, inds[j])
    ensures |AskedAmong(query, inds[..j])| < |AskedAmong(query, inds)|
    ensures AskedAmong(query, inds)[|AskedAmong(query, inds[..j])|] == inds[j]
  {
    assert inds == inds[..j] + inds[j..];
    AskedAmongAppend(query, inds[..j], inds[j..]);
    assert inds[j..][0] == inds[j];
  }

  /** The status indicators the query mentions, as substrings. */
  function Asked(query: string): seq<string> {
    AskedAmong(query, StatusIndicators)
  }

  /** The summary line of a category: its name in bold, a colon and its
      count. */
  function SummaryLine(c: Category, t: Tally): string {
    "**" + CategoryName(c) + "**: " + NatToString(t.Get(c))
  }

  /** The summary lines: one per asked indicator whose category was counted
      at least once, in the order asked. */
  function Parts(asked: seq<string>, t: Tally): (r: seq<string>)
    ensures |r| <= |asked|
  {
    if |asked| == 0 then []
    else
      var c := IndicatorCategory(asked[0]);
      (if t.Get(c) > 0 then [SummaryLine(c, t)] else []) + Parts(asked[1..], t)
  }

  /** `line` is the summary line of an asked indicator that was counted. */
  predicate CountedLine(asked: seq<string>, t: Tally, line: string) {
    exists j :: 0 <= j < |asked| && t.Get(IndicatorCategory(asked[j])) > 0
                && line == SummaryLine(IndicatorCategory(asked[j]), t)
  }

  /** Every summary line reports a category that was asked and counted. */
  lemma {:induction false} PartsAreCounted(asked: seq<string>, t: Tally, k: nat)
    requires k < |Parts(asked, t)|
    ensures CountedLine(asked, t, Parts(asked, t)[k])
    decreases |asked|
  {
    var c := IndicatorCategory(asked[0]);
    var rest := Parts(asked[1..], t);
    if t.Get(c) > 0 && k == 0 {
      assert t.Get(IndicatorCategory(asked[0])) > 0 && Parts(asked, t)[k] == SummaryLine(IndicatorCategory(asked[0]), t);
    } else {
      var k' := if t.Get(c) > 0 then k - 1 else k;
      assert Parts(asked, t)[k] == rest[k'];
      PartsAreCounted(asked[1..], t, k');
      var j :| 0 <= j < |asked[1..]| && t.Get(IndicatorCategory(asked[1..][j])) > 0
               && rest[k'] == SummaryLine(IndicatorCategory(asked[1..][j]), t);
      assert asked[1..][j] == asked[j + 1];
    }
  }

  /** No summary line exactly when no asked category was counted. */
  lemma {:induction false} PartsEmptyIff(asked: seq<string>, t: Tally)
    ensures Parts(asked, t) == [] <==> forall j :: 0 <= j < |asked| ==> t.Get(IndicatorCategory(asked[j])) == 0
    decreases |asked|
  {
    if |asked| > 0 {
      PartsEmptyIff(asked[1..], t);
      if forall j :: 0 <= j < |asked[1..]| ==> t.Get(IndicatorCategory(asked[1..][j])) == 0 {
        forall j | 0 <= j < |asked| ensures t.Get(IndicatorCategory(asked[j])) == 0 || j == 0 {
          if j > 0 {
            assert asked[j] == asked[1..][j - 1];
          }
        }
      } else {
        var j :| 0 <= j < |asked[1..]| && t.Get(IndicatorCategory(asked[1..][j])) != 0;
        assert asked[1..][j] == asked[j + 1];
      }
    }
  }

  /** Conversely, the line of every asked indicator that was counted is in
      the summary. */
  lemma {:induction false} PartsCoverCounted(asked: seq<string>, t: Tally, j: nat)
    requires j < |asked| && t.Get(IndicatorCategory(asked[j])) > 0
    ensures SummaryLine(IndicatorCategory(asked[j]), t) in Parts(asked, t)
    decreases |asked|
  {
    var c := IndicatorCategory(asked[0]);
    var rest := Parts(asked[1..], t);
    var head := if t.Get(c) > 0 then [SummaryLine(c, t)] else [];
    assert Parts(asked, t) == head + rest;
    if j > 0 {
      assert asked[1..][j - 1] == asked[j];
      PartsCoverCounted(asked[1..], t, j - 1);
    }
  }

  const SummaryHeading: string := "**Attendance Summary:**\n"

  /** The answer of the counter, or nothing to fall through to the general
      search. */
  function Summary(query: string, t: Tally): (r: Option<string>)
    ensures r.Some? <==> AnyAskedCounted(query, t)
    ensures r.Some? ==> r.value == SummaryHeading + JoinWith("\n", Parts(Asked(query), t))
  {
    var parts := Parts(Asked(query), t);
    AskedCountedIff(query, t);
    if parts == [] then None else Some(SummaryHeading + JoinWith("\n", parts))
  }

  /** A counting question about attendance: the query contains a count
      keyword and a status indicator. */
  predicate IsAttendanceCount(query: string) {
    ContainsAny(query, CountKeywords) && ContainsAny(query, StatusIndicators)
  }

  /** Some indicator the query mentions names a category that was counted. */
  predicate AnyAskedCounted(query: string, t: Tally) {
    exists ind :: ind in StatusIndicators && Contains(query, ind) && t.Get(IndicatorCategory(ind)) > 0
  }

  /** There are summary lines exactly when one of the categories the query
      asks about was counted at least once. */
  lemma AskedCountedIff(query: string, t: Tally)
    ensures Parts(Asked(query), t) != [] <==> AnyAskedCounted(query, t)
  {
    var asked := Asked(query);
    PartsEmptyIff(asked, t);
    if AnyAskedCounted(query, t) {
      var ind :| ind in StatusIndicators && Contains(query, ind) && t.Get(IndicatorCategory(ind)) > 0;
      assert ind in asked;
      var j :| 0 <= j < |asked| && asked[j] == ind;
    } else {
      forall j | 0 <= j < |asked| ensures t.Get(IndicatorCategory(asked[j])) == 0 {
        assert asked[j] in StatusIndicators && Contains(query, asked[j]);
      }
    }
  }

  /** Two mentioned indicators naming the same counted category, the first
      of them at the head of the list, give that category two lines. */
  lemma RepeatedCategory(query: string, inds: seq<string>, t: Tally, m: nat)
    requires 0 < m < |inds| && Contains(query, inds[0]) && Contains(query, inds[m])
    requires IndicatorCategory(inds[m]) == IndicatorCategory(inds[0]) && t.Get(IndicatorCategory(inds[0])) > 0
    ensures var parts := Parts(AskedAmong(query, inds), t);
            |parts| > 0 && parts[0] == SummaryLine(IndicatorCategory(inds[0]), t) && parts[0] in parts[1..]
  {
    var asked := AskedAmong(query, inds);
    AskedHead(query, inds);
    assert inds[1..][m - 1] == inds[m];
    assert inds[m] in asked[1..];
    var k :| 0 <= k < |asked[1..]| && asked[1..][k] == inds[m];
    PartsCoverCounted(asked[1..], t, k);
    PartsHead(asked, t);
  }

  /** An indicator the query mentions is the first one asked. */
  lemma AskedHead(query: string, inds: seq<string>)
    requires |inds| > 0 && Contains(query, inds[0])
    ensures var asked := AskedAmong(query, inds);
            |asked| > 0 && asked[0] == inds[0] && asked[1..] == AskedAmong(query, inds[1..])
  {
  }

  /** A counted first indicator gives the first summary line. */
  lemma PartsHead(asked: seq<string>, t: Tally)
    requires |asked| > 0 && t.Get(IndicatorCategory(asked[0])) > 0
    ensures Parts(asked, t) == [SummaryLine(IndicatorCategory(asked[0]), t)] + Parts(asked[1..], t)
  {
  }

  /** A query containing "present" also contains the indicator "p", so a
      counted Present category is reported on two lines. */
  lemma PresentReportedTwice(query: string, t: Tally)
    requires Contains(query, "present") && t.Get(Present) > 0
    ensures var parts := Parts(Asked(query), t);
            |parts| > 0 && parts[0] == SummaryLine(Present, t) && parts[0] in parts[1..]
  {
    ContainsPrefix(query, "present", 1);
    assert "present"[..1] == "p";
    RepeatedCategory(query, StatusIndicators, t, 4);
  }

  /** The counts of a table: the header search, then the status of every row
      below the header in the header's column (the last cell when there is
      no header). */
  function TableTally(rows: seq<seq<string>>): (t: Tally)
    requires forall i :: 0 <= i < |rows| ==> |rows[i]| >= 1
    ensures var h := FindHeader(rows);
            forall c :: t.Get(c) == Count(Statuses(rows[StartRow(h)..], StatusCol(h)), c)
    ensures t.Total() <= |rows|
  {
    var h := FindHeader(rows);
    var below := rows[StartRow(h)..];
    assert forall i :: 0 <= i < |below| ==> below[i] == rows[StartRow(h) + i];
    var statuses := Statuses(below, StatusCol(h));
    CountsTotal(statuses);
    TallyOf(statuses)
  }

  /** Branch 3 of the router on the stored text and the lower-cased,
      stripped query: a summary, or nothing when the query is not an
      attendance count or no asked category was counted. */
  function AttendanceAnswer(text: string, query: string): (r: Option<string>)
    ensures !IsAttendanceCount(query) ==> r == None
  {
    if !IsAttendanceCount(query) then None
    else Summary(query, TextTally(text))
  }

  /** The counts of the table held in a document's text: each non-blank
      line below the header counts towards at most one category. */
  function TextTally(text: string): (t: Tally)
    ensures t.Total() <= |NonBlankLines(text)|
  {
    TableTally(Rows(NonBlankLines(text)))
  }

  /** The counter answers exactly for an attendance counting question that
      asks about a category the table holds at least once; otherwise the
      router falls through to the document search. */
  lemma AttendanceAnswerIff(text: string, query: string)
    ensures AttendanceAnswer(text, query).Some? <==> IsAttendanceCount(query) && AnyAskedCounted(query, TextTally(text))
  {
    if IsAttendanceCount(query) {
    }
  }
}
