/**
  The handful of Python `str` operations the assistant is built from, on
  strings as sequences of characters: `isspace`, `lower`, `strip`, `split()`,
  `sep.join`, the substring test `a in b`, `splitlines` and `str(int)`.
 */
module Text {

  /** Python's whitespace test: ASCII whitespace, the separators U+001C..U+001F and the
      Unicode space separators. `split()`, `strip()` and the regex class `\s`
      all use this same set. */
  predicate IsSpace(c: char) {
    || c == ' '
    || ('\t' <= c <= '\r')
    || ('\U{1C}' <= c <= '\U{1F}')
    || c == '\U{85}' || c == '\U{A0}' || c == '\U{1680}'
    || ('\U{2000}' <= c <= '\U{200A}')
    || c == '\U{2028}' || c == '\U{2029}' || c == '\U{202F}' || c == '\U{205F}' || c == '\U{3000}'
  }

  /** The characters at which `str.splitlines()` ends a line. */
  predicate IsLineBreak(c: char) {
    || ('\n' <= c <= '\r')
    || ('\U{1C}' <= c <= '\U{1E}')
    || c == '\U{85}' || c == '\U{2028}' || c == '\U{2029}'
  }

  predicate AllSpace(s: string) {
    forall k :: 0 <= k < |s| ==> IsSpace(s[k])
  }

  /** A token of `split()`: non-empty and free of whitespace. */
  predicate IsWord(w: string) {
    |w| > 0 && forall k :: 0 <= k < |w| ==> !IsSpace(w[k])
  }

  // ---------------------------------------------------------------- lower()

  function LowerChar(c: char): (r: char)
    ensures 'A' <= c <= 'Z' ==> 'a' <= r <= 'z'
    ensures !('A' <= c <= 'Z') ==> r == c
  {
    if 'A' <= c <= 'Z' then (c as int + 32) as char else c
  }

  /** Lower-casing, restricted to the ASCII letters: no capital is left, each
      capital becomes its small letter, every other character stays. */
  function Lower(s: string): (r: string)
    ensures |r| == |s|
    ensures forall k :: 0 <= k < |s| ==> r[k] == LowerChar(s[k])
    ensures forall k :: 0 <= k < |r| ==> !('A' <= r[k] <= 'Z')
    ensures forall k :: 0 <= k < |s| && 'A' <= s[k] <= 'Z' ==> r[k] as int == s[k] as int + 32
    ensures forall k :: 0 <= k < |s| && !('A' <= s[k] <= 'Z') ==> r[k] == s[k]
  {
    seq(|s|, k requires 0 <= k < |s| => LowerChar(s[k]))
  }

  /** A string without capitals is its own lower-case form. */
  lemma LowerKeepsSmall(s: string)
    requires forall k :: 0 <= k < |s| ==> !('A' <= s[k] <= 'Z')
    ensures Lower(s) == s
  {
  }

  /** Lower-casing twice is lower-casing once. */
  lemma LowerIdempotent(s: string)
    ensures Lower(Lower(s)) == Lower(s)
  {
  }

  // ---------------------------------------------------------------- strip()

  function TrimLeft(s: string): (r: string)
    ensures |r| <= |s| && r == s[|s| - |r|..]
    ensures |r| > 0 ==> !IsSpace(r[0])
    ensures AllSpace(s[..|s| - |r|])
  {
    if |s| > 0 && IsSpace(s[0]) then TrimLeft(s[1..]) else s
  }

  function TrimRight(s: string): (r: string)
    ensures |r| <= |s| && r == s[..|r|]
    ensures |r| > 0 ==> !IsSpace(r[|r| - 1])
    ensures AllSpace(s[|r|..])
  {
    if |s| > 0 && IsSpace(s[|s| - 1]) then TrimRight(s[..|s| - 1]) else s
  }

  /** Stripping: a slice of `s` that neither starts nor ends with whitespace,
      everything cut away being whitespace. */
  function Strip(s: string): (r: string)
    ensures |r| <= |s|
    ensures |r| > 0 ==> !IsSpace(r[0]) && !IsSpace(r[|r| - 1])
  {
    TrimRight(TrimLeft(s))
  }

  /** What `strip()` removes: the stripped string is the slice of `s` from
      position `d` on, and everything before and after that slice is
      whitespace. */
  lemma StripIsSlice(s: string) returns (d: nat)
    ensures Framed(s, d, Strip(s))
  {
    d := |s| - |TrimLeft(s)|;
    LeftCutOfTrim(s);
    RightCutOfStrip(s);
    TrimmedSlice(s, TrimLeft(s), Strip(s));
  }

  lemma LeftCutOfTrim(s: string)
    ensures LeftCut(s, TrimLeft(s))
  {
  }

  lemma RightCutOfStrip(s: string)
    ensures RightCut(TrimLeft(s), Strip(s))
  {
  }

  /** `r` is the stretch of `s` that starts at `d`, and everything before
      and after it is whitespace. */
  predicate Framed(s: string, d: nat, r: string) {
    d + |r| <= |s| && r == s[d..d + |r|] && AllSpace(s[..d]) && AllSpace(s[d + |r|..])
  }

  /** `l` is `s` with a whitespace prefix cut away. */
  predicate LeftCut(s: string, l: string) {
    |l| <= |s| && l == s[|s| - |l|..] && AllSpace(s[..|s| - |l|])
  }

  /** `r` is `l` with a whitespace suffix cut away. */
  predicate RightCut(l: string, r: string) {
    |r| <= |l| && r == l[..|r|] && AllSpace(l[|r|..])
  }

  /** Every character of the stripped string comes from the input. */
  lemma StripKeepsCharacters(s: string)
    ensures forall k :: 0 <= k < |Strip(s)| ==> Strip(s)[k] in s
  {
    var d := StripIsSlice(s);
    forall k | 0 <= k < |Strip(s)| ensures Strip(s)[k] in s {
      assert Strip(s)[k] == s[d + k];
    }
  }

  /** A right-trimmed piece of a left-trimmed piece is a slice framed by the
      two cut-off parts. */
  lemma TrimmedSlice(s: string, l: string, r: string)
    requires LeftCut(s, l) && RightCut(l, r)
    ensures Framed(s, |s| - |l|, r)
  {
    var d := |s| - |l|;
    assert l[|r|..] == s[d + |r|..];
    assert l[..|r|] == s[d..d + |r|];
  }

  /** Stripping starts at the first character that is not whitespace: the
      result is empty exactly when no such character exists, and otherwise
      begins with it. */
  lemma StripStartsAtFirstNonSpace(s: string)
    ensures Strip(s) == "" <==> TrimLeft(s) == ""
    ensures Strip(s) != "" ==> Strip(s)[0] == TrimLeft(s)[0]
  {
    if TrimLeft(s) != "" {
      TrimRightKeepsHead(TrimLeft(s));
    }
  }

  /** Trimming the right end never reaches a first character that is not
      whitespace. */
  lemma {:induction false} TrimRightKeepsHead(s: string)
    requires |s| > 0 && !IsSpace(s[0])
    ensures |TrimRight(s)| > 0 && TrimRight(s)[0] == s[0]
    decreases |s|
  {
    if IsSpace(s[|s| - 1]) {
      TrimRightKeepsHead(s[..|s| - 1]);
    }
  }

  /** The stripped string is empty exactly when `s` is all whitespace, so
      testing it for emptiness asks whether `s` holds a non-space character. */
  lemma {:induction false} StripEmptyIffAllSpace(s: string)
    ensures Strip(s) == "" <==> AllSpace(s)
  {
    var l := TrimLeft(s);
    if |l| == 0 {
      assert s[..|s|] == s;
    } else {
      assert l[0] == s[|s| - |l|];
    }
  }

  // ---------------------------------------------------------------- `in`

  /** The substring test: `pat` occurs somewhere in `s`. */
  predicate Contains(s: string, pat: string) {
    exists i :: 0 <= i <= |s| - |pat| && MatchesAt(s, pat, i)
  }

  /** `pat` occurs in `s` starting at position `i`. */
  predicate MatchesAt(s: string, pat: string, i: int) {
    0 <= i <= |s| - |pat| && s[i..i + |pat|] == pat
  }

  /** Some pattern of `pats` occurs in `s`. */
  predicate ContainsAny(s: string, pats: seq<string>) {
    exists k :: 0 <= k < |pats| && Contains(s, pats[k])
  }

  /** Whatever contains `pat` contains each piece of it; in particular its
      first character. */
  lemma {:induction false} ContainsPrefix(s: string, pat: string, n: nat)
    requires Contains(s, pat) && n <= |pat|
    ensures Contains(s, pat[..n])
  {
    var i :| 0 <= i <= |s| - |pat| && MatchesAt(s, pat, i);
    assert s[i..i + n] == s[i..i + |pat|][..n];
    assert MatchesAt(s, pat[..n], i);
  }

  /** Whatever contains `pat` contains every slice of it. */
  lemma ContainsSlice(s: string, pat: string, i: nat, j: nat)
    requires Contains(s, pat) && i <= j <= |pat|
    ensures Contains(s, pat[i..j])
  {
    var p :| 0 <= p <= |s| - |pat| && MatchesAt(s, pat, p);
    var w := s[p + i..p + j];
    assert |w| == j - i;
    forall k | 0 <= k < j - i
      ensures w[k] == pat[i..j][k]
    {
      assert w[k] == s[p + i + k] == s[p..p + |pat|][i + k];
    }
    assert w == pat[i..j];
    assert MatchesAt(s, pat[i..j], p + i);
  }

  // ---------------------------------------------------------------- split() and join

  /** Length of the run of non-space characters at the front of `s`. */
  function TokenLength(s: string): (n: nat)
    ensures n <= |s|
    ensures forall k :: 0 <= k < n ==> !IsSpace(s[k])
    ensures n < |s| ==> IsSpace(s[n])
  {
    if |s| == 0 || IsSpace(s[0]) then 0 else 1 + TokenLength(s[1..])
  }

  /** Splitting at whitespace: the maximal runs of non-whitespace
      characters, in order. */
  function Words(s: string): (ws: seq<string>)
    ensures forall k :: 0 <= k < |ws| ==> IsWord(ws[k])
    decreases |s|
  {
    if |s| == 0 then []
    else if IsSpace(s[0]) then Words(s[1..])
    else
      var n := TokenLength(s);
      [s[..n]] + Words(s[n..])
  }

  /** The strings of `xs` with `sep` between neighbours. */
  function JoinWith(sep: string, xs: seq<string>): string {
    if |xs| == 0 then ""
    else if |xs| == 1 then xs[0]
    else xs[0] + sep + JoinWith(sep, xs[1..])
  }

  /** The words of `ws` with a single space between neighbours. */
  function Join(ws: seq<string>): string {
    JoinWith(" ", ws)
  }

  /** A text has no words exactly when it is blank. */
  lemma {:induction false} WordsEmptyIffAllSpace(s: string)
    ensures Words(s) == [] <==> AllSpace(s)
    decreases |s|
  {
    if |s| > 0 {
      if IsSpace(s[0]) {
        WordsEmptyIffAllSpace(s[1..]);
        assert AllSpace(s[1..]) ==> AllSpace(s);
      }
    }
  }

  lemma {:induction false} TokenLengthOfWord(w: string, t: string)
    requires IsWord(w)
    requires t == [] || IsSpace(t[0])
    ensures TokenLength(w + t) == |w|
    decreases |w|
  {
    if |w| > 1 {
      assert (w + t)[1..] == w[1..] + t;
      TokenLengthOfWord(w[1..], t);
    } else {
      assert (w + t)[1..] == t;
    }
  }

  /** A word followed by a space splits off as the first word. */
  lemma WordsOfWordThenSpace(w: string, rest: string)
    requires IsWord(w)
    ensures Words(w + " " + rest) == [w] + Words(rest)
  {
    var t := " " + rest;
    var s := w + t;
    assert w + " " + rest == s;
    TokenLengthOfWord(w, t);
    assert s[..|w|] == w;
    assert s[|w|..] == t;
    assert t[1..] == rest;
  }

  /** A single word splits into itself. */
  lemma WordsOfWord(w: string)
    requires IsWord(w)
    ensures Words(w) == [w]
  {
    TokenLengthOfWord(w, "");
    assert w + "" == w;
    assert w[|w|..] == "";
    assert w[..|w|] == w;
  }

  /** Splitting a space-joined list of words gives the words back: the round
      trip behind every chunk of the chunker. */
  lemma {:induction false} WordsOfJoin(ws: seq<string>)
    requires forall k :: 0 <= k < |ws| ==> IsWord(ws[k])
    ensures Words(Join(ws)) == ws
    decreases |ws|
  {
    if |ws| == 1 {
      WordsOfWord(ws[0]);
    } else if |ws| > 1 {
      WordsOfWordThenSpace(ws[0], Join(ws[1..]));
      WordsOfJoin(ws[1..]);
      assert ws == [ws[0]] + ws[1..];
    }
  }

  // ---------------------------------------------------------------- splitlines()

  /** `s` cut at every line-break character. `splitlines()` differs from this
      only by empty pieces (after a final break, inside `\r\n`, for ""), and
      every caller drops blank lines. */
  function LinePieces(s: string): (r: seq<string>)
    ensures |r| >= 1
    decreases |s|
  {
    if |s| == 0 then [""]
    else
      var rest := LinePieces(s[1..]);
      if IsLineBreak(s[0]) then [""] + rest
      else [[s[0]] + rest[0]] + rest[1..]
  }

  /** The lines of `s` that hold a non-space character, each stripped of
      its surrounding whitespace, in order. */
  function NonBlankLines(s: string): (r: seq<string>)
    ensures forall k :: 0 <= k < |r| ==> r[k] != "" && Stripped(r[k])
    ensures r == [] <==> AllSpace(s)
  {
    var pieces := LinePieces(s);
    var stripped := StripAll(pieces);
    var r := DropEmpty(stripped);
    assert forall k :: 0 <= k < |r| ==> r[k] in stripped;
    StripAllEmptyIffBlank(pieces);
    BlankPieces(s);
    r
  }

  /** Stripping leaves nothing of any piece exactly when every piece is
      blank. */
  lemma StripAllEmptyIffBlank(pieces: seq<string>)
    ensures DropEmpty(StripAll(pieces)) == [] <==> AllBlank(pieces)
  {
    var stripped := StripAll(pieces);
    forall k | 0 <= k < |pieces| ensures stripped[k] == "" <==> AllSpace(pieces[k]) {
      StripEmptyIffAllSpace(pieces[k]);
    }
  }

  /** Every piece is all whitespace. */
  predicate AllBlank(pieces: seq<string>) {
    forall k :: 0 <= k < |pieces| ==> AllSpace(pieces[k])
  }

  /** The pieces of `s` are all blank exactly when `s` is. */
  lemma {:induction false} BlankPieces(s: string)
    ensures AllBlank(LinePieces(s)) <==> AllSpace(s)
    decreases |s|
  {
    if |s| > 0 {
      var rest := LinePieces(s[1..]);
      BlankPieces(s[1..]);
      SpaceCons(s);
      if IsLineBreak(s[0]) {
        var ps := [""] + rest;
        assert LinePieces(s) == ps;
        assert ps[1..] == rest;
        BlankCons(ps);
        assert IsSpace(s[0]);
      } else {
        assert LinePieces(s) == [[s[0]] + rest[0]] + rest[1..];
        BlankFirstPiece(s[0], rest);
      }
    }
  }

  /** A string is blank when its first character is whitespace and the rest
      is blank. */
  lemma SpaceCons(s: string)
    requires |s| > 0
    ensures AllSpace(s) <==> IsSpace(s[0]) && AllSpace(s[1..])
  {
    assert forall k :: 1 <= k < |s| ==> s[k] == s[1..][k - 1];
  }

  /** Extending the first piece by a character keeps the pieces blank
      exactly when that character is whitespace. */
  lemma BlankFirstPiece(c: char, rest: seq<string>)
    requires |rest| >= 1
    ensures AllBlank([[c] + rest[0]] + rest[1..]) <==> IsSpace(c) && AllBlank(rest)
  {
    var first := [c] + rest[0];
    var ps := [first] + rest[1..];
    SpaceCons(first);
    assert first[1..] == rest[0];
    assert ps[1..] == rest[1..];
    BlankCons(ps);
    BlankCons(rest);
  }

  /** The pieces are blank when the first is and the others are. */
  lemma BlankCons(ps: seq<string>)
    requires |ps| > 0
    ensures AllBlank(ps) <==> AllSpace(ps[0]) && AllBlank(ps[1..])
  {
    assert forall k :: 1 <= k < |ps| ==> ps[k] == ps[1..][k - 1];
  }

  /** Neither starts nor ends with whitespace. */
  predicate Stripped(l: string) {
    |l| > 0 ==> !IsSpace(l[0]) && !IsSpace(l[|l| - 1])
  }

  /** Every piece stripped. */
  function StripAll(pieces: seq<string>): (r: seq<string>)
    ensures |r| == |pieces|
    ensures forall i :: 0 <= i < |pieces| ==> r[i] == Strip(pieces[i]) && Stripped(r[i])
  {
    seq(|pieces|, i requires 0 <= i < |pieces| => Strip(pieces[i]))
  }

  /** The non-empty strings of `ls`, in order. */
  function DropEmpty(ls: seq<string>): (r: seq<string>)
    ensures |r| <= |ls|
    ensures forall k :: 0 <= k < |r| ==> r[k] != "" && r[k] in ls
    ensures (forall k :: 0 <= k < |ls| ==> ls[k] != "") ==> r == ls
    ensures forall k :: 0 <= k < |ls| && ls[k] != "" ==> ls[k] in r
    ensures r == [] <==> forall k :: 0 <= k < |ls| ==> ls[k] == ""
  {
    if |ls| == 0 then []
    else
      var rest := DropEmpty(ls[1..]);
      assert forall k :: 0 <= k < |rest| ==> rest[k] in ls;
      if ls[0] == "" then rest
      else
        assert ls == [ls[0]] + ls[1..];
        [ls[0]] + rest
  }

  /** A line as the line filter keeps it: not empty, no surrounding
      whitespace, no line break. */
  predicate CleanLine(l: string) {
    l != "" && Stripped(l) && NoBreak(l)
  }

  predicate NoBreak(l: string) {
    forall k :: 0 <= k < |l| ==> !IsLineBreak(l[k])
  }

  /** Filtering drops the empty strings of each part separately, so the
      kept strings stay in their order. */
  lemma {:induction false} DropEmptyAppend(a: seq<string>, b: seq<string>)
    ensures DropEmpty(a + b) == DropEmpty(a) + DropEmpty(b)
    decreases |a|
  {
    if |a| == 0 {
      assert a + b == b;
    } else {
      assert (a + b)[0] == a[0];
      assert (a + b)[1..] == a[1..] + b;
      DropEmptyAppend(a[1..], b);
    }
  }

  /** A single string is kept exactly when it is not empty. */
  lemma DropEmptyOne(l: string)
    ensures DropEmpty([l]) == if l == "" then [] else [l]
  {
  }

  /** The line filter on the newline-join of lines without breaks: each line
      is stripped, and the lines left empty are dropped, in order. Blank and
      padded lines are allowed. */
  lemma NonBlankLinesOfLines(ls: seq<string>)
    requires |ls| >= 1
    requires forall k :: 0 <= k < |ls| ==> NoBreak(ls[k])
    ensures NonBlankLines(JoinWith("\n", ls)) == DropEmpty(StripAll(ls))
  {
    LinePiecesOfJoin(ls);
  }

  /** Cutting the newline-join of clean lines and filtering it gives the
      lines back. */
  lemma {:induction false} NonBlankLinesOfJoin(ls: seq<string>)
    requires |ls| >= 1
    requires forall k :: 0 <= k < |ls| ==> CleanLine(ls[k])
    ensures NonBlankLines(JoinWith("\n", ls)) == ls
  {
    NonBlankLinesOfLines(ls);
    StrippedNonBlankKeeps(ls);
  }

  /** Stripping and filtering changes nothing in a list of clean lines. */
  lemma StrippedNonBlankKeeps(ls: seq<string>)
    requires forall k :: 0 <= k < |ls| ==> ls[k] != "" && Stripped(ls[k])
    ensures DropEmpty(StripAll(ls)) == ls
  {
    forall k | 0 <= k < |ls| ensures StripAll(ls)[k] == ls[k] {
      StrippedIsFixedPoint(ls[k]);
    }
    assert StripAll(ls) == ls;
  }

  /** Cutting the newline-join of lines without breaks gives the lines back. */
  lemma {:induction false} LinePiecesOfJoin(ls: seq<string>)
    requires |ls| >= 1
    requires forall k :: 0 <= k < |ls| ==> NoBreak(ls[k])
    ensures LinePieces(JoinWith("\n", ls)) == ls
    decreases |ls|
  {
    if |ls| == 1 {
      LinePiecesOfLine(ls[0]);
    } else {
      var rest := JoinWith("\n", ls[1..]);
      LinePiecesOfJoin(ls[1..]);
      JoinWithCons(ls);
      LinePiecesOfLineThen(ls[0], rest);
      assert ls == [ls[0]] + ls[1..];
    }
  }

  /** A single line without a break is a single piece. */
  lemma LinePiecesOfLine(c: string)
    requires NoBreak(c)
    ensures LinePieces(c) == [c]
  {
    LinePiecesOfTail(c, "");
    assert c + "" == c;
  }

  /** A line without a break, then a line break, adds one piece in front. */
  lemma LinePiecesOfLineThen(c: string, rest: string)
    requires NoBreak(c)
    ensures LinePieces(c + ("\n" + rest)) == [c] + LinePieces(rest)
  {
    LinePiecesAfterBreak(rest);
    LinePiecesOfTail(c, "\n" + rest);
    assert c + "" == c;
  }

  /** The join of two or more strings: the first, the separator, the join of
      the rest. */
  lemma JoinWithCons(ls: seq<string>)
    requires |ls| > 1
    ensures JoinWith("\n", ls) == ls[0] + ("\n" + JoinWith("\n", ls[1..]))
  {
  }

  /** A line break in front of `rest` ends an empty piece. */
  lemma LinePiecesAfterBreak(rest: string)
    ensures LinePieces("\n" + rest) == [""] + LinePieces(rest)
  {
    assert ("\n" + rest)[1..] == rest;
  }

  /** Text without a line break in front of `t` extends the first piece of
      `t`. */
  lemma {:induction false} LinePiecesOfTail(c: string, t: string)
    requires NoBreak(c)
    ensures LinePieces(c + t) == [c + LinePieces(t)[0]] + LinePieces(t)[1..]
    decreases |c|
  {
    if |c| == 0 {
      assert c + t == t;
      assert c + LinePieces(t)[0] == LinePieces(t)[0];
    } else {
      var s := c + t;
      assert s[0] == c[0];
      assert s[1..] == c[1..] + t;
      LinePiecesOfTail(c[1..], t);
      assert [c[0]] + (c[1..] + LinePieces(t)[0]) == c + LinePieces(t)[0];
    }
  }

  /** `strip()` leaves a string unchanged exactly when it neither starts
      nor ends with whitespace; in particular stripping twice is stripping
      once. */
  lemma StrippedIsFixedPoint(l: string)
    ensures Stripped(l) <==> Strip(l) == l
    ensures Strip(Strip(l)) == Strip(l)
  {
    if Stripped(l) && |l| > 0 {
      assert TrimLeft(l) == l;
      assert TrimRight(l) == l;
    }
    var r := Strip(l);
    if |r| > 0 {
      assert TrimLeft(r) == r;
      assert TrimRight(r) == r;
    }
  }

  // ---------------------------------------------------------------- str(int)

  predicate IsDigit(c: char) {
    '0' <= c <= '9'
  }

  function DigitChar(d: nat): (c: char)
    requires d < 10
    ensures IsDigit(c) && c as int - '0' as int == d
  {
    (d + '0' as int) as char
  }

  /** The numeral of a natural number: its decimal digits, most significant
      first, without leading zeros. */
  function NatToString(n: nat): (r: string)
    ensures |r| >= 1
    ensures forall k :: 0 <= k < |r| ==> IsDigit(r[k])
    ensures |r| > 1 ==> r[0] != '0'
    decreases n
  {
    if n < 10 then [DigitChar(n)] else NatToString(n / 10) + [DigitChar(n % 10)]
  }

  /** The numeral of any integer, with a minus sign when it is negative. */
  function IntToString(i: int): string {
    if i < 0 then "-" + NatToString(-i) else NatToString(i)
  }

  /** The value of a string of decimal digits. */
  function DigitsValue(s: string): nat
    requires forall k :: 0 <= k < |s| ==> IsDigit(s[k])
  {
    if |s| == 0 then 0
    else
      assert IsDigit(s[|s| - 1]);
      DigitsValue(s[..|s| - 1]) * 10 + (s[|s| - 1] as int - '0' as int)
  }

  /** Reading back what `NatToString` wrote gives the number. */
  lemma {:induction false} NatToStringRoundTrip(n: nat)
    ensures DigitsValue(NatToString(n)) == n
    decreases n
  {
    if n >= 10 {
      var s := NatToString(n);
      NatToStringRoundTrip(n / 10);
      assert s[..|s| - 1] == NatToString(n / 10);
    }
  }
}
