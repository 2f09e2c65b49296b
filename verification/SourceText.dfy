/** Text positions and function bodies as the policy generators compute them. */
module SourceText {
  import opened Results

  datatype Error =
    | NotOneBased
    | LineOutOfRange
    | ColumnOutOfRange
    | FunctionNotFound
    | UnterminatedFunction
    | NotMalloc
    | TruncatedToken
    | NoArgumentList
    | EmptyArgument
    | SpanPastCall
    | UnterminatedArguments
    | InvalidSite
    | SiteEscapesFunction
    | CallEscapesFunction

  // ----- characters, as Python's `str` methods and regular expressions class them

  predicate IsSpace(c: char) {
    || '\t' <= c <= '\r' || '\U{1c}' <= c <= '\U{20}' || c == '\U{85}' || c == '\U{a0}' || c == '\U{1680}'
    || '\U{2000}' <= c <= '\U{200a}' || c == '\U{2028}' || c == '\U{2029}' || c == '\U{202f}'
    || c == '\U{205f}' || c == '\U{3000}'
  }

  predicate IsLineBreak(c: char) {
    '\n' <= c <= '\r' || '\U{1c}' <= c <= '\U{1e}' || c == '\U{85}' || c == '\U{2028}' || c == '\U{2029}'
  }

  /** `\w`, restricted to ASCII. */
  predicate IsWord(c: char) {
    'a' <= c <= 'z' || 'A' <= c <= 'Z' || '0' <= c <= '9' || c == '_'
  }

  function StripLeft(t: string): string {
    if t == "" || !IsSpace(t[0]) then t else StripLeft(t[1..])
  }

  function StripRight(t: string): string {
    if t == "" || !IsSpace(t[|t| - 1]) then t else StripRight(t[..|t| - 1])
  }

  /** `strip()` */
  function Strip(t: string): string {
    StripRight(StripLeft(t))
  }

  predicate AllSpace(t: string) {
    forall i :: 0 <= i < |t| ==> IsSpace(t[i])
  }

  lemma {:induction false} StripLeftParts(t: string) returns (lead: string)
    ensures AllSpace(lead) && t == lead + StripLeft(t)
    ensures StripLeft(t) != "" ==> !IsSpace(StripLeft(t)[0])
  {
    if t == "" || !IsSpace(t[0]) {
      lead := "";
    } else {
      lead := StripLeftParts(t[1..]);
      lead := [t[0]] + lead;
    }
  }

  lemma {:induction false} StripRightParts(t: string) returns (trail: string)
    ensures AllSpace(trail) && t == StripRight(t) + trail
    ensures StripRight(t) != "" ==> !IsSpace(StripRight(t)[|StripRight(t)| - 1])
    ensures StripRight(t) != "" ==> StripRight(t)[0] == t[0]
  {
    if t == "" || !IsSpace(t[|t| - 1]) {
      trail := "";
    } else {
      trail := StripRightParts(t[..|t| - 1]);
      trail := trail + [t[|t| - 1]];
    }
  }

  /** `t` is its stripped form between two runs of spaces. */
  lemma StripParts(t: string) returns (lead: string, trail: string)
    ensures AllSpace(lead) && AllSpace(trail)
    ensures t == lead + (Strip(t) + trail)
    ensures Strip(t) != "" ==> !IsSpace(Strip(t)[0])
  {
    lead := StripLeftParts(t);
    trail := StripRightParts(StripLeft(t));
  }

  lemma StripIsEmpty(t: string)
    ensures Strip(t) == "" <==> AllSpace(t)
  {
    var lead, trail := StripParts(t);
    if Strip(t) != "" {
      assert t[|lead|] == Strip(t)[0];
    }
  }

  // ----- lines and offsets

  /** Length of the first line, its terminator included; `"\r\n"` is one terminator. */
  function FirstLine(s: string): (n: nat)
    ensures n <= |s| && (s != "" ==> n > 0)
  {
    if s == "" then 0
    else if IsLineBreak(s[0]) then (if s[0] == '\r' && |s| > 1 && s[1] == '\n' then 2 else 1)
    else 1 + FirstLine(s[1..])
  }

  /** `splitlines(keepends=True)` */
  function Lines(s: string): (ls: seq<string>)
    ensures s != "" ==> ls != []
  {
    if s == "" then [] else [s[..FirstLine(s)]] + Lines(s[FirstLine(s)..])
  }

  function TotalLength(ls: seq<string>): nat {
    if ls == [] then 0 else |ls[0]| + TotalLength(ls[1..])
  }

  /** Number of characters of a line before its `\n`, `\r` or `\r\n`. */
  function VisibleLength(text: string): (n: nat)
    ensures n <= |text|
  {
    var visible := if text != "" && text[|text| - 1] == '\n' then text[..|text| - 1] else text;
    if visible != "" && visible[|visible| - 1] == '\r' then |visible| - 1 else |visible|
  }

  function SourceOffset(s: string, line: int, column: int, end: bool): Result<nat, Error> {
    if line < 1 || column < 1 then Err(NotOneBased) else OffsetInLines(Lines(s), line, column, end)
  }

  function OffsetInLines(lines: seq<string>, line: int, column: int, end: bool): Result<nat, Error>
    requires line >= 1 && column >= 1
  {
    if line > |lines| then Err(LineOutOfRange)
    else
      var maxColumn := VisibleLength(lines[line - 1]) + (if end then 1 else 0);
      if column > maxColumn then Err(ColumnOutOfRange)
      else
        var base := TotalLength(lines[..line - 1]);
        Ok(if end then base + column else base + column - 1)
  }

  function Shifted(r: Result<nat, Error>, n: nat): Result<nat, Error> {
    match r
    case Ok(o) => Ok(n + o)
    case Err(e) => Err(e)
  }

  lemma OffsetInLaterLines(lines: seq<string>, line: int, column: int, end: bool)
    requires line > 1 && column >= 1 && lines != []
    ensures OffsetInLines(lines, line, column, end) ==
            Shifted(OffsetInLines(lines[1..], line - 1, column, end), |lines[0]|)
  {
    if line <= |lines| {
      LengthAfterFirst(lines, line - 1);
    }
  }

  /** Offsets in later lines are offsets in the text after the first line. */
  lemma OffsetAfterFirstLine(s: string, line: int, column: int, end: bool)
    requires line > 1 && s != ""
    ensures SourceOffset(s, line, column, end) ==
            Shifted(SourceOffset(s[FirstLine(s)..], line - 1, column, end), FirstLine(s))
  {
    if column >= 1 {
      OffsetInLaterLines(Lines(s), line, column, end);
    }
  }

  lemma LengthAfterFirst(lines: seq<string>, n: nat)
    requires 0 < n <= |lines|
    ensures TotalLength(lines[..n]) == |lines[0]| + TotalLength(lines[1..][..n - 1])
  {
    assert lines[..n][1..] == lines[1..][..n - 1];
  }

  lemma OffsetInFirstLine(s: string, column: int, end: bool)
    requires s != ""
    ensures SourceOffset(s, 1, column, end) ==
              if column < 1 then Err(NotOneBased)
              else if column > VisibleLength(s[..FirstLine(s)]) + (if end then 1 else 0) then Err(ColumnOutOfRange)
              else Ok(if end then column else column - 1)
  {
    var lines := Lines(s);
    assert lines[0] == s[..FirstLine(s)] && lines[..0] == [];
    assert TotalLength(lines[..0]) == 0;
  }

  /** The same offset, found by walking from line to line. */
  function LineByLine(s: string, line: int, column: int, end: bool): Result<nat, Error>
    decreases |s|
  {
    if line < 1 || column < 1 then Err(NotOneBased)
    else if s == "" then Err(LineOutOfRange)
    else if line > 1 then Shifted(LineByLine(s[FirstLine(s)..], line - 1, column, end), FirstLine(s))
    else if column > VisibleLength(s[..FirstLine(s)]) + (if end then 1 else 0) then Err(ColumnOutOfRange)
    else Ok(if end then column else column - 1)
  }

  lemma {:induction false} OffsetsAgree(s: string, line: int, column: int, end: bool)
    ensures SourceOffset(s, line, column, end) == LineByLine(s, line, column, end)
    decreases |s|
  {
    if s != "" && line == 1 {
      OffsetInFirstLine(s, column, end);
    } else if s != "" && line > 1 {
      OffsetAfterFirstLine(s, line, column, end);
      OffsetsAgree(s[FirstLine(s)..], line - 1, column, end);
    }
  }

  // ----- locations, character by character

  datatype Location = Location(line: int, column: int)

  /** A line ends with the character at `i`. */
  predicate EndsLine(s: string, i: nat)
    requires i < |s|
  {
    IsLineBreak(s[i]) && !(s[i] == '\r' && i + 1 < |s| && s[i + 1] == '\n')
  }

  /** One-based line and column of the character at offset `o`. */
  function LocationOf(s: string, o: nat): (r: Location)
    requires o <= |s|
    ensures r.line >= 1 && r.column >= 1
  {
    if o == 0 then Location(1, 1)
    else
      var p := LocationOf(s, o - 1);
      if EndsLine(s, o - 1) then Location(p.line + 1, 1) else Location(p.line, p.column + 1)
  }

  predicate Before(a: Location, b: Location) {
    a.line < b.line || (a.line == b.line && a.column < b.column)
  }

  lemma {:induction false} LocationsIncrease(s: string, o: nat, o': nat)
    requires o < o' <= |s|
    ensures Before(LocationOf(s, o), LocationOf(s, o'))
    decreases o'
  {
    if o < o' - 1 {
      LocationsIncrease(s, o, o' - 1);
    }
  }

  /** Inside the first line the column counts characters. */
  lemma {:induction false} LocationInFirstLine(s: string, o: nat)
    requires o < FirstLine(s)
    ensures LocationOf(s, o) == Location(1, o + 1)
  {
    if o > 0 {
      LocationInFirstLine(s, o - 1);
      NoEndInFirstLine(s, o - 1);
    }
  }

  lemma {:induction false} NoEndInFirstLine(s: string, i: nat)
    requires i + 1 < FirstLine(s)
    ensures !EndsLine(s, i)
  {
    if i > 0 && !IsLineBreak(s[0]) {
      NoEndInFirstLine(s[1..], i - 1);
    }
  }

  lemma {:induction false} FirstLineEnds(s: string)
    requires FirstLine(s) < |s|
    ensures FirstLine(s) > 0 && EndsLine(s, FirstLine(s) - 1)
  {
    if s != "" && !IsLineBreak(s[0]) {
      FirstLineEnds(s[1..]);
    }
  }

  lemma {:induction false} LocationAfterFirstLine(s: string, o: nat)
    requires FirstLine(s) <= o < |s|
    ensures var r := LocationOf(s[FirstLine(s)..], o - FirstLine(s));
            LocationOf(s, o) == Location(r.line + 1, r.column)
    decreases o
  {
    var n := FirstLine(s);
    FirstLineEnds(s);
    if o == n {
      LocationInFirstLine(s, n - 1);
    } else {
      LocationAfterFirstLine(s, o - 1);
      assert EndsLine(s, o - 1) == EndsLine(s[n..], o - 1 - n);
    }
  }

  /** The character at `o` can be pointed at: it is not part of a `\n`, `\r` or `\r\n`. */
  predicate Visible(s: string, o: nat) {
    o < |s| && s[o] != '\n' && s[o] != '\r'
  }

  /** In the first line, the visible characters are those before `VisibleLength`. */
  lemma {:induction false} VisibleInFirstLine(s: string, o: nat)
    requires o < FirstLine(s)
    ensures Visible(s, o) <==> o < VisibleLength(s[..FirstLine(s)])
  {
    if !IsLineBreak(s[0]) {
      if FirstLine(s) > 1 {
        var rest := s[1..];
        assert s[..FirstLine(s)] == [s[0]] + rest[..FirstLine(rest)];
        if o > 0 {
          VisibleInFirstLine(rest, o - 1);
        } else {
          FirstCharVisible(s);
        }
      }
    }
  }

  lemma FirstCharVisible(s: string)
    requires s != "" && !IsLineBreak(s[0]) && FirstLine(s) > 1
    ensures VisibleLength(s[..FirstLine(s)]) > 0
  {
  }

  /**
   * `source_offset` inverts the location of a character: it answers `o` for exactly the line and
   * column of `o`, and only for characters that are not part of a line terminator.
   */
  lemma OffsetInvertsLocation(s: string, line: int, column: int, o: nat)
    ensures SourceOffset(s, line, column, false) == Ok(o) <==>
            Visible(s, o) && LocationOf(s, o) == Location(line, column)
  {
    OffsetsAgree(s, line, column, false);
    WalkInverts(s, line, column, o);
  }

  lemma {:induction false} WalkInverts(s: string, line: int, column: int, o: nat)
    ensures LineByLine(s, line, column, false) == Ok(o) <==>
            Visible(s, o) && LocationOf(s, o) == Location(line, column)
    decreases |s|
  {
    if s != "" {
      var n := FirstLine(s);
      if o < n {
        LocationInFirstLine(s, o);
        VisibleInFirstLine(s, o);
      } else {
        if o < |s| {
          LocationAfterFirstLine(s, o);
        }
        WalkInverts(s[n..], line - 1, column, o - n);
      }
    }
  }

  /** Offsets are strictly monotone in line and column. */
  lemma OffsetsIncrease(s: string, line: int, column: int, o: nat, line': int, column': int, o': nat)
    requires SourceOffset(s, line, column, false) == Ok(o)
    requires SourceOffset(s, line', column', false) == Ok(o')
    ensures o < o' <==> line < line' || (line == line' && column < column')
  {
    OffsetInvertsLocation(s, line, column, o);
    OffsetInvertsLocation(s, line', column', o');
    if o < o' {
      LocationsIncrease(s, o, o');
    } else if o' < o {
      LocationsIncrease(s, o', o);
    }
  }

  /** The end of a visible character is one past its start. */
  lemma EndFollowsStart(s: string, line: int, column: int, o: nat)
    requires SourceOffset(s, line, column, false) == Ok(o)
    ensures SourceOffset(s, line, column, true) == Ok(o + 1)
  {
  }

  // ----- editing later text leaves earlier offsets alone

  /** The texts agree before `e`, where neither goes on with `\n`. */
  predicate AgreeBefore(s: string, s': string, e: nat) {
    e < |s| && e < |s'| && s[..e] == s'[..e] && s[e] != '\n' && s'[e] != '\n'
  }

  lemma {:induction false} FirstLineLocal(s: string, s': string, e: nat)
    requires AgreeBefore(s, s', e)
    ensures FirstLine(s) <= e ==> FirstLine(s') == FirstLine(s)
    ensures FirstLine(s) > e ==> FirstLine(s') > e && forall i :: 0 <= i < e ==> !IsLineBreak(s[i])
    decreases e
  {
    if e > 0 {
      assert s[0] == s[..e][0] == s'[..e][0] == s'[0];
      if IsLineBreak(s[0]) {
        if e > 1 {
          assert s[1] == s[..e][1] == s'[..e][1] == s'[1];
        }
      } else {
        assert s[1..][..e - 1] == s[..e][1..] && s'[1..][..e - 1] == s'[..e][1..];
        FirstLineLocal(s[1..], s'[1..], e - 1);
        forall i | 0 <= i < e && FirstLine(s) > e
          ensures !IsLineBreak(s[i])
        {
          assert i > 0 ==> s[i] == s[1..][i - 1];
        }
      }
    }
  }

  lemma VisibleReaches(text: string, e: nat)
    requires e < |text| && text[e] != '\n' && forall i :: 0 <= i < e ==> !IsLineBreak(text[i])
    ensures VisibleLength(text) >= e
  {
  }

  lemma FirstLineOffsetLocal(s: string, s': string, e: nat, column: int, end: bool, o: nat)
    requires AgreeBefore(s, s', e) && column >= 1
    requires column <= VisibleLength(s[..FirstLine(s)]) + (if end then 1 else 0)
    requires column <= e
    ensures column <= VisibleLength(s'[..FirstLine(s')]) + (if end then 1 else 0)
  {
    FirstLineLocal(s, s', e);
    var n, n' := FirstLine(s), FirstLine(s');
    if n <= e {
      assert s[..n] == s[..e][..n] == s'[..e][..n] == s'[..n'];
    } else {
      assert forall i :: 0 <= i < e ==> s'[i] == s'[..e][i] == s[..e][i] == s[i];
      VisibleReaches(s'[..n'], e);
    }
  }

  /** The texts after their first line agree likewise. */
  lemma RestAgrees(s: string, s': string, e: nat, n: nat) returns (t: string, t': string)
    requires AgreeBefore(s, s', e) && n == FirstLine(s) <= e
    ensures n == FirstLine(s') && t == s[n..] && t' == s'[n..]
    ensures AgreeBefore(t, t', e - n)
  {
    FirstLineLocal(s, s', e);
    t, t' := s[n..], s'[n..];
    assert t[..e - n] == s[..e][n..] && t'[..e - n] == s'[..e][n..];
  }

  /** An offset found before an edit is found again after it. */
  lemma OffsetLocal(s: string, s': string, e: nat, line: int, column: int, end: bool, o: nat)
    requires AgreeBefore(s, s', e)
    requires SourceOffset(s, line, column, end) == Ok(o) && (if end then o <= e else o < e)
    ensures SourceOffset(s', line, column, end) == Ok(o)
  {
    OffsetsAgree(s, line, column, end);
    OffsetsAgree(s', line, column, end);
    WalkLocal(s, s', e, line, column, end, o);
  }

  lemma {:induction false} WalkLocal(s: string, s': string, e: nat, line: int, column: int, end: bool, o: nat)
    requires AgreeBefore(s, s', e)
    requires LineByLine(s, line, column, end) == Ok(o) && (if end then o <= e else o < e)
    ensures LineByLine(s', line, column, end) == Ok(o)
    decreases |s|
  {
    if line == 1 {
      FirstLineOffsetLocal(s, s', e, column, end, o);
    } else {
      var n := FirstLine(s);
      EndIsPositive(s[n..], line - 1, column, end);
      var t, t' := RestAgrees(s, s', e, n);
      WalkLocal(t, t', e - n, line - 1, column, end, o - n);
    }
  }

  lemma {:induction false} EndIsPositive(s: string, line: int, column: int, end: bool)
    ensures LineByLine(s, line, column, end).Ok? && end ==> LineByLine(s, line, column, end).value > 0
    decreases |s|
  {
    if s != "" && line > 1 {
      EndIsPositive(s[FirstLine(s)..], line - 1, column, end);
    }
  }
}
