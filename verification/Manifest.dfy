/**
 * Screen rules (`cyclops-manifest`): region slicing, clause matching and the
 * prioritized evaluation. A regular expression is whatever the engine answers
 * for it: does it match a text, and where does it match from a position.
 */
module Manifest {
  import opened Wrappers
  import opened Text
  import opened AgentStates
  import opened Escapes

  datatype Regex = Regex(isMatch: string -> bool, findAt: (string, nat) -> Option<(nat, nat)>)

  datatype Matcher = Matcher(
    unstyledOnly: bool,
    contains: seq<string>,
    regex: seq<Regex>,
    lineRegex: seq<Regex>,
    lineRegexEsc: seq<Regex>,
    regexEsc: seq<Regex>)

  datatype Region = PaneTitle | BottomNonEmptyLines(n: nat)

  datatype Rule = Rule(id: string, state: AgentState, priority: int, region: Region, matcher: Matcher, any: seq<Matcher>)

  // ---------------------------------------------------------------------
  // Region slicing
  // ---------------------------------------------------------------------

  predicate Blank(row: string) {
    forall i :: 0 <= i < |row| ==> IsWhitespace(row[i])
  }

  // The positions of the rows with something to show, top-down.
  function NonEmpty(rows: seq<string>): (at: seq<nat>)
    ensures forall k :: 0 <= k < |at| ==> at[k] < |rows| && !Blank(rows[at[k]])
  {
    if rows == [] then []
    else
      var n := |rows| - 1;
      NonEmpty(rows[..n]) + if Blank(rows[n]) then [] else [n]
  }

  // All of them, in order.
  lemma {:induction false} NonEmptyExactly(rows: seq<string>)
    ensures forall k, l :: 0 <= k < l < |NonEmpty(rows)| ==> NonEmpty(rows)[k] < NonEmpty(rows)[l]
    ensures forall i :: 0 <= i < |rows| && !Blank(rows[i]) ==> i in NonEmpty(rows)
  {
    if rows != [] {
      var front := rows[..|rows| - 1];
      NonEmptyExactly(front);
      assert forall i :: 0 <= i < |front| ==> front[i] == rows[i];
      assert forall i :: i in NonEmpty(front) ==> i in NonEmpty(rows);
    }
  }

  // The same for an escaped capture, judged on the stripped text.
  function NonEmptyEsc(rows: seq<string>): (at: seq<nat>)
    ensures forall k :: 0 <= k < |at| ==> at[k] < |rows| && !Blank(Strip(rows[at[k]]))
  {
    if rows == [] then []
    else
      var n := |rows| - 1;
      NonEmptyEsc(rows[..n]) + if Blank(Strip(rows[n])) then [] else [n]
  }

  function LastN<T>(s: seq<T>, n: nat): seq<T> {
    if |s| <= n then s else s[|s| - n..]
  }

  lemma LastNExactly<T>(s: seq<T>, n: nat)
    ensures |LastN(s, n)| == if |s| <= n then |s| else n
    ensures exists before :: s == before + LastN(s, n)
  {
    assert s == s[..|s| - |LastN(s, n)|] + LastN(s, n);
  }

  function RowsAt(rows: seq<string>, at: seq<nat>): (r: seq<string>)
    requires forall k :: 0 <= k < |at| ==> at[k] < |rows|
    ensures |r| == |at| && forall k :: 0 <= k < |at| ==> r[k] == rows[at[k]]
  {
    seq(|at|, k requires 0 <= k < |at| => rows[at[k]])
  }

  function BottomRows(rows: seq<string>, n: nat): seq<string> {
    RowsAt(rows, LastN(NonEmpty(rows), n))
  }

  function BottomRowsEsc(rows: seq<string>, n: nat): seq<string> {
    RowsAt(rows, LastN(NonEmptyEsc(rows), n))
  }

  ghost predicate Aligned(plain: seq<string>, esc: seq<string>) {
    |plain| == |esc| && forall i :: 0 <= i < |plain| ==> plain[i] == Strip(esc[i])
  }

  lemma {:induction false} SamePositions(plain: seq<string>, esc: seq<string>)
    requires Aligned(plain, esc)
    ensures NonEmptyEsc(esc) == NonEmpty(plain)
  {
    if plain != [] {
      SamePositions(plain[..|plain| - 1], esc[..|esc| - 1]);
    }
  }

  // THEOREM. When each plain row is the strip of its escaped row, every region
  // takes the same screen rows from both captures, and the rows taken are
  // aligned one to one.
  lemma RegionsAligned(plain: seq<string>, esc: seq<string>, n: nat)
    requires Aligned(plain, esc)
    ensures LastN(NonEmptyEsc(esc), n) == LastN(NonEmpty(plain), n)
    ensures Aligned(BottomRows(plain, n), BottomRowsEsc(esc, n))
  {
    SamePositions(plain, esc);
  }

  // ---------------------------------------------------------------------
  // Matching
  // ---------------------------------------------------------------------

  predicate IsEmpty(m: Matcher) {
    |m.contains| + |m.regex| + |m.lineRegex| + |m.lineRegexEsc| + |m.regexEsc| == 0
  }

  predicate Contains(text: string, part: string) {
    exists i :: 0 <= i <= |text| && OccursAt(text, part, i)
  }

  predicate SomeLine(r: Regex, lines: seq<string>) {
    exists i :: 0 <= i < |lines| && r.isMatch(lines[i])
  }

  // The offset of each row in the rows joined with newlines.
  function StartOf(rows: seq<string>, line: nat): nat
    requires line <= |rows|
  {
    if line == 0 then 0 else StartOf(rows, line - 1) + |rows[line - 1]| + 1
  }

  function Newlines(text: string): nat {
    if text == [] then 0 else Newlines(text[..|text| - 1]) + if text[|text| - 1] == '\n' then 1 else 0
  }

  // The line on which a match starting exactly at a row's first character ends.
  function EndLine(r: Regex, rows: seq<string>, line: nat): Option<nat>
    requires line < |rows|
  {
    var joined := Join(rows, '\n');
    match r.findAt(joined, StartOf(rows, line))
    case None => None
    case Some((start, end)) =>
      if start != StartOf(rows, line) then None
      else Some(Newlines(if end <= |joined| then joined[..end] else joined))
  }

  // A plain clause and its escaped twin match the same line span.
  predicate ShareSpan(plain: Regex, twin: Regex, lines: seq<string>, esc: seq<string>)
    requires |lines| == |esc|
  {
    exists line :: 0 <= line < |lines|
      && EndLine(plain, lines, line).Some? && EndLine(twin, esc, line) == EndLine(plain, lines, line)
  }

  predicate PairedSpans(m: Matcher, lines: seq<string>, esc: seq<string>) {
    || |m.regexEsc| == 0
    || (&& |m.regex| == |m.regexEsc| && |lines| == |esc|
        && forall i :: 0 <= i < |m.regex| ==> ShareSpan(m.regex[i], m.regexEsc[i], lines, esc))
  }

  predicate Matches(m: Matcher, joined: string, lines: seq<string>, esc: Option<seq<string>>) {
    && !IsEmpty(m)
    && (m.unstyledOnly ==> esc.Some? && forall i :: 0 <= i < |esc.value| ==> ESC !in esc.value[i])
    && (|m.lineRegexEsc| + |m.regexEsc| > 0 ==>
          && esc.Some?
          && (forall i :: 0 <= i < |m.lineRegexEsc| ==> SomeLine(m.lineRegexEsc[i], esc.value))
          && PairedSpans(m, lines, esc.value))
    && (forall i :: 0 <= i < |m.contains| ==> Contains(joined, m.contains[i]))
    && (forall i :: 0 <= i < |m.regex| ==> m.regex[i].isMatch(joined))
    && (forall i :: 0 <= i < |m.lineRegex| ==> SomeLine(m.lineRegex[i], lines))
  }

  // ---------------------------------------------------------------------
  // What a matcher means
  // ---------------------------------------------------------------------

  const NO_CLAUSE := Matcher(false, [], [], [], [], [])

  // The clauses of both.
  ghost function Both(m: Matcher, w: Matcher): Matcher {
    Matcher(m.unstyledOnly || w.unstyledOnly, m.contains + w.contains, m.regex + w.regex,
            m.lineRegex + w.lineRegex, m.lineRegexEsc + w.lineRegexEsc, m.regexEsc + w.regexEsc)
  }

  // Every plain clause has an escaped twin, or none has.
  ghost predicate PairsUp(m: Matcher, paired: bool) {
    |m.regexEsc| == if paired then |m.regex| else 0
  }

  lemma EachOfBoth<T>(a: seq<T>, b: seq<T>, good: T -> bool)
    ensures (forall i :: 0 <= i < |a + b| ==> good((a + b)[i])) <==>
      (forall i :: 0 <= i < |a| ==> good(a[i])) && (forall i :: 0 <= i < |b| ==> good(b[i]))
  {
    assert forall i :: 0 <= i < |a| ==> (a + b)[i] == a[i];
    assert forall i :: 0 <= i < |b| ==> (a + b)[|a| + i] == b[i];
  }

  // THEOREM. Clauses within a matcher AND together: one with the clauses of two
  // matches exactly when both do.
  lemma ClausesConjoin(m: Matcher, w: Matcher, paired: bool, joined: string, lines: seq<string>, esc: Option<seq<string>>)
    requires !IsEmpty(m) && !IsEmpty(w) && PairsUp(m, paired) && PairsUp(w, paired)
    ensures Matches(Both(m, w), joined, lines, esc) <==> Matches(m, joined, lines, esc) && Matches(w, joined, lines, esc)
  {
    EachOfBoth(m.contains, w.contains, s => Contains(joined, s));
    EachOfBoth(m.regex, w.regex, (r: Regex) => r.isMatch(joined));
    EachOfBoth(m.lineRegex, w.lineRegex, r => SomeLine(r, lines));
    if esc.Some? {
      EachOfBoth(m.lineRegexEsc, w.lineRegexEsc, r => SomeLine(r, esc.value));
      SpansConjoin(m, w, paired, lines, esc.value);
    }
  }

  lemma SpansConjoin(m: Matcher, w: Matcher, paired: bool, lines: seq<string>, esc: seq<string>)
    requires PairsUp(m, paired) && PairsUp(w, paired)
    ensures PairedSpans(Both(m, w), lines, esc) <==> PairedSpans(m, lines, esc) && PairedSpans(w, lines, esc)
  {
    var both := Both(m, w);
    if paired && |lines| == |esc| {
      assert forall i :: 0 <= i < |m.regex| ==> both.regex[i] == m.regex[i] && both.regexEsc[i] == m.regexEsc[i];
      assert forall i :: 0 <= i < |w.regex| ==>
        both.regex[|m.regex| + i] == w.regex[i] && both.regexEsc[|m.regex| + i] == w.regexEsc[i];
    }
  }

  // THEOREM. What each single clause asks for; no clause at all asks for what
  // cannot be, and so do pairs that do not pair up.
  lemma SingleClauses(part: string, r: Regex, twin: Regex, joined: string, lines: seq<string>, esc: Option<seq<string>>)
    ensures !Matches(NO_CLAUSE, joined, lines, esc) && !Matches(NO_CLAUSE.(unstyledOnly := true), joined, lines, esc)
    ensures Matches(NO_CLAUSE.(contains := [part]), joined, lines, esc) <==>
      exists before, after :: joined == before + part + after
    ensures Matches(NO_CLAUSE.(regex := [r]), joined, lines, esc) <==> r.isMatch(joined)
    ensures Matches(NO_CLAUSE.(lineRegex := [r]), joined, lines, esc) <==> exists line :: line in lines && r.isMatch(line)
    ensures Matches(NO_CLAUSE.(lineRegexEsc := [r]), joined, lines, esc) <==>
      esc.Some? && exists line :: line in esc.value && r.isMatch(line)
    ensures Matches(NO_CLAUSE.(regex := [r], regexEsc := [twin]), joined, lines, esc) <==>
      esc.Some? && r.isMatch(joined) && |lines| == |esc.value| && ShareSpan(r, twin, lines, esc.value)
    ensures !Matches(NO_CLAUSE.(regexEsc := [twin]), joined, lines, esc)
  {
    TextClause(part, joined, lines, esc);
    WholeClauses(r, joined, lines, esc);
    LineClauses(r, joined, lines, esc);
    PairClause(r, twin, joined, lines, esc);
  }

  lemma TextClause(part: string, joined: string, lines: seq<string>, esc: Option<seq<string>>)
    ensures Matches(NO_CLAUSE.(contains := [part]), joined, lines, esc) <==>
      exists before, after :: joined == before + part + after
  {
    var m := NO_CLAUSE.(contains := [part]);
    assert m.contains[0] == part;
    if Contains(joined, part) {
      var i :| 0 <= i <= |joined| && OccursAt(joined, part, i);
      assert joined == joined[..i] + part + joined[i + |part|..];
    }
    if before, after :| joined == before + part + after {
      assert joined[|before|..|before| + |part|] == part;
      assert OccursAt(joined, part, |before|);
    }
  }

  lemma WholeClauses(r: Regex, joined: string, lines: seq<string>, esc: Option<seq<string>>)
    ensures Matches(NO_CLAUSE.(regex := [r]), joined, lines, esc) <==> r.isMatch(joined)
  {
    assert NO_CLAUSE.(regex := [r]).regex[0] == r;
  }

  lemma LineClauses(r: Regex, joined: string, lines: seq<string>, esc: Option<seq<string>>)
    ensures Matches(NO_CLAUSE.(lineRegex := [r]), joined, lines, esc) <==> exists line :: line in lines && r.isMatch(line)
    ensures Matches(NO_CLAUSE.(lineRegexEsc := [r]), joined, lines, esc) <==>
      esc.Some? && exists line :: line in esc.value && r.isMatch(line)
  {
    assert NO_CLAUSE.(lineRegex := [r]).lineRegex[0] == r && NO_CLAUSE.(lineRegexEsc := [r]).lineRegexEsc[0] == r;
    assert forall rows: seq<string> :: SomeLine(r, rows) <==> exists line :: line in rows && r.isMatch(line);
  }

  lemma PairClause(r: Regex, twin: Regex, joined: string, lines: seq<string>, esc: Option<seq<string>>)
    ensures Matches(NO_CLAUSE.(regex := [r], regexEsc := [twin]), joined, lines, esc) <==>
      esc.Some? && r.isMatch(joined) && |lines| == |esc.value| && ShareSpan(r, twin, lines, esc.value)
  {
    var m := NO_CLAUSE.(regex := [r], regexEsc := [twin]);
    assert m.regex[0] == r && m.regexEsc[0] == twin;
  }

  // A matcher for unstyled screens is the same matcher on a capture with no
  // escape in it.
  lemma UnstyledOnly(m: Matcher, joined: string, lines: seq<string>, esc: Option<seq<string>>)
    ensures Matches(m.(unstyledOnly := true), joined, lines, esc) <==>
      && Matches(m.(unstyledOnly := false), joined, lines, esc)
      && esc.Some? && forall line :: line in esc.value ==> ESC !in line
  {
    assert esc.Some? ==> forall i :: 0 <= i < |esc.value| ==> esc.value[i] in esc.value;
  }

  // Pairs that do not pair up never hold.
  lemma UnevenPairs(m: Matcher, joined: string, lines: seq<string>, esc: Option<seq<string>>)
    requires 0 < |m.regexEsc| != |m.regex|
    ensures !Matches(m, joined, lines, esc)
  {
  }

  // ---------------------------------------------------------------------
  // The row an offset is on
  // ---------------------------------------------------------------------

  // The rows before `line`, each with its newline.
  ghost function Above(rows: seq<string>, line: nat): (above: string)
    requires line <= |rows|
    ensures |above| == StartOf(rows, line)
  {
    if line == 0 then [] else Above(rows, line - 1) + rows[line - 1] + ['\n']
  }

  lemma {:induction false} JoinedAbove(rows: seq<string>, line: nat)
    requires line < |rows|
    ensures Join(rows, '\n') == Above(rows, line) + Join(rows[line..], '\n')
    decreases line
  {
    if line == 0 {
      assert rows[0..] == rows;
    } else {
      JoinedAbove(rows, line - 1);
      var here := rows[line - 1..];
      assert here[0] == rows[line - 1] && here[1..] == rows[line..];
    }
  }

  lemma {:induction false} NewlinesConcat(a: string, b: string)
    ensures Newlines(a + b) == Newlines(a) + Newlines(b)
    decreases |b|
  {
    if b == [] {
      assert a + b == a;
    } else {
      assert (a + b)[..|a + b| - 1] == a + b[..|b| - 1];
      NewlinesConcat(a, b[..|b| - 1]);
    }
  }

  lemma {:induction false} NoNewlines(s: string)
    requires '\n' !in s
    ensures Newlines(s) == 0
  {
    if s != [] {
      NoNewlines(s[..|s| - 1]);
    }
  }

  lemma {:induction false} NewlinesAbove(rows: seq<string>, line: nat)
    requires line <= |rows| && forall i :: 0 <= i < |rows| ==> '\n' !in rows[i]
    ensures Newlines(Above(rows, line)) == line
  {
    if line > 0 {
      NewlinesAbove(rows, line - 1);
      OneRowMore(Above(rows, line - 1), rows[line - 1]);
    }
  }

  lemma OneRowMore(above: string, row: string)
    requires '\n' !in row
    ensures Newlines(above + row + ['\n']) == Newlines(above) + 1
  {
    NoNewlines(row);
    NewlinesConcat(above, row);
    NewlinesConcat(above + row, ['\n']);
    assert ['\n'][..0] == [];
  }

  // The offset is on the row: at its start, within it, or at its end.
  ghost predicate OnRow(rows: seq<string>, row: int, at: int) {
    0 <= row < |rows| && StartOf(rows, row) <= at <= StartOf(rows, row) + |rows[row]|
  }

  lemma OnRowCounts(rows: seq<string>, row: nat, at: nat)
    requires OnRow(rows, row, at) && forall i :: 0 <= i < |rows| ==> '\n' !in rows[i]
    ensures at <= |Join(rows, '\n')| && Newlines(Join(rows, '\n')[..at]) == row
  {
    JoinedAbove(rows, row);
    NewlinesAbove(rows, row);
    var k := at - StartOf(rows, row);
    var joined, here := Join(rows, '\n'), Join(rows[row..], '\n');
    assert rows[row..][0] == rows[row];
    assert here[..k] == rows[row][..k];
    assert joined[..at] == Above(rows, row) + rows[row][..k];
    NoNewlines(rows[row][..k]);
    NewlinesConcat(Above(rows, row), rows[row][..k]);
  }

  lemma {:induction false} SomeRow(rows: seq<string>, at: nat, from: nat) returns (row: nat)
    requires from < |rows| && StartOf(rows, from) <= at <= |Join(rows, '\n')|
    ensures OnRow(rows, row, at)
    decreases |rows| - from
  {
    JoinedAbove(rows, from);
    assert rows[from..][0] == rows[from];
    if at <= StartOf(rows, from) + |rows[from]| {
      row := from;
    } else {
      row := SomeRow(rows, at, from + 1);
    }
  }

  // THEOREM. The line a match ends on is the row its end lies on, whatever the
  // rows are: counting newlines finds it exactly.
  lemma EndLineIsRow(r: Regex, rows: seq<string>, line: nat, row: nat)
    requires line < |rows| && forall i :: 0 <= i < |rows| ==> '\n' !in rows[i]
    requires r.findAt(Join(rows, '\n'), StartOf(rows, line)).Some? ==>
      r.findAt(Join(rows, '\n'), StartOf(rows, line)).value.1 <= |Join(rows, '\n')|
    ensures EndLine(r, rows, line) == Some(row) <==>
      exists end: nat ::
        OnRow(rows, row, end) && r.findAt(Join(rows, '\n'), StartOf(rows, line)) == Some((StartOf(rows, line), end))
  {
    var found := r.findAt(Join(rows, '\n'), StartOf(rows, line));
    if found.Some? && found.value.0 == StartOf(rows, line) {
      var end := found.value.1;
      assert StartOf(rows, 0) == 0;
      var on := SomeRow(rows, end, 0);
      OnRowCounts(rows, on, end);
      if OnRow(rows, row, end) {
        OnRowCounts(rows, row, end);
      }
    }
  }

  predicate AnyMatches(rule: Rule, joined: string, lines: seq<string>, esc: Option<seq<string>>) {
    || Matches(rule.matcher, joined, lines, esc)
    || exists i :: 0 <= i < |rule.any| && Matches(rule.any[i], joined, lines, esc)
  }

  // Does a rule fire on a title and a screen, with an escaped capture or not?
  predicate Fires(rule: Rule, title: string, rows: seq<string>, esc: Option<seq<string>>) {
    match rule.region
    case PaneTitle => AnyMatches(rule, title, [title], None)
    case BottomNonEmptyLines(n) =>
      AnyMatches(rule, Join(BottomRows(rows, n), '\n'), BottomRows(rows, n),
                 if esc.Some? then Some(BottomRowsEsc(esc.value, n)) else None)
  }

  // A rule about the title sees nothing else; a rule about the screen sees the
  // last rows with something on them, of both captures, and not the title.
  lemma RegionDecides(rule: Rule, title: string, rows: seq<string>, esc: Option<seq<string>>)
    ensures Fires(rule.(region := PaneTitle), title, rows, esc) <==> AnyMatches(rule, title, [title], None)
    ensures forall n :: Fires(rule.(region := BottomNonEmptyLines(n)), title, rows, esc) <==>
      AnyMatches(rule, Join(BottomRows(rows, n), '\n'), BottomRows(rows, n),
                 match esc case Some(captured) => Some(BottomRowsEsc(captured, n)) case None => None)
  {
  }

  // A rule fires when its own clauses match or those of any alternative do.
  lemma AnyAlternative(rule: Rule, title: string, rows: seq<string>, esc: Option<seq<string>>)
    ensures Fires(rule, title, rows, esc) <==>
      || Fires(rule.(any := []), title, rows, esc)
      || exists m :: m in rule.any && Fires(rule.(matcher := m, any := []), title, rows, esc)
  {
    assert forall i :: 0 <= i < |rule.any| ==> rule.any[i] in rule.any;
  }

  // ---------------------------------------------------------------------
  // Priority
  // ---------------------------------------------------------------------

  // Rule `i` of the file is tried before rule `j`.
  predicate Before(file: seq<Rule>, i: nat, j: nat)
    requires i < |file| && j < |file|
  {
    file[i].priority > file[j].priority || (file[i].priority == file[j].priority && i < j)
  }

  // A listing of the first `n` rules of the file, each once, in trying order.
  ghost predicate Listed(file: seq<Rule>, order: seq<nat>, n: nat)
    requires n <= |file|
  {
    && |order| == n
    && (forall k :: 0 <= k < |order| ==> order[k] < n)
    && (forall i :: 0 <= i < n ==> i in order)
    && (forall k, l :: 0 <= k < l < |order| ==> Before(file, order[k], order[l]))
  }

  // The stable sort by falling priority, as positions in the file.
  function SortedOrder(file: seq<Rule>, n: nat): (order: seq<nat>)
    requires n <= |file|
    ensures Listed(file, order, n)
  {
    if n == 0 then [] else InsertLast(file, SortedOrder(file, n - 1), n - 1)
  }

  // After every rule of at least its priority, so ties keep file order.
  function InsertLast(file: seq<Rule>, order: seq<nat>, n: nat): (r: seq<nat>)
    requires n < |file| && Listed(file, order, n)
    ensures Listed(file, r, n + 1)
  {
    var k := Place(file, order, n, 0);
    InsertListed(file, order, n, k);
    order[..k] + [n] + order[k..]
  }

  lemma InsertListed(file: seq<Rule>, order: seq<nat>, n: nat, k: nat)
    requires n < |file| && Listed(file, order, n) && k <= |order|
    requires forall i :: 0 <= i < k ==> Before(file, order[i], n)
    requires forall i :: k <= i < |order| ==> Before(file, n, order[i])
    ensures Listed(file, order[..k] + [n] + order[k..], n + 1)
  {
    var r := order[..k] + [n] + order[k..];
    assert r[k] == n;
    assert forall j :: 0 <= j < |r| ==> r[j] == if j < k then order[j] else if j == k then n else order[j - 1];
    forall i | 0 <= i < n + 1
      ensures i in r
    {
      if i < n {
        assert i in order;
        var j :| 0 <= j < |order| && order[j] == i;
        assert r[if j < k then j else j + 1] == i;
      }
    }
  }

  function Place(file: seq<Rule>, order: seq<nat>, n: nat, k: nat): (place: nat)
    requires n < |file| && Listed(file, order, n) && k <= |order|
    requires forall i :: 0 <= i < k ==> Before(file, order[i], n)
    ensures place <= |order|
    ensures forall i :: 0 <= i < place ==> Before(file, order[i], n)
    ensures forall i :: place <= i < |order| ==> Before(file, n, order[i])
    decreases |order| - k
  {
    if k < |order| && file[order[k]].priority >= file[n].priority then Place(file, order, n, k + 1) else k
  }

  // The rules as a loaded manifest holds them.
  function Sorted(file: seq<Rule>): (rules: seq<Rule>)
    ensures |rules| == |file|
    ensures forall k :: 0 <= k < |file| ==> rules[k] == file[SortedOrder(file, |file|)[k]]
  {
    var order := SortedOrder(file, |file|);
    seq(|file|, k requires 0 <= k < |file| => file[order[k]])
  }

  // Which rules fire on what is seen.
  function Firing(title: string, rows: seq<string>, esc: Option<seq<string>>): Rule -> bool {
    rule => Fires(rule, title, rows, esc)
  }

  function Hits(rules: seq<Rule>, firing: Rule -> bool): (hits: seq<bool>)
    ensures |hits| == |rules| && forall j :: 0 <= j < |rules| ==> hits[j] == firing(rules[j])
  {
    seq(|rules|, j requires 0 <= j < |rules| => firing(rules[j]))
  }

  // The first hit, if there is one.
  ghost predicate FirstHit(hits: seq<bool>, winner: Option<nat>) {
    && (winner.Some? ==> winner.value < |hits| && hits[winner.value])
    && forall k :: 0 <= k < (if winner.Some? then winner.value else |hits|) ==> !hits[k]
  }

  // The first rule to fire, if any does.
  ghost predicate Wins(rules: seq<Rule>, title: string, rows: seq<string>, esc: Option<seq<string>>, winner: Option<nat>) {
    FirstHit(Hits(rules, Firing(title, rows, esc)), winner)
  }

  method EvaluateEsc(rules: seq<Rule>, title: string, rows: seq<string>, esc: Option<seq<string>>)
    returns (winner: Option<nat>)
    ensures Wins(rules, title, rows, esc, winner)
  {
    winner := FirstOf(rules, Firing(title, rows, esc));
  }

  method FirstOf(rules: seq<Rule>, firing: Rule -> bool) returns (winner: Option<nat>)
    ensures FirstHit(Hits(rules, firing), winner)
  {
    for k := 0 to |rules|
      invariant forall j :: 0 <= j < k ==> !firing(rules[j])
    {
      if firing(rules[k]) {
        return Some(k);
      }
    }
    return None;
  }

  // THEOREM. The first rule to fire in a loaded manifest is, in the file it
  // was loaded from, the firing rule of highest priority, the earliest of
  // those on a tie; and no rule fires exactly when none of the file's does.
  lemma FirstToFireWins(file: seq<Rule>, title: string, rows: seq<string>, esc: Option<seq<string>>, winner: Option<nat>)
    requires Wins(Sorted(file), title, rows, esc, winner)
    ensures winner.None? <==> forall j :: 0 <= j < |file| ==> !Fires(file[j], title, rows, esc)
    ensures winner.Some? ==>
      exists i :: 0 <= i < |file| && file[i] == Sorted(file)[winner.value] && Fires(file[i], title, rows, esc)
               && forall j :: 0 <= j < |file| && j != i && Fires(file[j], title, rows, esc) ==>
                    file[i].priority > file[j].priority || (file[i].priority == file[j].priority && i < j)
  {
    var order, hits := SortedOrder(file, |file|), Hits(file, Firing(title, rows, esc));
    assert forall j :: 0 <= j < |file| ==> hits[j] == Fires(file[j], title, rows, esc);
    var tried := Hits(Sorted(file), Firing(title, rows, esc));
    forall k: nat | k < |file|
      ensures tried[k] == hits[order[k]]
    {
      HitInOrder(file, Firing(title, rows, esc), k);
    }
    FirstHitWins(file, order, hits, tried, winner);
    if winner.Some? {
      var i := order[winner.value];
      assert file[i] == Sorted(file)[winner.value] && hits[i];
    }
  }

  lemma HitInOrder(file: seq<Rule>, firing: Rule -> bool, k: nat)
    requires k < |file|
    ensures Hits(Sorted(file), firing)[k] == Hits(file, firing)[SortedOrder(file, |file|)[k]]
  {
    assert Sorted(file)[k] == file[SortedOrder(file, |file|)[k]];
  }

  // The same for any set of rules that hit, in any listing in trying order.
  lemma FirstHitWins(file: seq<Rule>, order: seq<nat>, hits: seq<bool>, tried: seq<bool>, winner: Option<nat>)
    requires |hits| == |file| == |tried| && Listed(file, order, |file|)
    requires forall k :: 0 <= k < |file| ==> tried[k] == hits[order[k]]
    requires FirstHit(tried, winner)
    ensures winner.None? <==> forall j :: 0 <= j < |file| ==> !hits[j]
    ensures winner.Some? ==> forall j :: 0 <= j < |file| && hits[j] ==>
      j == order[winner.value] || Before(file, order[winner.value], j)
  {
    forall j | 0 <= j < |file| && hits[j]
      ensures winner.Some? && (j == order[winner.value] || Before(file, order[winner.value], j))
    {
      assert j in order;
      var k :| 0 <= k < |order| && order[k] == j;
    }
  }

  // ---------------------------------------------------------------------
  // When the escaped capture is needed
  // ---------------------------------------------------------------------

  // What the daemon asks before taking the second capture, rules only.
  predicate HasEscapedRules(rules: seq<Rule>) {
    exists i :: 0 <= i < |rules| && (AsksForEscapes(rules[i].matcher)
      || exists k :: 0 <= k < |rules[i].any| && AsksForEscapes(rules[i].any[k]))
  }

  predicate AsksForEscapes(m: Matcher) { m.unstyledOnly || |m.lineRegexEsc| > 0 }

  // The matchers of a rule, the first and its alternatives.
  ghost function Matchers(rule: Rule): seq<Matcher> { [rule.matcher] + rule.any }

  // A matcher over `n` rows that a capture can decide: it has escaped clauses
  // and, where those need a row, rows to match and as many paired clauses as
  // plain ones.
  ghost predicate Decidable(m: Matcher, n: nat) {
    && (m.unstyledOnly || |m.lineRegexEsc| + |m.regexEsc| > 0)
    && (|m.lineRegexEsc| + |m.regexEsc| > 0 ==> n > 0)
    && (|m.regexEsc| == 0 || |m.regex| == |m.regexEsc|)
  }

  ghost predicate CaptureDecides(rule: Rule) {
    && rule.region.BottomNonEmptyLines?
    && exists i :: 0 <= i < |Matchers(rule)| && Decidable(Matchers(rule)[i], rule.region.n)
  }

  // A matcher that the capture can decide holds on it.
  ghost predicate HeldByCapture(rule: Rule, rows: seq<string>, esc: seq<string>)
    requires rule.region.BottomNonEmptyLines?
  {
    var lines := BottomRows(rows, rule.region.n);
    exists i :: 0 <= i < |Matchers(rule)| && Decidable(Matchers(rule)[i], rule.region.n)
      && Matches(Matchers(rule)[i], Join(lines, '\n'), lines, Some(BottomRowsEsc(esc, rule.region.n)))
  }

  lemma MatcherWithCapture(m: Matcher, n: nat, joined: string, lines: seq<string>, esc: seq<string>)
    requires |lines| <= n && |esc| <= n
    ensures Matches(m, joined, lines, None) ==> Matches(m, joined, lines, Some(esc))
    ensures Matches(m, joined, lines, Some(esc)) ==> Matches(m, joined, lines, None) || Decidable(m, n)
  {
    if Matches(m, joined, lines, Some(esc)) {
      if |m.lineRegexEsc| > 0 { assert SomeLine(m.lineRegexEsc[0], esc); }
      if |m.regexEsc| > 0 { SpansHaveLines(m, lines, esc); }
    }
  }

  lemma SpansHaveLines(m: Matcher, lines: seq<string>, esc: seq<string>)
    requires |m.regexEsc| > 0 && PairedSpans(m, lines, esc)
    ensures lines != [] && |m.regex| == |m.regexEsc|
  {
    assert ShareSpan(m.regex[0], m.regexEsc[0], lines, esc);
  }

  lemma AnyOfMatchers(rule: Rule, joined: string, lines: seq<string>, esc: Option<seq<string>>)
    ensures AnyMatches(rule, joined, lines, esc)
       <==> exists i :: 0 <= i < |Matchers(rule)| && Matches(Matchers(rule)[i], joined, lines, esc)
  {
    assert Matchers(rule)[0] == rule.matcher;
    assert forall i :: 0 <= i < |rule.any| ==> Matchers(rule)[i + 1] == rule.any[i];
    assert forall i :: 1 <= i < |Matchers(rule)| ==> Matchers(rule)[i] == rule.any[i - 1];
  }

  // THEOREM. A capture only adds: a rule fires with one exactly when it fires
  // without, or is about the screen and a matcher the capture decides holds.
  lemma CaptureOnlyAdds(rule: Rule, title: string, rows: seq<string>, esc: seq<string>)
    ensures Fires(rule, title, rows, Some(esc)) <==>
      Fires(rule, title, rows, None) || (rule.region.BottomNonEmptyLines? && HeldByCapture(rule, rows, esc))
  {
    if rule.region.BottomNonEmptyLines? {
      var lines, taken := BottomRows(rows, rule.region.n), BottomRowsEsc(esc, rule.region.n);
      var joined := Join(lines, '\n');
      AnyOfMatchers(rule, joined, lines, None);
      AnyOfMatchers(rule, joined, lines, Some(taken));
      forall i | 0 <= i < |Matchers(rule)|
        ensures Matches(Matchers(rule)[i], joined, lines, Some(taken)) <==>
          || Matches(Matchers(rule)[i], joined, lines, None)
          || (Decidable(Matchers(rule)[i], rule.region.n) && Matches(Matchers(rule)[i], joined, lines, Some(taken)))
      {
        MatcherWithCapture(Matchers(rule)[i], rule.region.n, joined, lines, taken);
      }
    }
  }

  // A rule that no capture decides fires the same with and without.
  lemma CaptureUnneeded(rule: Rule, title: string, rows: seq<string>, esc: Option<seq<string>>)
    requires !CaptureDecides(rule)
    ensures Fires(rule, title, rows, esc) <==> Fires(rule, title, rows, None)
  {
    if esc.Some? {
      CaptureOnlyAdds(rule, title, rows, esc.value);
    }
  }

  // Paired clauses that can hold: as many as there are plain ones.
  ghost predicate Paired(m: Matcher) { 0 < |m.regexEsc| == |m.regex| }

  ghost predicate HasPairedScreenRule(rules: seq<Rule>) {
    exists i :: 0 <= i < |rules| && rules[i].region.BottomNonEmptyLines? && rules[i].region.n > 0
      && exists k :: 0 <= k < |Matchers(rules[i])| && Paired(Matchers(rules[i])[k])
  }

  lemma AsksForNone(rules: seq<Rule>, i: nat, k: nat)
    requires !HasEscapedRules(rules) && i < |rules| && k < |Matchers(rules[i])|
    ensures !AsksForEscapes(Matchers(rules[i])[k])
  {
    if k > 0 { assert Matchers(rules[i])[k] == rules[i].any[k - 1]; }
  }

  // THEOREM. A rule set that does not ask for a capture, and has no screen rule
  // with a pair of clauses to hold, gives every title and screen the same
  // verdict with any capture as with none.
  lemma UnaskedIsUnneeded(rules: seq<Rule>, title: string, rows: seq<string>, esc: Option<seq<string>>, winner: Option<nat>)
    requires !HasEscapedRules(rules) && !HasPairedScreenRule(rules)
    ensures Wins(rules, title, rows, esc, winner) <==> Wins(rules, title, rows, None, winner)
  {
    forall i: nat | i < |rules|
      ensures Fires(rules[i], title, rows, esc) <==> Fires(rules[i], title, rows, None)
    {
      forall k: nat | k < |Matchers(rules[i])|
        ensures !AsksForEscapes(Matchers(rules[i])[k])
      {
        AsksForNone(rules, i, k);
      }
      CaptureUnneeded(rules[i], title, rows, esc);
    }
    assert Hits(rules, Firing(title, rows, esc)) == Hits(rules, Firing(title, rows, None));
  }

  // ---------------------------------------------------------------------
  // When a rule that does not ask needs the capture
  // ---------------------------------------------------------------------

  // The same clauses in number, and the same literal text, with any regexes.
  ghost predicate SameMatcherShape(m: Matcher, w: Matcher) {
    && w.unstyledOnly == m.unstyledOnly && w.contains == m.contains
    && |w.regex| == |m.regex| && |w.lineRegex| == |m.lineRegex|
    && |w.lineRegexEsc| == |m.lineRegexEsc| && |w.regexEsc| == |m.regexEsc|
  }

  ghost predicate SameShape(rule: Rule, other: Rule) {
    && other.region == rule.region && |Matchers(other)| == |Matchers(rule)|
    && forall i :: 0 <= i < |Matchers(rule)| ==> SameMatcherShape(Matchers(rule)[i], Matchers(other)[i])
  }

  // Rows of a plain capture: no escapes, no line ends.
  ghost predicate PlainScreen(rows: seq<string>) {
    forall i :: 0 <= i < |rows| ==> ESC !in rows[i] && '\n' !in rows[i]
  }

  // A rule of the shape fires on a screen with its capture and not without.
  ghost predicate Differs(rule: Rule, other: Rule, title: string, rows: seq<string>, esc: seq<string>) {
    && SameShape(rule, other) && PlainScreen(rows) && Aligned(rows, esc)
    && Fires(other, title, rows, Some(esc)) && !Fires(other, title, rows, None)
  }

  ghost predicate ContainsAll(joined: string, parts: seq<string>) {
    forall i :: 0 <= i < |parts| ==> Contains(joined, parts[i])
  }

  // Literal text is all the matcher asks for.
  ghost predicate TextOnly(m: Matcher) {
    |m.contains| > 0 && |m.regex| + |m.lineRegex| + |m.lineRegexEsc| + |m.regexEsc| == 0 && !m.unstyledOnly
  }

  // A screen whose literal text leaves the verdict to the pairs of matcher `k`.
  ghost predicate LeftToPairs(rule: Rule, k: nat, rows: seq<string>) {
    && rule.region.BottomNonEmptyLines? && PlainScreen(rows)
    && var lines := BottomRows(rows, rule.region.n);
       && lines != []
       && k < |Matchers(rule)| && Paired(Matchers(rule)[k])
       && ContainsAll(Join(lines, '\n'), Matchers(rule)[k].contains)
       && forall i :: 0 <= i < |Matchers(rule)| && TextOnly(Matchers(rule)[i]) ==>
            !ContainsAll(Join(lines, '\n'), Matchers(rule)[i].contains)
  }

  ghost predicate AsksNothing(rule: Rule) {
    forall i :: 0 <= i < |Matchers(rule)| ==> !AsksForEscapes(Matchers(rule)[i])
  }

  ghost function AlwaysMatches(): Regex {
    Regex(_ => true, (text, at) => Some((at, at)))
  }

  ghost function NeverMatches(): Regex {
    Regex(_ => false, (text, at) => None)
  }

  ghost function Copies(r: Regex, n: nat): (rs: seq<Regex>)
    ensures |rs| == n && forall i :: 0 <= i < n ==> rs[i] == r
  {
    seq(n, _ => r)
  }

  ghost function Refilled(m: Matcher, r: Regex): (w: Matcher)
    ensures SameMatcherShape(m, w)
  {
    m.(regex := Copies(r, |m.regex|), lineRegex := Copies(r, |m.lineRegex|),
       lineRegexEsc := Copies(r, |m.lineRegexEsc|), regexEsc := Copies(r, |m.regexEsc|))
  }

  lemma AlwaysEndsAtZero(lines: seq<string>)
    requires lines != []
    ensures EndLine(AlwaysMatches(), lines, 0) == Some(0)
  {
    assert Join(lines, '\n')[..0] == [];
  }

  lemma PairsHold(m: Matcher, lines: seq<string>, esc: seq<string>)
    requires Paired(m) && !AsksForEscapes(m) && lines != [] && |lines| == |esc|
    requires ContainsAll(Join(lines, '\n'), m.contains)
    ensures Matches(Refilled(m, AlwaysMatches()), Join(lines, '\n'), lines, Some(esc))
    ensures !Matches(Refilled(m, AlwaysMatches()), Join(lines, '\n'), lines, None)
  {
    var w := Refilled(m, AlwaysMatches());
    AlwaysEndsAtZero(lines);
    AlwaysEndsAtZero(esc);
    assert ShareSpan(AlwaysMatches(), AlwaysMatches(), lines, esc);
    assert PairedSpans(w, lines, esc);
    assert AlwaysMatches().isMatch(lines[0]);
    assert forall i :: 0 <= i < |w.lineRegex| ==> SomeLine(w.lineRegex[i], lines);
  }

  lemma RefusedWithNever(m: Matcher, joined: string, lines: seq<string>)
    requires !AsksForEscapes(m) && (TextOnly(m) ==> !ContainsAll(joined, m.contains))
    ensures !Matches(Refilled(m, NeverMatches()), joined, lines, None)
  {
    var w := Refilled(m, NeverMatches());
    if |w.regex| > 0 { assert !w.regex[0].isMatch(joined); }
    if |w.lineRegex| > 0 { assert !SomeLine(w.lineRegex[0], lines); }
  }

  // Matcher `k` matches everywhere, the others nowhere.
  ghost function Chosen(rule: Rule, k: nat): (other: Rule)
    requires k < |Matchers(rule)|
    ensures other.region == rule.region && |Matchers(other)| == |Matchers(rule)|
    ensures forall i :: 0 <= i < |Matchers(rule)| ==>
      Matchers(other)[i] == Refilled(Matchers(rule)[i], if i == k then AlwaysMatches() else NeverMatches())
  {
    var filled := seq(|Matchers(rule)|, i requires 0 <= i < |Matchers(rule)| =>
      Refilled(Matchers(rule)[i], if i == k then AlwaysMatches() else NeverMatches()));
    rule.(matcher := filled[0], any := filled[1..])
  }

  lemma ChosenDiffers(rule: Rule, k: nat, rows: seq<string>, title: string)
    requires AsksNothing(rule) && LeftToPairs(rule, k, rows)
    ensures Differs(rule, Chosen(rule, k), title, rows, rows)
  {
    var other, n := Chosen(rule, k), rule.region.n;
    PlainIsAligned(rows);
    RegionsAligned(rows, rows, n);
    var lines, esc := BottomRows(rows, n), BottomRowsEsc(rows, n);
    var joined := Join(lines, '\n');
    AnyOfMatchers(other, joined, lines, None);
    AnyOfMatchers(other, joined, lines, Some(esc));
    PairsHold(Matchers(rule)[k], lines, esc);
    assert Matches(Matchers(other)[k], joined, lines, Some(esc));
    forall i | 0 <= i < |Matchers(other)|
      ensures !Matches(Matchers(other)[i], joined, lines, None)
    {
      if i != k { RefusedWithNever(Matchers(rule)[i], joined, lines); }
    }
  }

  lemma PlainIsAligned(rows: seq<string>)
    requires PlainScreen(rows)
    ensures Aligned(rows, rows)
  {
    forall i | 0 <= i < |rows|
      ensures Strip(rows[i]) == rows[i]
    {
      WordsKept(rows[i], []);
      assert rows[i] + [] == rows[i];
    }
  }

  lemma DiffersLeftToPairs(rule: Rule, other: Rule, title: string, rows: seq<string>, esc: seq<string>)
    requires AsksNothing(rule) && Differs(rule, other, title, rows, esc)
    ensures exists k :: LeftToPairs(rule, k, rows)
  {
    CaptureOnlyAdds(other, title, rows, esc);
    var n := rule.region.n;
    var lines, taken := BottomRows(rows, n), BottomRowsEsc(esc, n);
    var joined := Join(lines, '\n');
    AnyOfMatchers(other, joined, lines, None);
    var k :| 0 <= k < |Matchers(other)| && Decidable(Matchers(other)[k], n)
          && Matches(Matchers(other)[k], joined, lines, Some(taken));
    assert SameMatcherShape(Matchers(rule)[k], Matchers(other)[k]);
    assert !AsksForEscapes(Matchers(rule)[k]);
    SpansHaveLines(Matchers(other)[k], lines, taken);
    forall i | 0 <= i < |Matchers(rule)| && TextOnly(Matchers(rule)[i])
      ensures !ContainsAll(joined, Matchers(rule)[i].contains)
    {
      assert SameMatcherShape(Matchers(rule)[i], Matchers(other)[i]);
      assert !Matches(Matchers(other)[i], joined, lines, None);
    }
    assert LeftToPairs(rule, k, rows);
  }

  // THEOREM. A rule that does not ask for a capture needs one, for some regexes
  // in its place on some screen, if and only if it has a matcher with pairs and
  // a screen whose literal text neither refuses that matcher nor settles the
  // rule by itself.
  lemma NeedsCaptureExactly(rule: Rule)
    requires AsksNothing(rule)
    ensures (exists other, title, rows, esc :: Differs(rule, other, title, rows, esc)) <==>
      exists k, rows :: LeftToPairs(rule, k, rows)
  {
    if k, rows :| LeftToPairs(rule, k, rows) {
      ChosenDiffers(rule, k, rows, "");
    }
    if other, title, rows, esc :| Differs(rule, other, title, rows, esc) {
      DiffersLeftToPairs(rule, other, title, rows, esc);
    }
  }

  // THEOREM. So any one matcher with pairs about at least one row needs it,
  // whatever its literal text, as long as a row can hold that text.
  lemma PairedMatcherNeedsCapture(rule: Rule)
    requires AsksNothing(rule) && rule.any == [] && rule.region.BottomNonEmptyLines? && rule.region.n > 0
    requires Paired(rule.matcher) && PlainScreen(rule.matcher.contains)
    ensures !HasEscapedRules([rule])
    ensures exists other, title, rows, esc :: Differs(rule, other, title, rows, esc)
  {
    var row := RowHolding(rule.matcher.contains);
    LeftOnOneRow(rule, row);
    ChosenDiffers(rule, 0, [row], "");
    NothingAsked(rule);
  }

  lemma NothingAsked(rule: Rule)
    requires AsksNothing(rule)
    ensures !HasEscapedRules([rule])
  {
    assert Matchers(rule)[0] == rule.matcher;
    assert forall i :: 0 <= i < |rule.any| ==> Matchers(rule)[i + 1] == rule.any[i];
  }

  lemma LeftOnOneRow(rule: Rule, row: string)
    requires rule.any == [] && rule.region.BottomNonEmptyLines? && rule.region.n > 0 && Paired(rule.matcher)
    requires ESC !in row && '\n' !in row && row != [] && row[|row| - 1] == 'x'
    requires ContainsAll(Join([row], '\n'), rule.matcher.contains)
    ensures LeftToPairs(rule, 0, [row])
  {
    OneRow(row, rule.region.n);
    assert Matchers(rule) == [rule.matcher];
  }

  lemma RowHolding(parts: seq<string>) returns (row: string)
    requires PlainScreen(parts)
    ensures ESC !in row && '\n' !in row && row != [] && row[|row| - 1] == 'x'
    ensures ContainsAll(Join([row], '\n'), parts)
  {
    row := Concat(parts) + "x";
    ConcatHolds(parts);
    assert Join([row], '\n') == row;
    forall i | 0 <= i < |parts|
      ensures Contains(row, parts[i])
    {
      OccursInLonger(Concat(parts), "x", parts[i]);
    }
  }

  ghost function Concat(parts: seq<string>): string {
    if parts == [] then [] else Concat(parts[..|parts| - 1]) + parts[|parts| - 1]
  }

  lemma {:induction false} ConcatHolds(parts: seq<string>)
    requires PlainScreen(parts)
    ensures ESC !in Concat(parts) && '\n' !in Concat(parts)
    ensures ContainsAll(Concat(parts), parts)
    decreases |parts|
  {
    if parts != [] {
      var n := |parts| - 1;
      var front, all := Concat(parts[..n]), Concat(parts);
      ConcatHolds(parts[..n]);
      assert Contains(all, parts[n]) by { assert OccursAt(all, parts[n], |front|); }
      forall i | 0 <= i < n
        ensures Contains(all, parts[i])
      {
        assert parts[..n][i] == parts[i];
        OccursInLonger(front, parts[n], parts[i]);
      }
    }
  }

  lemma OccursInLonger(s: string, more: string, part: string)
    requires Contains(s, part)
    ensures Contains(s + more, part)
  {
    var at :| 0 <= at <= |s| && OccursAt(s, part, at);
    assert (s + more)[at..at + |part|] == s[at..at + |part|];
    assert OccursAt(s + more, part, at);
  }

  lemma OneRow(row: string, n: nat)
    requires ESC !in row && '\n' !in row && n > 0 && row != [] && row[|row| - 1] == 'x'
    ensures PlainScreen([row]) && BottomRows([row], n) == [row]
  {
    assert [row][..0] == [];
    assert !Blank(row);
    assert NonEmpty([row]) == [0];
  }

  // The least such rule, on one row.
  lemma PairedClauseNeedsCapture()
    ensures var always := AlwaysMatches();
      var rule := Rule("r", Idle, 0, BottomNonEmptyLines(1), Matcher(false, [], [always], [], [], [always]), []);
      !HasEscapedRules([rule]) && Fires(rule, "", ["x"], Some(["x"])) && !Fires(rule, "", ["x"], None)
  {
    var m := Matcher(false, [], [AlwaysMatches()], [], [], [AlwaysMatches()]);
    var rule := Rule("r", Idle, 0, BottomNonEmptyLines(1), m, []);
    assert Matchers(rule) == [m];
    NothingAsked(rule);
    LeftOnOneRow(rule, "x");
    ChosenDiffers(rule, 0, ["x"], "");
    ChosenIsItself(rule, m);
  }

  lemma ChosenIsItself(rule: Rule, m: Matcher)
    requires m == Matcher(false, [], [AlwaysMatches()], [], [], [AlwaysMatches()])
    requires rule.matcher == m && rule.any == []
    ensures Chosen(rule, 0) == rule
  {
    assert Matchers(rule) == [m];
    assert Refilled(m, AlwaysMatches()) == m;
    assert Matchers(Chosen(rule, 0))[0] == m;
  }
}
