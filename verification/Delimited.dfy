/**
 * Newline-delimited byte streams: the framing that the ledger file and the
 * daemon socket share. A stream is its complete (newline-terminated) records
 * followed by an unterminated tail.
 */
module Delimited {
  import opened Wrappers
  import opened Seqs

  // The newline-terminated records of a stream, without their newlines.
  function Complete(s: Bytes): (lines: seq<Bytes>) {
    if s == [] then []
    else
      var front := s[..|s| - 1];
      if s[|s| - 1] == NEWLINE then Complete(front) + [Tail(front)] else Complete(front)
  }

  // What follows the last newline.
  function Tail(s: Bytes): (tail: Bytes)
    ensures NEWLINE !in tail
  {
    if s == [] || s[|s| - 1] == NEWLINE then []
    else Tail(s[..|s| - 1]) + [s[|s| - 1]]
  }

  // The inverse of the split: every record followed by its newline.
  function Join(lines: seq<Bytes>): Bytes {
    if lines == [] then [] else Join(lines[..|lines| - 1]) + lines[|lines| - 1] + [NEWLINE]
  }

  // One trailing carriage return is framing, not content.
  function StripCr(line: Bytes): (stripped: Bytes)
    ensures line != [] && line[|line| - 1] == 13 ==> stripped + [13] == line
    ensures line == [] || line[|line| - 1] != 13 ==> stripped == line
  {
    if line != [] && line[|line| - 1] == CARRIAGE_RETURN then line[..|line| - 1] else line
  }

  // Splitting loses nothing and puts no newline inside a record.
  lemma {:induction false} SplitIsExact(s: Bytes)
    ensures Join(Complete(s)) + Tail(s) == s
    ensures forall i :: 0 <= i < |Complete(s)| ==> NEWLINE !in Complete(s)[i]
  {
    if s != [] {
      var front := s[..|s| - 1];
      SplitIsExact(front);
      assert s == front + [s[|s| - 1]];
      if s[|s| - 1] == NEWLINE {
        var c := Complete(front) + [Tail(front)];
        assert c[..|c| - 1] == Complete(front);
        assert Join(c) == Join(Complete(front)) + Tail(front) + [NEWLINE];
      }
    }
  }

  // One more byte either ends the record in progress or extends it.
  lemma SplitStep(s: Bytes, b: byte)
    ensures Complete(s + [b]) == if b == NEWLINE then Complete(s) + [Tail(s)] else Complete(s)
    ensures Tail(s + [b]) == if b == NEWLINE then [] else Tail(s) + [b]
  {
    assert (s + [b])[..|s|] == s;
  }

  // Splitting a concatenation resumes from the tail of its first half.
  lemma {:induction false} SplitConcat(a: Bytes, b: Bytes)
    ensures Complete(a + b) == Complete(a) + Complete(Tail(a) + b)
    ensures Tail(a + b) == Tail(Tail(a) + b)
    decreases |b|
  {
    if b == [] {
      assert a + b == a && Tail(a) + b == Tail(a);
      SplitUnterminated(Tail(a));
    } else {
      var front, last := b[..|b| - 1], b[|b| - 1];
      SplitConcat(a, front);
      ConcatLast(a, b);
      ConcatLast(Tail(a), b);
      SplitStep(a + front, last);
      SplitStep(Tail(a) + front, last);
      Assoc(Complete(a), Complete(Tail(a) + front), [Tail(Tail(a) + front)]);
    }
  }

  lemma {:induction false} SplitUnterminated(s: Bytes)
    requires NEWLINE !in s
    ensures Complete(s) == [] && Tail(s) == s
  {
    if s != [] {
      SplitUnterminated(s[..|s| - 1]);
    }
  }

  // One record in front of a stream is the first record of the whole.
  lemma SplitCons(line: Bytes, rest: Bytes)
    requires NEWLINE !in line
    ensures Complete(line + [NEWLINE] + rest) == [line] + Complete(rest)
    ensures Tail(line + [NEWLINE] + rest) == Tail(rest)
  {
    SplitUnterminated(line);
    assert (line + [NEWLINE])[..|line|] == line;
    assert Complete(line + [NEWLINE]) == [line] && Tail(line + [NEWLINE]) == [];
    SplitConcat(line + [NEWLINE], rest);
    assert [] + rest == rest;
  }

  // A record appended to a stream with no tail is its new last record.
  lemma SplitSnoc(s: Bytes, line: Bytes)
    requires Tail(s) == [] && NEWLINE !in line
    ensures Complete(s + line + [NEWLINE]) == Complete(s) + [line]
    ensures Tail(s + line + [NEWLINE]) == []
  {
    SplitConcat(s, line + [NEWLINE]);
    assert s + line + [NEWLINE] == s + (line + [NEWLINE]);
    assert [] + (line + [NEWLINE]) == line + [NEWLINE] + [];
    SplitCons(line, []);
  }

  // A cut anywhere keeps a prefix of the records.
  lemma SplitPrefix(p: Bytes, s: Bytes)
    requires p <= s
    ensures Complete(p) <= Complete(s)
  {
    SplitConcat(p, s[|p|..]);
    assert p + s[|p|..] == s;
  }

  // Dropping the tail keeps every record and leaves no tail.
  lemma SplitDropTail(s: Bytes)
    ensures |Tail(s)| <= |s|
    ensures Complete(s[..|s| - |Tail(s)|]) == Complete(s)
    ensures Tail(s[..|s| - |Tail(s)|]) == []
    decreases |s|
  {
    if s != [] && s[|s| - 1] != NEWLINE {
      var front := s[..|s| - 1];
      SplitDropTail(front);
      assert s[..|s| - |Tail(s)|] == front[..|front| - |Tail(front)|];
    } else {
      assert s[..|s|] == s;
    }
  }
}
