/**
 The two pieces of the C++ standard library that the shader splitter relies on,
 modelled on values: `std::string::find` (whether a substring occurs in a line)
 and `std::getline` (how a stream's text is cut into lines), together with the
 inverse of the latter, which joins lines back with a '\n' after each.
 */
module Text {

  datatype Option<T> = None | Some(value: T)

  /** `pat` occurs in `s` starting at index `i`. */
  predicate OccursAt(s: string, pat: string, i: nat) {
    i + |pat| <= |s| && s[i..i + |pat|] == pat
  }

  /** `s.find(pat, from)`: the first index at or after `from` where `pat` occurs; `None` is `npos`. */
  function FindFrom(s: string, pat: string, from: nat): (r: Option<nat>)
    requires from <= |s|
    ensures r.Some? ==> from <= r.value && OccursAt(s, pat, r.value)
    decreases |s| - from
  {
    if OccursAt(s, pat, from) then Some(from)
    else if from == |s| then None
    else FindFrom(s, pat, from + 1)
  }

  /** `FindFrom` returns the first occurrence at or after `from`, and `None` only when there is none. */
  lemma {:induction false} FindFromFirst(s: string, pat: string, from: nat)
    requires from <= |s|
    ensures var r := FindFrom(s, pat, from);
      (r.Some? ==> from <= r.value && OccursAt(s, pat, r.value)) &&
      (forall j: nat :: from <= j && (r.None? || j < r.value) ==> !OccursAt(s, pat, j))
    decreases |s| - from
  {
    if !OccursAt(s, pat, from) && from < |s| {
      FindFromFirst(s, pat, from + 1);
    }
  }

  /** `s.find(pat) != std::string::npos`. */
  predicate Contains(s: string, pat: string) {
    FindFrom(s, pat, 0).Some?
  }

  /** `Contains` is exactly "occurs somewhere". */
  lemma ContainsIff(s: string, pat: string)
    ensures Contains(s, pat) <==> exists j: nat :: OccursAt(s, pat, j)
  {
    FindFromFirst(s, pat, 0);
    if Contains(s, pat) {
      assert OccursAt(s, pat, FindFrom(s, pat, 0).value);
    }
  }

  /** A pattern whose first character is absent from `s` is not found in `s`. */
  lemma NotContainedWithoutFirstChar(s: string, pat: string)
    requires |pat| > 0 && pat[0] !in s
    ensures !Contains(s, pat)
  {
    ContainsIff(s, pat);
    forall j: nat ensures !OccursAt(s, pat, j) {
      if j + |pat| <= |s| {
        assert s[j..j + |pat|][0] == s[j];
        assert s[j] in s;
      }
    }
  }

  /** Number of characters of `s` before its first '\n' (all of `s` when it has none). */
  function LineLength(s: string): (n: nat)
    ensures n <= |s|
    ensures forall j :: 0 <= j < n ==> s[j] != '\n'
    ensures n < |s| ==> s[n] == '\n'
  {
    if s == [] || s[0] == '\n' then 0 else 1 + LineLength(s[1..])
  }

  /**
   One successful call of `std::getline` on a stream whose unread text is `s`:
   the line it stores (without the '\n') and how many characters it consumes.
   The terminating '\n' is consumed but not stored; a last line without one is
   still delivered.
   */
  function GetLine(s: string): (r: (string, nat))
    requires s != []
    ensures '\n' !in r.0
    ensures 0 < r.1 <= |s|
    ensures s[..r.1] == r.0 + "\n" || (r.0 == s && r.1 == |s|)
  {
    var n := LineLength(s);
    assert forall c :: c in s[..n] ==> c != '\n';
    if n < |s| then (s[..n], n + 1) else (s, n)
  }

  /**
   The lines that repeated `std::getline` calls deliver from `s` until the
   first call that fails: an empty text yields none, and a trailing '\n' does
   not yield an extra empty line.
   */
  function SplitLines(s: string): (lines: seq<string>)
    ensures forall i :: 0 <= i < |lines| ==> '\n' !in lines[i]
    decreases |s|
  {
    if s == [] then []
    else
      var (line, used) := GetLine(s);
      [line] + SplitLines(s[used..])
  }

  /** Sum of the lengths of `lines`. */
  function TotalLength(lines: seq<string>): nat {
    if lines == [] then 0 else |lines[0]| + TotalLength(lines[1..])
  }

  /** Number of '\n' characters in `s`. */
  function NewlineCount(s: string): nat {
    if s == [] then 0 else (if s[0] == '\n' then 1 else 0) + NewlineCount(s[1..])
  }

  /** Each line followed by '\n', in order: what `stream << line << '\n'` accumulates. */
  function JoinLines(lines: seq<string>): (s: string)
    ensures s == [] <==> lines == []
    ensures s != [] ==> s[|s| - 1] == '\n'
    ensures |s| == TotalLength(lines) + |lines|
  {
    if lines == [] then "" else lines[0] + "\n" + JoinLines(lines[1..])
  }

  lemma {:induction false} JoinLinesAppend(lines: seq<string>, line: string)
    ensures JoinLines(lines + [line]) == JoinLines(lines) + line + "\n"
  {
    if lines != [] {
      assert (lines + [line])[1..] == lines[1..] + [line];
      JoinLinesAppend(lines[1..], line);
    }
  }

  lemma {:induction false} NewlineCountAppend(a: string, b: string)
    ensures NewlineCount(a + b) == NewlineCount(a) + NewlineCount(b)
  {
    if a == [] {
      assert a + b == b;
    } else {
      assert (a + b)[1..] == a[1..] + b;
      NewlineCountAppend(a[1..], b);
    }
  }

  lemma {:induction false} NoNewlineCountsZero(s: string)
    requires '\n' !in s
    ensures NewlineCount(s) == 0
  {
    if s != [] {
      assert s[0] in s;
      assert forall c :: c in s[1..] ==> c in s;
      NoNewlineCountsZero(s[1..]);
    }
  }

  /** When no line holds a '\n', the joined text has exactly one '\n' per line. */
  lemma {:induction false} JoinLinesNewlines(lines: seq<string>)
    requires forall i :: 0 <= i < |lines| ==> '\n' !in lines[i]
    ensures NewlineCount(JoinLines(lines)) == |lines|
  {
    if lines != [] {
      NoNewlineCountsZero(lines[0]);
      NewlineCountAppend(lines[0], "\n");
      NewlineCountAppend(lines[0] + "\n", JoinLines(lines[1..]));
      JoinLinesNewlines(lines[1..]);
    }
  }

  /** The first '\n' of `s` is at `k`. */
  lemma LineLengthAt(s: string, k: nat)
    requires k < |s| && s[k] == '\n'
    requires forall j :: 0 <= j < k ==> s[j] != '\n'
    ensures LineLength(s) == k
  {
  }

  /** A line without '\n', followed by '\n', is the first line `getline` delivers. */
  lemma SplitFirstLine(first: string, rest: string)
    requires '\n' !in first
    ensures SplitLines(first + "\n" + rest) == [first] + SplitLines(rest)
  {
    var s := first + "\n" + rest;
    forall j | 0 <= j < |first| ensures s[j] != '\n' {
      assert s[j] == first[j];
      assert first[j] in first;
    }
    LineLengthAt(s, |first|);
    assert s[..|first|] == first;
    assert s[|first| + 1..] == rest;
  }

  /** Splitting joined lines gives the lines back, provided none holds a '\n'. */
  lemma {:induction false} SplitJoin(lines: seq<string>)
    requires forall i :: 0 <= i < |lines| ==> '\n' !in lines[i]
    ensures SplitLines(JoinLines(lines)) == lines
  {
    if lines != [] {
      SplitFirstLine(lines[0], JoinLines(lines[1..]));
      SplitJoin(lines[1..]);
      assert [lines[0]] + lines[1..] == lines;
    }
  }

  /**
   Joining the lines `getline` delivers restores the text, except that a last
   line without '\n' gets one.
   */
  lemma {:induction false} JoinSplit(s: string)
    ensures JoinLines(SplitLines(s)) == if s == [] || s[|s| - 1] == '\n' then s else s + "\n"
    decreases |s|
  {
    if s != [] {
      var (line, used) := GetLine(s);
      var rest := s[used..];
      assert JoinLines(SplitLines(s)) == line + "\n" + JoinLines(SplitLines(rest));
      JoinSplit(rest);
      if s[..used] == line + "\n" {
        TerminatedFirstLine(s, line, rest);
      } else {
        assert s[|s| - 1] in line;
      }
    }
  }

  /** `s` is a terminated first line followed by `rest`: it ends in '\n' exactly when `rest` is empty or does. */
  lemma TerminatedFirstLine(s: string, line: string, rest: string)
    requires s == line + "\n" + rest
    ensures s[|s| - 1] == '\n' <==> rest == [] || rest[|rest| - 1] == '\n'
    ensures line + "\n" + (rest + "\n") == s + "\n"
  {
  }

  /**
   `getline` delivers one line per '\n' of the text, plus one for a last line
   that lacks its '\n'.
   */
  lemma {:induction false} SplitLinesCount(s: string)
    ensures |SplitLines(s)| == NewlineCount(s) + (if s != [] && s[|s| - 1] != '\n' then 1 else 0)
  {
    JoinSplit(s);
    JoinLinesNewlines(SplitLines(s));
    if s != [] && s[|s| - 1] != '\n' {
      NewlineCountAppend(s, "\n");
    }
  }

  /** A final '\n' after a last line makes no difference to the lines `getline` delivers. */
  lemma TrailingNewlineIgnored(s: string)
    requires s != [] && s[|s| - 1] != '\n'
    ensures SplitLines(s + "\n") == SplitLines(s)
  {
    JoinSplit(s);
    SplitJoin(SplitLines(s));
  }
}
