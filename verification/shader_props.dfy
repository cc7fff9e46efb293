/**
 What the shader source splitter promises, stated against reference
 definitions that describe each input line on its own: the mode in force when
 it is read (`ModeAfter` of the lines before it) and, from that, the buffer it
 belongs to (`Assigned`).
 */
module ShaderProps {
  import opened Text
  import opened ShaderParse

  const VertexMarkerLine := "#shader vertex"
  const FragmentMarkerLine := "#shader fragment"

  /** The mode in force after reading `lines`, starting from `NoShader`. */
  function ModeAfter(lines: seq<string>): ShaderType {
    if lines == [] then NoShader
    else NextMode(lines[|lines| - 1], ModeAfter(lines[..|lines| - 1]))
  }

  /** Line `i` is a content line read before any marker set a mode: the C++ code writes it to buffer -1. */
  predicate Unmarked(lines: seq<string>, i: nat) {
    i < |lines| && !IsMarker(lines[i]) && ModeAfter(lines[..i]) == NoShader
  }

  /** No content line precedes the first mode-setting marker. */
  predicate WellFormed(lines: seq<string>) {
    forall i: nat :: i < |lines| ==> !Unmarked(lines, i)
  }

  /** `k` is the first line that is `Unmarked`. */
  predicate FirstUnmarked(lines: seq<string>, k: nat) {
    Unmarked(lines, k) && forall j: nat :: j < k ==> !Unmarked(lines, j)
  }

  /** The content lines read while the mode is `t`, in input order. */
  function Assigned(lines: seq<string>, t: ShaderType): seq<string> {
    if lines == [] then []
    else
      var prefix, last := lines[..|lines| - 1], lines[|lines| - 1];
      Assigned(prefix, t) + (if !IsMarker(last) && ModeAfter(prefix) == t then [last] else [])
  }

  /** Number of marker lines in `lines`. */
  function MarkerCount(lines: seq<string>): nat {
    if lines == [] then 0
    else MarkerCount(lines[..|lines| - 1]) + (if IsMarker(lines[|lines| - 1]) then 1 else 0)
  }

  /** The output buffer of mode `t`. */
  function Buffer(src: ShaderProgramSource, t: ShaderType): string {
    if t == Vertex then src.vertexSource else src.fragmentSource
  }

  /** Whether a line is `Unmarked` depends only on the lines up to it. */
  lemma UnmarkedInPrefix(lines: seq<string>, k: nat)
    requires k <= |lines|
    ensures forall i: nat :: i < k ==> (Unmarked(lines, i) <==> Unmarked(lines[..k], i))
  {
    forall i: nat | i < k ensures Unmarked(lines, i) <==> Unmarked(lines[..k], i) {
      assert lines[..k][..i] == lines[..i];
    }
  }

  lemma ReferenceSnoc(prefix: seq<string>, last: string, t: ShaderType)
    ensures ModeAfter(prefix + [last]) == NextMode(last, ModeAfter(prefix))
    ensures Assigned(prefix + [last], t) == Assigned(prefix, t) +
      (if !IsMarker(last) && ModeAfter(prefix) == t then [last] else [])
  {
    assert (prefix + [last])[..|prefix|] == prefix;
  }

  /** One `Step` from a state that matches the reference on `prefix` matches it on `prefix + [last]`. */
  lemma StepMatchesReference(prefix: seq<string>, last: string, st: ScanState)
    requires st == ScanState(ModeAfter(prefix), JoinLines(Assigned(prefix, Vertex)), JoinLines(Assigned(prefix, Fragment)))
    requires Step(st, last, |prefix|).Ok?
    ensures Step(st, last, |prefix|).value == ScanState(ModeAfter(prefix + [last]),
      JoinLines(Assigned(prefix + [last], Vertex)), JoinLines(Assigned(prefix + [last], Fragment)))
  {
    ReferenceSnoc(prefix, last, Vertex);
    ReferenceSnoc(prefix, last, Fragment);
    var vs, fs := Assigned(prefix, Vertex), Assigned(prefix, Fragment);
    if IsMarker(last) {
      assert Assigned(prefix + [last], Vertex) == vs + [];
      assert Assigned(prefix + [last], Fragment) == fs + [];
      assert vs + [] == vs && fs + [] == fs;
    } else if st.mode == Vertex {
      assert Step(st, last, |prefix|) == Ok(st.(vertex := JoinLines(vs) + last + "\n"));
      assert Assigned(prefix + [last], Vertex) == vs + [last];
      assert Assigned(prefix + [last], Fragment) == fs + [];
      assert fs + [] == fs;
      JoinLinesAppend(vs, last);
    } else {
      assert st.mode == Fragment;
      assert Step(st, last, |prefix|) == Ok(st.(fragment := JoinLines(fs) + last + "\n"));
      assert Assigned(prefix + [last], Vertex) == vs + [];
      assert Assigned(prefix + [last], Fragment) == fs + [last];
      assert vs + [] == vs;
      JoinLinesAppend(fs, last);
    }
  }

  /** One pass of the loop agrees with the line-by-line reference definitions. */
  lemma {:induction false} ScanMatchesReference(lines: seq<string>)
    ensures Scan(lines).Ok? <==> WellFormed(lines)
    ensures Scan(lines).Ok? ==> Scan(lines).value == ScanState(
      ModeAfter(lines), JoinLines(Assigned(lines, Vertex)), JoinLines(Assigned(lines, Fragment)))
    ensures Scan(lines).Err? ==> FirstUnmarked(lines, Scan(lines).error.lineIndex)
  {
    if lines != [] {
      var n := |lines| - 1;
      var prefix, last := lines[..n], lines[n];
      assert lines == prefix + [last];
      ScanMatchesReference(prefix);
      UnmarkedInPrefix(lines, n);
      assert Unmarked(lines, n) <==> !IsMarker(last) && ModeAfter(prefix) == NoShader;
      match Scan(prefix)
      case Err(e) =>
        ScanErrorPersists(prefix, [last]);
        assert Unmarked(lines, e.lineIndex);
      case Ok(st) =>
        ScanSnoc(prefix, last, st);
        if Step(st, last, n).Ok? {
          StepMatchesReference(prefix, last, st);
        }
    }
  }

  /**
   The splitter succeeds exactly when no content line comes before the first
   mode-setting marker; it then returns, for each mode, its content lines each
   followed by '\n', and otherwise it reports the first offending line.
   */
  lemma ParseLinesMatchesReference(lines: seq<string>)
    ensures ParseLines(lines).Ok? <==> WellFormed(lines)
    ensures ParseLines(lines).Ok? ==> ParseLines(lines).value == ShaderProgramSource(
      JoinLines(Assigned(lines, Vertex)), JoinLines(Assigned(lines, Fragment)))
    ensures ParseLines(lines).Err? ==> FirstUnmarked(lines, ParseLines(lines).error.lineIndex)
  {
    ScanMatchesReference(lines);
  }

  /** A successful parse returns, for each mode, its content lines joined. */
  lemma ParseLinesOk(lines: seq<string>, src: ShaderProgramSource)
    requires ParseLines(lines) == Ok(src)
    ensures src == ShaderProgramSource(JoinLines(Assigned(lines, Vertex)), JoinLines(Assigned(lines, Fragment)))
  {
    ScanMatchesReference(lines);
  }

  /** Once the mode has left `NoShader` it never returns to it. */
  lemma {:induction false} ModeNeverReturnsToNone(lines: seq<string>, i: nat, j: nat)
    requires i <= j <= |lines| && ModeAfter(lines[..i]) != NoShader
    ensures ModeAfter(lines[..j]) != NoShader
    decreases j
  {
    if j > i {
      ModeNeverReturnsToNone(lines, i, j - 1);
      assert lines[..j][..j - 1] == lines[..j - 1];
    }
  }

  /** The mode changes only on a marker line. */
  lemma ModeChangesOnlyOnMarkers(lines: seq<string>, i: nat)
    requires i < |lines| && ModeAfter(lines[..i + 1]) != ModeAfter(lines[..i])
    ensures IsMarker(lines[i])
  {
    assert lines[..i + 1][..i] == lines[..i];
  }

  /** Every line that lands in a buffer is a content line of the input: a marker line is never copied. */
  lemma {:induction false} AssignedAreContentLines(lines: seq<string>, t: ShaderType)
    ensures forall k :: 0 <= k < |Assigned(lines, t)| ==>
      !IsMarker(Assigned(lines, t)[k]) && Assigned(lines, t)[k] in lines
  {
    if lines != [] {
      var prefix := lines[..|lines| - 1];
      AssignedAreContentLines(prefix, t);
      assert forall l :: l in prefix ==> l in lines;
    }
  }

  /**
   In a well-formed input every line is either a marker or lands in exactly
   one of the two buffers.
   */
  lemma {:induction false} LinesPartitioned(lines: seq<string>)
    requires WellFormed(lines)
    ensures |Assigned(lines, Vertex)| + |Assigned(lines, Fragment)| + MarkerCount(lines) == |lines|
  {
    if lines != [] {
      var n := |lines| - 1;
      var prefix := lines[..n];
      UnmarkedInPrefix(lines, n);
      assert !Unmarked(lines, n);
      LinesPartitioned(prefix);
    }
  }

  /**
   Each output is empty or ends in '\n'; its length is the total length of the
   lines assigned to it plus one per line; and, for lines without '\n', it
   holds exactly one '\n' per assigned line.
   */
  lemma BufferShape(lines: seq<string>, src: ShaderProgramSource, t: ShaderType)
    requires ParseLines(lines) == Ok(src) && t != NoShader
    ensures Buffer(src, t) == [] || Buffer(src, t)[|Buffer(src, t)| - 1] == '\n'
    ensures |Buffer(src, t)| == TotalLength(Assigned(lines, t)) + |Assigned(lines, t)|
    ensures (forall i :: 0 <= i < |lines| ==> '\n' !in lines[i]) ==>
      NewlineCount(Buffer(src, t)) == |Assigned(lines, t)|
  {
    ParseLinesOk(lines, src);
    assert Buffer(src, t) == JoinLines(Assigned(lines, t));
    if forall i :: 0 <= i < |lines| ==> '\n' !in lines[i] {
      AssignedWithoutNewlines(lines, t);
      JoinLinesNewlines(Assigned(lines, t));
    }
  }

  /** Lines without '\n' give buffered lines without '\n'. */
  lemma AssignedWithoutNewlines(lines: seq<string>, t: ShaderType)
    requires forall i :: 0 <= i < |lines| ==> '\n' !in lines[i]
    ensures forall k :: 0 <= k < |Assigned(lines, t)| ==> '\n' !in Assigned(lines, t)[k]
  {
    var owned := Assigned(lines, t);
    AssignedAreContentLines(lines, t);
    forall k | 0 <= k < |owned| ensures '\n' !in owned[k] {
      var i :| 0 <= i < |lines| && lines[i] == owned[k];
    }
  }

  /** Without any marker line, the first line of a non-empty input is already an error. */
  lemma NoMarkersIsError(lines: seq<string>)
    requires lines != [] && forall i :: 0 <= i < |lines| ==> !IsMarker(lines[i])
    ensures ParseLines(lines) == Err(UnmarkedContent(0))
  {
    ParseLinesMatchesReference(lines);
    assert Unmarked(lines, 0);
  }

  /** The marker lines the shader files use select the intended mode. */
  lemma StandardMarkers(mode: ShaderType)
    ensures IsMarker(VertexMarkerLine) && NextMode(VertexMarkerLine, mode) == Vertex
    ensures IsMarker(FragmentMarkerLine) && NextMode(FragmentMarkerLine, mode) == Fragment
  {
    assert OccursAt(VertexMarkerLine, ShaderMarker, 0);
    assert OccursAt(VertexMarkerLine, VertexKeyword, 8);
    assert OccursAt(FragmentMarkerLine, ShaderMarker, 0);
    assert OccursAt(FragmentMarkerLine, FragmentKeyword, 8);
    ContainsIff(VertexMarkerLine, ShaderMarker);
    ContainsIff(VertexMarkerLine, VertexKeyword);
    ContainsIff(FragmentMarkerLine, ShaderMarker);
    ContainsIff(FragmentMarkerLine, FragmentKeyword);
    NotContainedWithoutFirstChar(VertexMarkerLine, FragmentKeyword);
  }

  /** The buffer of mode `t` in `st` with `text` appended. */
  function AppendTo(st: ScanState, t: ShaderType, text: string): ScanState {
    if t == Vertex then st.(vertex := st.vertex + text) else st.(fragment := st.fragment + text)
  }

  lemma AppendToTwice(st: ScanState, t: ShaderType, a: string, b: string)
    ensures AppendTo(AppendTo(st, t, a), t, b) == AppendTo(st, t, a + b)
  {
    assert st.vertex + a + b == st.vertex + (a + b);
    assert st.fragment + a + b == st.fragment + (a + b);
  }

  /** A content line read in mode `Vertex` or `Fragment` is appended, with its '\n', to that buffer. */
  lemma ContentStep(st: ScanState, line: string, index: nat)
    requires !IsMarker(line) && st.mode != NoShader
    ensures Step(st, line, index) == Ok(AppendTo(st, st.mode, line + "\n"))
  {
    if st.mode == Vertex {
      assert st.vertex + line + "\n" == st.vertex + (line + "\n");
    } else {
      assert st.fragment + line + "\n" == st.fragment + (line + "\n");
    }
  }

  /**
   A marker that selects a mode, followed by content lines: the lines are
   appended, joined, to the buffer of that mode.
   */
  lemma MarkedSection(prefix: seq<string>, marker: string, block: seq<string>, st: ScanState)
    requires Scan(prefix) == Ok(st)
    requires IsMarker(marker) && NextMode(marker, st.mode) != NoShader
    requires forall i :: 0 <= i < |block| ==> !IsMarker(block[i])
    ensures var t := NextMode(marker, st.mode);
      Scan(prefix + [marker] + block) == Ok(AppendTo(st.(mode := t), t, JoinLines(block)))
  {
    ScanSnoc(prefix, marker, st);
    ScanContentBlock(prefix + [marker], block, st.(mode := NextMode(marker, st.mode)));
  }

  /** A block of content lines read in a set mode is appended, joined, to that mode's buffer. */
  lemma {:induction false} ScanContentBlock(prefix: seq<string>, block: seq<string>, st: ScanState)
    requires Scan(prefix) == Ok(st) && st.mode != NoShader
    requires forall i :: 0 <= i < |block| ==> !IsMarker(block[i])
    ensures Scan(prefix + block) == Ok(AppendTo(st, st.mode, JoinLines(block)))
    decreases |block|
  {
    if block == [] {
      assert prefix + block == prefix;
      assert st.vertex + JoinLines(block) == st.vertex;
      assert st.fragment + JoinLines(block) == st.fragment;
    } else {
      var n := |block| - 1;
      var init, last := block[..n], block[n];
      assert init + [last] == block;
      ScanContentBlock(prefix, init, st);
      ContentBlockSnoc(prefix, init, last, st);
    }
  }

  /** The step of `ScanContentBlock`: one more content line after a block already appended. */
  lemma ContentBlockSnoc(prefix: seq<string>, init: seq<string>, last: string, st: ScanState)
    requires Scan(prefix + init) == Ok(AppendTo(st, st.mode, JoinLines(init))) && st.mode != NoShader
    requires !IsMarker(last)
    ensures Scan(prefix + (init + [last])) == Ok(AppendTo(st, st.mode, JoinLines(init + [last])))
  {
    var mid := AppendTo(st, st.mode, JoinLines(init));
    ScanSnoc(prefix + init, last, mid);
    ContentStep(mid, last, |prefix + init|);
    assert prefix + init + [last] == prefix + (init + [last]);
    JoinLinesAppend(init, last);
    assert JoinLines(init) + (last + "\n") == JoinLines(init + [last]);
    AppendToTwice(st, st.mode, JoinLines(init), last + "\n");
  }

  /** A file written as a vertex section followed by a fragment section splits into the two sections. */
  lemma TwoSections(vertexLines: seq<string>, fragmentLines: seq<string>)
    requires forall i :: 0 <= i < |vertexLines| ==> !IsMarker(vertexLines[i])
    requires forall i :: 0 <= i < |fragmentLines| ==> !IsMarker(fragmentLines[i])
    ensures ParseLines([VertexMarkerLine] + vertexLines + [FragmentMarkerLine] + fragmentLines)
      == Ok(ShaderProgramSource(JoinLines(vertexLines), JoinLines(fragmentLines)))
  {
    var v := [VertexMarkerLine] + vertexLines;
    VertexSection(vertexLines);
    var st1 := ScanState(Vertex, JoinLines(vertexLines), "");
    StandardMarkers(Vertex);
    MarkedSection(v, FragmentMarkerLine, fragmentLines, st1);
    assert "" + JoinLines(fragmentLines) == JoinLines(fragmentLines);
  }

  /** The first half of `TwoSections`: the vertex marker and the vertex lines. */
  lemma VertexSection(vertexLines: seq<string>)
    requires forall i :: 0 <= i < |vertexLines| ==> !IsMarker(vertexLines[i])
    ensures Scan([VertexMarkerLine] + vertexLines) == Ok(ScanState(Vertex, JoinLines(vertexLines), ""))
  {
    StandardMarkers(NoShader);
    FirstSection(VertexMarkerLine, vertexLines);
  }

  /** A file that opens with a mode-selecting marker and content lines. */
  lemma FirstSection(marker: string, block: seq<string>)
    requires IsMarker(marker) && NextMode(marker, NoShader) == Vertex
    requires forall i :: 0 <= i < |block| ==> !IsMarker(block[i])
    ensures Scan([marker] + block) == Ok(ScanState(Vertex, JoinLines(block), ""))
  {
    var none: seq<string> := [];
    assert Scan(none) == Ok(Start);
    MarkedSection(none, marker, block, Start);
    assert none + [marker] == [marker];
    assert "" + JoinLines(block) == JoinLines(block);
  }

  /**
   Writing the two outputs back as a file, each behind its marker line, and
   splitting that file again gives the same two outputs.
   */
  lemma ResplitReproduces(lines: seq<string>, src: ShaderProgramSource)
    requires ParseLines(lines) == Ok(src)
    requires forall i :: 0 <= i < |lines| ==> '\n' !in lines[i]
    ensures ParseLines([VertexMarkerLine] + SplitLines(src.vertexSource)
                       + [FragmentMarkerLine] + SplitLines(src.fragmentSource)) == Ok(src)
  {
    ParseLinesMatchesReference(lines);
    var vs, fs := Assigned(lines, Vertex), Assigned(lines, Fragment);
    AssignedWithoutNewlines(lines, Vertex);
    AssignedWithoutNewlines(lines, Fragment);
    AssignedAreContentLines(lines, Vertex);
    AssignedAreContentLines(lines, Fragment);
    SplitJoin(vs);
    SplitJoin(fs);
    TwoSections(vs, fs);
  }

  /** A two-section file: the vertex source is "A\n" and the fragment source "B\nC\n". */
  lemma TwoSectionsExample()
    ensures ParseLines(["#shader vertex", "A", "#shader fragment", "B", "C"])
      == Ok(ShaderProgramSource("A\n", "B\nC\n"))
  {
    NotContainedWithoutFirstChar("A", ShaderMarker);
    NotContainedWithoutFirstChar("B", ShaderMarker);
    NotContainedWithoutFirstChar("C", ShaderMarker);
    TwoSections(["A"], ["B", "C"]);
    assert JoinLines(["A"]) == "A\n" by {
      assert ["A"][1..] == [];
    }
    assert JoinLines(["B", "C"]) == "B\nC\n" by {
      assert ["B", "C"][1..] == ["C"];
      assert ["C"][1..] == [];
    }
    assert [VertexMarkerLine] + ["A"] + [FragmentMarkerLine] + ["B", "C"]
      == ["#shader vertex", "A", "#shader fragment", "B", "C"];
  }

  /**
   A marker line naming both keywords selects the fragment buffer, since the
   fragment keyword is tested second: whatever the mode before it, the content
   lines after it are appended to the fragment buffer and the vertex buffer is
   left as it was.
   */
  lemma BothKeywordsFragmentWins(prefix: seq<string>, marker: string, block: seq<string>, st: ScanState)
    requires Scan(prefix) == Ok(st)
    requires IsMarker(marker) && Contains(marker, VertexKeyword) && Contains(marker, FragmentKeyword)
    requires forall i :: 0 <= i < |block| ==> !IsMarker(block[i])
    ensures Scan(prefix + [marker] + block)
      == Ok(ScanState(Fragment, st.vertex, st.fragment + JoinLines(block)))
  {
    MarkedSection(prefix, marker, block, st);
  }

  /** The marker `#shader vertex fragment` names both keywords. */
  lemma BothKeywordsMarker()
    ensures var m := "#shader vertex fragment";
      IsMarker(m) && Contains(m, VertexKeyword) && Contains(m, FragmentKeyword)
  {
    var m := "#shader vertex fragment";
    assert OccursAt(m, ShaderMarker, 0);
    assert OccursAt(m, VertexKeyword, 8);
    assert OccursAt(m, FragmentKeyword, 15);
    ContainsIff(m, VertexKeyword);
    ContainsIff(m, FragmentKeyword);
  }

  /** The marker `#shader vertex fragment` followed by one line sends that line to the fragment buffer. */
  lemma BothKeywordsExample()
    ensures ParseLines(["#shader vertex fragment", "A"]) == Ok(ShaderProgramSource("", "A\n"))
  {
    var marker := "#shader vertex fragment";
    BothKeywordsMarker();
    NotContainedWithoutFirstChar("A", ShaderMarker);
    assert Scan([]) == Ok(Start);
    BothKeywordsFragmentWins([], marker, ["A"], Start);
    assert [] + [marker] + ["A"] == ["#shader vertex fragment", "A"];
    assert JoinLines(["A"]) == "A\n" by {
      assert ["A"][1..] == [];
    }
    assert Scan(["#shader vertex fragment", "A"]) == Ok(ScanState(Fragment, "", "" + "A\n"));
    assert "" + "A\n" == "A\n";
  }

  /**
   A content line before the first marker: as written, the C++ code indexes its
   buffer array with the value of `NoShader`, which is -1 and outside the two
   buffers; the model reports line 0 instead.
   */
  lemma LeadingContentIndexesMinusOne()
    ensures var lines := ["X", "#shader vertex", "Y"];
      !IsMarker(lines[0]) && ModeAfter(lines[..0]).Value() == -1
      && ParseLines(lines) == Err(UnmarkedContent(0))
  {
    var lines := ["X", "#shader vertex", "Y"];
    NotContainedWithoutFirstChar("X", ShaderMarker);
    assert lines[..0] == [];
    ParseLinesMatchesReference(lines);
    assert Unmarked(lines, 0);
  }
}
