/**
 The shader source splitter: a text file holding a vertex and a fragment shader,
 separated by `#shader vertex` / `#shader fragment` marker lines, is cut into
 the two sources handed to the shader compiler.

 `Scan` is the specification of one pass over the lines, a fold of `Step`;
 `ParseShader` is the loop itself, with the mode variable and the two-element
 buffer array it updates in place, proved to compute `ParseFile`.
 */
module ShaderParse {
  import opened Text

  /**
   The mode of the scan. `Value` is the enum's underlying integer, which the
   C++ code uses directly as the index of the buffer a content line goes to:
   it is an index of the two-element buffer array exactly when the mode is
   not `NoShader`.
   */
  datatype ShaderType = NoShader | Vertex | Fragment {
    function Value(): (v: int)
      ensures v == -1 <==> this == NoShader
      ensures 0 <= v < 2 <==> this != NoShader
      ensures this == Vertex ==> v == 0
      ensures this == Fragment ==> v == 1
    {
      match this
      case NoShader => -1
      case Vertex => 0
      case Fragment => 1
    }
  }

  /** The pair of sources returned to the caller. */
  datatype ShaderProgramSource = ShaderProgramSource(vertexSource: string, fragmentSource: string)

  /**
   A content line read while the mode is still `NoShader`. `ParseShader` then
   writes to buffer index -1, outside its two-element array; the model reports
   the 0-based index of that line instead.
   */
  datatype ParseError = UnmarkedContent(lineIndex: nat)

  datatype Result<T> = Ok(value: T) | Err(error: ParseError)

  const ShaderMarker := "#shader"
  const VertexKeyword := "vertex"
  const FragmentKeyword := "fragment"

  /** A marker line switches the mode and is never copied to a buffer. */
  predicate IsMarker(line: string)
    ensures IsMarker(line) <==> exists j: nat :: OccursAt(line, ShaderMarker, j)
  {
    ContainsIff(line, ShaderMarker);
    Contains(line, ShaderMarker)
  }

  /**
   The mode after reading `line` in mode `mode`. The keyword tests are
   substring tests; `fragment` is tested second and so wins when both occur.
   */
  function NextMode(line: string, mode: ShaderType): (r: ShaderType)
    ensures !IsMarker(line) ==> r == mode
    ensures IsMarker(line) && Contains(line, FragmentKeyword) ==> r == Fragment
    ensures IsMarker(line) && Contains(line, VertexKeyword) && !Contains(line, FragmentKeyword) ==> r == Vertex
    ensures IsMarker(line) && !Contains(line, VertexKeyword) && !Contains(line, FragmentKeyword) ==> r == mode
    ensures r == NoShader ==> mode == NoShader
  {
    if !IsMarker(line) then mode
    else
      var afterVertex := if Contains(line, VertexKeyword) then Vertex else mode;
      if Contains(line, FragmentKeyword) then Fragment else afterVertex
  }

  /** What the loop holds between two lines: the mode and the contents of the two buffers. */
  datatype ScanState = ScanState(mode: ShaderType, vertex: string, fragment: string)

  const Start := ScanState(NoShader, "", "")

  /**
   One iteration of the loop on the line with 0-based index `index`. It fails
   exactly on a content line read in mode `NoShader`; otherwise the mode
   becomes `NextMode`, the buffers only grow, and together they grow by the
   line and its '\n' on a content line and not at all on a marker.
   */
  function Step(st: ScanState, line: string, index: nat): (r: Result<ScanState>)
    ensures r.Err? <==> !IsMarker(line) && st.mode == NoShader
    ensures r.Err? ==> r.error == UnmarkedContent(index)
    ensures r.Ok? ==> r.value.mode == NextMode(line, st.mode)
    ensures r.Ok? ==> st.vertex <= r.value.vertex && st.fragment <= r.value.fragment
    ensures r.Ok? ==>
      |r.value.vertex| + |r.value.fragment| == |st.vertex| + |st.fragment| + (if IsMarker(line) then 0 else |line| + 1)
  {
    if IsMarker(line) then Ok(st.(mode := NextMode(line, st.mode)))
    else
      match st.mode
      case NoShader => Err(UnmarkedContent(index))
      case Vertex => Ok(st.(vertex := st.vertex + line + "\n"))
      case Fragment => Ok(st.(fragment := st.fragment + line + "\n"))
  }

  /** The state after the loop has read `lines`, or the first error, which names a content line of `lines`. */
  function Scan(lines: seq<string>): (r: Result<ScanState>)
    ensures r.Err? ==> r.error.lineIndex < |lines| && !IsMarker(lines[r.error.lineIndex])
  {
    if lines == [] then Ok(Start)
    else
      match Scan(lines[..|lines| - 1])
      case Err(e) => Err(e)
      case Ok(st) => Step(st, lines[|lines| - 1], |lines| - 1)
  }

  /** The two sources split out of `lines`. */
  function ParseLines(lines: seq<string>): (r: Result<ShaderProgramSource>)
    ensures lines == [] ==> r == Ok(ShaderProgramSource("", ""))
  {
    match Scan(lines)
    case Err(e) => Err(e)
    case Ok(st) => Ok(ShaderProgramSource(st.vertex, st.fragment))
  }

  /**
   The lines `getline` delivers from a file: `None` stands for a file that
   could not be opened, on which the first `getline` already fails.
   */
  function ReadLines(file: Option<string>): (lines: seq<string>)
    ensures file.None? ==> lines == []
    ensures forall i :: 0 <= i < |lines| ==> '\n' !in lines[i]
  {
    match file
    case None => []
    case Some(text) => SplitLines(text)
  }

  /** What `ParseShader` computes for a file. */
  function ParseFile(file: Option<string>): (r: Result<ShaderProgramSource>)
    ensures file.None? ==> r == Ok(ShaderProgramSource("", ""))
  {
    ParseLines(ReadLines(file))
  }

  /** Reading one more line is one more `Step`. */
  lemma ScanSnoc(lines: seq<string>, line: string, st: ScanState)
    requires Scan(lines) == Ok(st)
    ensures Scan(lines + [line]) == Step(st, line, |lines|)
  {
    var all := lines + [line];
    assert all[..|all| - 1] == lines;
    assert all[|all| - 1] == line;
  }

  /** Once `Scan` has failed, reading more lines keeps the same error. */
  lemma {:induction false} ScanErrorPersists(lines: seq<string>, more: seq<string>)
    requires Scan(lines).Err?
    ensures Scan(lines + more) == Scan(lines)
    decreases |more|
  {
    if more == [] {
      assert lines + more == lines;
    } else {
      var all := lines + more;
      assert all[..|all| - 1] == lines + more[..|more| - 1];
      ScanErrorPersists(lines, more[..|more| - 1]);
    }
  }

  /** A content line read in mode `NoShader` decides the result of the whole file. */
  lemma UnmarkedLineFails(lines: seq<string>, line: string, rest: seq<string>, st: ScanState)
    requires Scan(lines) == Ok(st) && st.mode == NoShader && !IsMarker(line)
    ensures ParseLines(lines + [line] + rest) == Err(UnmarkedContent(|lines|))
  {
    ScanSnoc(lines, line, st);
    ScanErrorPersists(lines + [line], rest);
  }

  /**
   The loop of the C++ `ParseShader`: take the lines `getline` delivers from the file one
   by one, switch the mode on marker lines, and append every other line with a
   '\n' to the buffer that the mode's integer value selects.
   */
  method ParseShader(file: Option<string>) returns (r: Result<ShaderProgramSource>)
    ensures r == ParseFile(file)
  {
    var lines := ReadLines(file);
    var buffers := new string[] ["", ""];
    var stype := NoShader;
    for i := 0 to |lines|
      invariant Scan(lines[..i]) == Ok(ScanState(stype, buffers[0], buffers[1]))
    {
      var line := lines[i];
      ghost var before := ScanState(stype, buffers[0], buffers[1]);
      assert lines[..i + 1] == lines[..i] + [line];
      ScanSnoc(lines[..i], line, before);
      if IsMarker(line) {
        if Contains(line, VertexKeyword) {
          stype := Vertex;
        }
        if Contains(line, FragmentKeyword) {
          stype := Fragment;
        }
      } else {
        if stype == NoShader {
          // the C++ code writes to buffer index -1 here
          UnmarkedLineFails(lines[..i], line, lines[i + 1..], before);
          assert lines[..i] + [line] + lines[i + 1..] == lines;
          return Err(UnmarkedContent(i));
        }
        var k := stype.Value();
        buffers[k] := buffers[k] + line + "\n";
      }
    }
    assert lines[..|lines|] == lines;
    r := Ok(ShaderProgramSource(buffers[0], buffers[1]));
  }
}
