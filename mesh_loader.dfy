/**
 * The SMF/OBJ-style mesh reader of Sources/Mesh.swift.  The file contents
 * arrive as an optional string (the read itself is outside the model); the
 * text is split into lines, lines starting with `v` become vertices and
 * lines starting with `f` become faces, each in file order.  A record with
 * fewer than three numbers, and a face index equal to the smallest 64-bit
 * integer (whose decrement overflows), stop the program in the original;
 * here they are reported as a `BadRecord` error naming the first bad `v`
 * record or, when every `v` record reads, the first bad `f` record.
 */
module MeshLoader {
  import opened Results
  import opened VectorAlgebra
  import opened TextParsing

  /** A triangle as three zero-based vertex indices (not checked against the vertex count). */
  datatype Face = Face(a: int, b: int, c: int)

  datatype Mesh = Mesh(vertices: seq<Vec3f>, faces: seq<Face>)

  datatype RecordError = TooFewValues | IndexOverflow

  datatype LoadError = Unreadable | BadRecord(record: string, why: RecordError)

  predicate InInt64(n: int) { Int64Min <= n <= Int64Max }

  /** Whitespace-separated pieces of a record, empty pieces included. */
  function Tokens(record: string): seq<string> {
    Split(record, IsWhitespace)
  }

  /** `readVertex`: the first three tokens that read as numbers, in order. */
  function ReadVertex(record: string): Result<Vec3f, RecordError> {
    var values := FilterMap(Tokens(record), ParseFloat);
    if |values| < 3 then Err(TooFewValues)
    else Ok(Vec3f(values[0], values[1], values[2]))
  }

  /**
   * `Face.init(s:)`: every integer token is decremented (so the smallest
   * 64-bit integer overflows wherever it appears), then the first three are
   * taken.  A face that is read has all indices in `[Int64Min, Int64Max)`.
   */
  function ReadFace(record: string): (r: Result<Face, RecordError>)
    ensures r.Ok? ==> Int64Min <= r.value.a < Int64Max
    ensures r.Ok? ==> Int64Min <= r.value.b < Int64Max
    ensures r.Ok? ==> Int64Min <= r.value.c < Int64Max
  {
    ParsedIntsInRange(Tokens(record));
    FaceOfIds(FilterMap(Tokens(record), ParseInt))
  }

  /** The decrement applied to every parsed index, then the first three taken. */
  function FaceOfIds(ids: seq<int>): Result<Face, RecordError> {
    if Int64Min in ids then Err(IndexOverflow)
    else if |ids| < 3 then Err(TooFewValues)
    else Ok(Face(ids[0] - 1, ids[1] - 1, ids[2] - 1))
  }

  /**
   * Swift's `map` over records whose conversion may stop the program: either
   * every record converts, in order, or the first one that does not is named.
   */
  function MapAll<T>(records: seq<string>, read: string -> Result<T, RecordError>): (r: Result<seq<T>, LoadError>)
    ensures r.Ok? ==> ReadAs(records, read, r.value)
    ensures r.Err? ==> exists i :: FirstBad(records, read, i)
                        && r.error == BadRecord(records[i], read(records[i]).error)
    ensures ReportsFirstBad(records, read, r)
    decreases |records|
  {
    if |records| == 0 then Ok([])
    else
      match read(records[0])
      case Err(e) => Err(BadRecord(records[0], e))
      case Ok(x) =>
        var rest := MapAll(records[1..], read);
        if rest.Err? then
          ghost var i :| FirstBad(records[1..], read, i)
                         && rest.error == BadRecord(records[1..][i], read(records[1..][i]).error);
          assert records[i + 1] == records[1..][i];
          assert forall j :: 1 <= j < i + 1 ==> records[j] == records[1..][j - 1];
          Err(rest.error)
        else
          var ys := [x] + rest.value;
          assert forall i :: 1 <= i < |records| ==> records[i] == records[1..][i - 1] && ys[i] == rest.value[i - 1];
          Ok(ys)
  }

  /** Record `i` is the first one that `read` rejects. */
  predicate FirstBad<T>(records: seq<string>, read: string -> Result<T, RecordError>, i: int) {
    0 <= i < |records| && read(records[i]).Err?
    && forall j :: 0 <= j < i ==> read(records[j]).Ok?
  }

  /** Every one of `records` reads. */
  predicate AllRead<T>(records: seq<string>, read: string -> Result<T, RecordError>) {
    forall i :: 0 <= i < |records| ==> read(records[i]).Ok?
  }

  /** `values` are what `records` read as, one for one and in order. */
  ghost predicate ReadAs<T>(records: seq<string>, read: string -> Result<T, RecordError>, values: seq<T>) {
    |values| == |records| && forall i :: 0 <= i < |records| ==> read(records[i]) == Ok(values[i])
  }

  /** If some record does not read, `r` is the error that names the first such record. */
  ghost predicate ReportsFirstBad<T, U>(records: seq<string>, read: string -> Result<T, RecordError>, r: Result<U, LoadError>) {
    forall i :: FirstBad(records, read, i) ==> r == Err(BadRecord(records[i], read(records[i]).error))
  }

  function Lines(text: string): seq<string> {
    Split(text, IsNewline)
  }

  /** `hasPrefix("v")`: also true of `vn` and `vt` records. */
  predicate IsVertexRecord(line: string) { |line| > 0 && line[0] == 'v' }

  predicate IsFaceRecord(line: string) { |line| > 0 && line[0] == 'f' }

  /** The lines kept by `filter { $0.hasPrefix("v") }`, in file order. */
  function VertexRecords(text: string): (r: seq<string>)
    ensures forall line :: line in r <==> line in Lines(text) && IsVertexRecord(line)
  {
    FilterMembersAll(Lines(text), IsVertexRecord);
    Filter(Lines(text), IsVertexRecord)
  }

  /** The lines kept by `filter { $0.hasPrefix("f") }`, in file order. */
  function FaceRecords(text: string): (r: seq<string>)
    ensures forall line :: line in r <==> line in Lines(text) && IsFaceRecord(line)
  {
    FilterMembersAll(Lines(text), IsFaceRecord);
    Filter(Lines(text), IsFaceRecord)
  }

  /**
   * Everything `Mesh.init?(path:)` does after the file read.  Vertices are
   * computed first, so a bad vertex record is reported before a bad face.
   */
  function ParseMesh(text: string): (r: Result<Mesh, LoadError>)
    ensures r.Ok? <==> AllRead(VertexRecords(text), ReadVertex) && AllRead(FaceRecords(text), ReadFace)
    ensures r.Ok? ==> ReadAs(VertexRecords(text), ReadVertex, r.value.vertices)
                      && ReadAs(FaceRecords(text), ReadFace, r.value.faces)
    ensures r.Err? ==> r.error.BadRecord? && (r.error.record in VertexRecords(text) || r.error.record in FaceRecords(text))
    ensures ReportsFirstBad(VertexRecords(text), ReadVertex, r)
    ensures AllRead(VertexRecords(text), ReadVertex) ==> ReportsFirstBad(FaceRecords(text), ReadFace, r)
  {
    Assemble(MapAll(VertexRecords(text), ReadVertex), MapAll(FaceRecords(text), ReadFace))
  }

  /** The mesh from the read vertices and faces, or the first of their errors. */
  function Assemble(vs: Result<seq<Vec3f>, LoadError>, fs: Result<seq<Face>, LoadError>): Result<Mesh, LoadError> {
    if vs.Err? then Err(vs.error)
    else if fs.Err? then Err(fs.error)
    else Ok(Mesh(vs.value, fs.value))
  }

  /** `Mesh.init?(path:)`: no mesh exactly when the file cannot be read. */
  function LoadMesh(contents: Option<string>): (r: Result<Mesh, LoadError>)
    ensures r == Err(Unreadable) <==> contents.None?
    ensures contents.Some? ==> r == ParseMesh(contents.value)
  {
    match contents
    case None => Err(Unreadable)
    case Some(text) => ParseMesh(text)
  }

  // Appending a line to the text

  lemma {:induction false} MapAllAppend<T>(a: seq<string>, line: string, read: string -> Result<T, RecordError>)
    requires MapAll(a, read).Ok?
    ensures MapAll(a + [line], read)
            == if read(line).Ok? then Ok(MapAll(a, read).value + [read(line).value])
               else Err(BadRecord(line, read(line).error))
    decreases |a|
  {
    if |a| == 0 {
      assert a + [line] == [line];
      assert MapAll(a, read) == Ok([]);
      assert [line][0] == line && [line][1..] == [];
      assert MapAll([line][1..], read) == Ok([]);
      if read(line).Ok? {
        assert MapAll([line], read) == Ok([read(line).value] + []);
        assert [] + [read(line).value] == [read(line).value] + [];
      }
    } else {
      assert (a + [line])[0] == a[0];
      assert (a + [line])[1..] == a[1..] + [line];
      var x := read(a[0]).value;
      var p := MapAll(a[1..], read).value;
      assert MapAll(a, read).value == [x] + p;
      MapAllAppend(a[1..], line, read);
      if read(line).Ok? {
        assert [x] + (p + [read(line).value]) == ([x] + p) + [read(line).value];
      }
    }
  }

  lemma LinesAppend(text: string, line: string)
    requires Free(line, IsNewline)
    ensures Lines(text + ['\n'] + line) == Lines(text) + [line]
  {
    SplitConcat(text, '\n', line, IsNewline);
    SplitFree(line, IsNewline);
  }

  /** The records of a text with one more line: those of the text, then that line if it is one. */
  lemma RecordsAppend(text: string, line: string)
    requires Free(line, IsNewline)
    ensures VertexRecords(text + ['\n'] + line)
            == VertexRecords(text) + (if IsVertexRecord(line) then [line] else [])
    ensures FaceRecords(text + ['\n'] + line)
            == FaceRecords(text) + (if IsFaceRecord(line) then [line] else [])
  {
    LinesAppend(text, line);
    FilterConcat(Lines(text), [line], IsVertexRecord);
    FilterConcat(Lines(text), [line], IsFaceRecord);
    assert [line][1..] == [];
  }

  /** A line that is neither a vertex nor a face record leaves the result unchanged. */
  lemma IgnoredLine(text: string, line: string)
    requires Free(line, IsNewline) && !IsVertexRecord(line) && !IsFaceRecord(line)
    ensures ParseMesh(text + ['\n'] + line) == ParseMesh(text)
  {
    var t := text + ['\n'] + line;
    RecordsAppend(text, line);
    assert VertexRecords(t) == VertexRecords(text);
    assert FaceRecords(t) == FaceRecords(text);
  }

  /** A vertex record appended to a readable text adds one vertex at the end, or names that line. */
  lemma AppendVertexRecord(text: string, line: string, m: Mesh)
    requires ParseMesh(text) == Ok(m)
    requires Free(line, IsNewline) && IsVertexRecord(line)
    ensures ParseMesh(text + ['\n'] + line)
            == if ReadVertex(line).Ok? then Ok(Mesh(m.vertices + [ReadVertex(line).value], m.faces))
               else Err(BadRecord(line, ReadVertex(line).error))
  {
    var t := text + ['\n'] + line;
    RecordsAppend(text, line);
    assert VertexRecords(t) == VertexRecords(text) + [line];
    assert FaceRecords(t) == FaceRecords(text);
    MapAllAppend(VertexRecords(text), line, ReadVertex);
  }

  /** A face record appended to a readable text adds one face at the end, or names that line. */
  lemma AppendFaceRecord(text: string, line: string, m: Mesh)
    requires ParseMesh(text) == Ok(m)
    requires Free(line, IsNewline) && IsFaceRecord(line)
    ensures ParseMesh(text + ['\n'] + line)
            == if ReadFace(line).Ok? then Ok(Mesh(m.vertices, m.faces + [ReadFace(line).value]))
               else Err(BadRecord(line, ReadFace(line).error))
  {
    var t := text + ['\n'] + line;
    RecordsAppend(text, line);
    assert VertexRecords(t) == VertexRecords(text);
    assert FaceRecords(t) == FaceRecords(text) + [line];
    MapAllAppend(FaceRecords(text), line, ReadFace);
  }

  // Records rendered from numbers

  /** A record: a tag followed by decimal integers, separated by single spaces. */
  function Record(tag: string, values: seq<int>): string {
    Join([tag] + Rendered(values), ' ')
  }

  function Rendered(values: seq<int>): (toks: seq<string>)
    ensures |toks| == |values|
  {
    seq(|values|, i requires 0 <= i < |values| => ShowInt(values[i]))
  }

  /** A tag such as `v`, `vn` or `f`: a non-empty word that does not start a number. */
  predicate IsTag(tag: string) {
    |tag| > 0 && !IsDigit(tag[0]) && tag[0] != '+' && tag[0] != '-' && tag[0] != '.'
    && Free(tag, IsWhitespace) && Free(tag, IsNewline)
  }

  lemma ShowIntFree(n: int)
    ensures Free(ShowInt(n), IsWhitespace) && Free(ShowInt(n), IsNewline)
  {
    var s := ShowInt(n);
    assert forall i :: 0 <= i < |s| ==> IsDigit(s[i]) || s[i] == '-';
  }

  lemma RecordTokens(tag: string, values: seq<int>)
    requires IsTag(tag)
    ensures Tokens(Record(tag, values)) == [tag] + Rendered(values)
    ensures Free(Record(tag, values), IsNewline)
  {
    var parts := [tag] + Rendered(values);
    forall k | 0 <= k < |parts|
      ensures Free(parts[k], IsWhitespace) && Free(parts[k], IsNewline)
    {
      if k > 0 {
        ShowIntFree(values[k - 1]);
      }
    }
    SplitJoin(parts, ' ', IsWhitespace);
    JoinFree(parts, ' ', IsNewline);
  }

  /**
   * Reading a rendered vertex record: the tag is dropped, the first three
   * values become the coordinates, later ones are ignored, and fewer than
   * three is an error.
   */
  lemma ReadVertexRecord(tag: string, values: seq<int>)
    requires IsTag(tag)
    requires forall i :: 0 <= i < |values| ==> InInt64(values[i])
    ensures ReadVertex(Record(tag, values))
            == if |values| < 3 then Err(TooFewValues)
               else Ok(Vec3f(values[0] as real, values[1] as real, values[2] as real))
  {
    RecordTokens(tag, values);
    TagIsNotNumber(tag);
    var reals := seq(|values|, i requires 0 <= i < |values| => values[i] as real);
    forall k | 0 <= k < |values|
      ensures ParseFloat(Rendered(values)[k]) == Some(reals[k])
    {
      ParseFloatShowInt(values[k]);
    }
    FilterMapConcat([tag], Rendered(values), ParseFloat);
    FilterMapAll(Rendered(values), reals, ParseFloat);
    assert FilterMap([tag], ParseFloat) == [];
    assert FilterMap(Tokens(Record(tag, values)), ParseFloat) == reals;
  }

  /**
   * Reading a rendered face record: each index is decreased by one, the
   * first three are taken, later ones are ignored; fewer than three is an
   * error, and so is the smallest 64-bit integer anywhere in the record.
   */
  lemma ReadFaceRecord(tag: string, values: seq<int>)
    requires IsTag(tag)
    requires forall i :: 0 <= i < |values| ==> InInt64(values[i])
    ensures ReadFace(Record(tag, values))
            == if Int64Min in values then Err(IndexOverflow)
               else if |values| < 3 then Err(TooFewValues)
               else Ok(Face(values[0] - 1, values[1] - 1, values[2] - 1))
  {
    RecordInts(tag, values);
  }

  lemma RecordInts(tag: string, values: seq<int>)
    requires IsTag(tag)
    requires forall i :: 0 <= i < |values| ==> InInt64(values[i])
    ensures FilterMap(Tokens(Record(tag, values)), ParseInt) == values
  {
    RecordTokens(tag, values);
    TagIsNotNumber(tag);
    forall k | 0 <= k < |values|
      ensures ParseInt(Rendered(values)[k]) == Some(values[k])
    {
      ParseShowInt(values[k]);
    }
    FilterMapConcat([tag], Rendered(values), ParseInt);
    FilterMapAll(Rendered(values), values, ParseInt);
    assert FilterMap([tag], ParseInt) == [];
  }

  lemma RecordHead(tag: string, values: seq<int>)
    requires |tag| > 0
    ensures |Record(tag, values)| > 0 && Record(tag, values)[0] == tag[0]
  {
    var parts := [tag] + Rendered(values);
    if |parts| > 1 {
      assert Record(tag, values) == tag + [' '] + Join(parts[1..], ' ');
    }
  }

  /** `MapAll` succeeds exactly with the values every record reads as. */
  lemma MapAllOk<T>(records: seq<string>, ys: seq<T>, read: string -> Result<T, RecordError>)
    requires |ys| == |records|
    requires forall i :: 0 <= i < |records| ==> read(records[i]) == Ok(ys[i])
    ensures MapAll(records, read) == Ok(ys)
  {
    var r := MapAll(records, read);
    if r.Err? {
      assert false;
    }
    assert r.value == ys;
  }

  /** Normal (`vn`) records pass the `v` prefix test and are read as vertices. */
  lemma NormalRecordIsVertex(x: int, y: int, z: int)
    requires InInt64(x) && InInt64(y) && InInt64(z)
    ensures IsVertexRecord(Record("vn", [x, y, z]))
    ensures ReadVertex(Record("vn", [x, y, z])) == Ok(Vec3f(x as real, y as real, z as real))
  {
    ReadVertexRecord("vn", [x, y, z]);
  }

  lemma DoubledSeparatorTokens(a: string, c: char, b: string)
    requires IsWhitespace(c)
    ensures Tokens(a + [c, c] + b) == Split(a, IsWhitespace) + [""] + Split(b, IsWhitespace)
    ensures Tokens(a + [c] + b) == Split(a, IsWhitespace) + Split(b, IsWhitespace)
  {
    assert a + [c, c] + b == a + [c] + ([c] + b);
    assert [c] + b == "" + [c] + b;
    SplitConcat(a, c, [c] + b, IsWhitespace);
    SplitConcat("", c, b, IsWhitespace);
    SplitConcat(a, c, b, IsWhitespace);
  }

  lemma DropEmptyToken<B>(pa: seq<string>, pb: seq<string>, f: string -> Option<B>)
    requires f("") == None
    ensures FilterMap(pa + [""] + pb, f) == FilterMap(pa + pb, f)
  {
    assert pa + [""] + pb == pa + ([""] + pb);
    FilterMapConcat(pa, [""] + pb, f);
    FilterMapConcat([""], pb, f);
    FilterMapConcat(pa, pb, f);
  }

  /** Whatever a doubled whitespace character adds is an empty token, which reads as no value. */
  lemma DoubledWhitespaceValues<B>(a: string, c: char, b: string, f: string -> Option<B>)
    requires IsWhitespace(c) && f("") == None
    ensures FilterMap(Tokens(a + [c, c] + b), f) == FilterMap(Tokens(a + [c] + b), f)
  {
    DoubledSeparatorTokens(a, c, b);
    DropEmptyToken(Split(a, IsWhitespace), Split(b, IsWhitespace), f);
  }

  /** Both readings of a record depend only on the values its tokens parse to. */
  lemma SameValuesSameVertex(r1: string, r2: string)
    requires FilterMap(Tokens(r1), ParseFloat) == FilterMap(Tokens(r2), ParseFloat)
    ensures ReadVertex(r1) == ReadVertex(r2)
  {
  }

  lemma SameValuesSameFace(r1: string, r2: string)
    requires FilterMap(Tokens(r1), ParseInt) == FilterMap(Tokens(r2), ParseInt)
    ensures ReadFace(r1) == ReadFace(r2)
  {
  }

  /** Doubling a whitespace character changes neither reading of a record. */
  lemma RepeatedWhitespace(a: string, c: char, b: string)
    requires IsWhitespace(c)
    ensures ReadVertex(a + [c, c] + b) == ReadVertex(a + [c] + b)
    ensures ReadFace(a + [c, c] + b) == ReadFace(a + [c] + b)
  {
    EmptyIsNotNumber();
    DoubledWhitespaceValues(a, c, b, ParseFloat);
    DoubledWhitespaceValues(a, c, b, ParseInt);
    SameValuesSameVertex(a + [c, c] + b, a + [c] + b);
    SameValuesSameFace(a + [c, c] + b, a + [c] + b);
  }

  // Whole texts rendered from a mesh with integral coordinates

  predicate PointInRange(p: (int, int, int)) {
    InInt64(p.0) && InInt64(p.1) && InInt64(p.2)
  }

  /** The faces `ReadFace` can produce: each index plus one is a decodable 64-bit integer. */
  predicate FaceInRange(f: Face) {
    Int64Min <= f.a < Int64Max && Int64Min <= f.b < Int64Max && Int64Min <= f.c < Int64Max
  }

  function ToVec(p: (int, int, int)): Vec3f {
    Vec3f(p.0 as real, p.1 as real, p.2 as real)
  }

  function VertexLine(p: (int, int, int)): string {
    Record("v", [p.0, p.1, p.2])
  }

  /** Face records are written with one-based indices. */
  function FaceLine(f: Face): string {
    Record("f", [f.a + 1, f.b + 1, f.c + 1])
  }

  function VertexLines(points: seq<(int, int, int)>): (lines: seq<string>)
    ensures |lines| == |points|
  {
    seq(|points|, i requires 0 <= i < |points| => VertexLine(points[i]))
  }

  function FaceLines(faces: seq<Face>): (lines: seq<string>)
    ensures |lines| == |faces|
  {
    seq(|faces|, i requires 0 <= i < |faces| => FaceLine(faces[i]))
  }

  /** Vertex lines, then face lines, each ended by a newline. */
  function ObjText(points: seq<(int, int, int)>, faces: seq<Face>): string {
    Join(VertexLines(points) + FaceLines(faces) + [""], '\n')
  }

  function ToVecs(points: seq<(int, int, int)>): (vs: seq<Vec3f>)
    ensures |vs| == |points|
  {
    seq(|points|, i requires 0 <= i < |points| => ToVec(points[i]))
  }

  lemma VertexLineReads(p: (int, int, int))
    requires PointInRange(p)
    ensures IsVertexRecord(VertexLine(p)) && !IsFaceRecord(VertexLine(p))
    ensures Free(VertexLine(p), IsNewline)
    ensures ReadVertex(VertexLine(p)) == Ok(ToVec(p))
  {
    RecordHead("v", [p.0, p.1, p.2]);
    RecordTokens("v", [p.0, p.1, p.2]);
    ReadVertexRecord("v", [p.0, p.1, p.2]);
  }

  lemma FaceLineReads(f: Face)
    requires FaceInRange(f)
    ensures IsFaceRecord(FaceLine(f)) && !IsVertexRecord(FaceLine(f))
    ensures Free(FaceLine(f), IsNewline)
    ensures ReadFace(FaceLine(f)) == Ok(f)
  {
    var values := [f.a + 1, f.b + 1, f.c + 1];
    RecordHead("f", values);
    RecordTokens("f", values);
    ReadFaceRecord("f", values);
    assert Int64Min !in values;
  }

  /** The rendered text splits back into the rendered lines and one final empty line. */
  lemma ObjLines(points: seq<(int, int, int)>, faces: seq<Face>)
    requires forall i :: 0 <= i < |points| ==> PointInRange(points[i])
    requires forall i :: 0 <= i < |faces| ==> FaceInRange(faces[i])
    ensures Lines(ObjText(points, faces)) == VertexLines(points) + FaceLines(faces) + [""]
  {
    var vl := VertexLines(points);
    var fl := FaceLines(faces);
    var lines := vl + fl + [""];
    forall k | 0 <= k < |lines|
      ensures Free(lines[k], IsNewline)
    {
      if k < |vl| {
        VertexLineReads(points[k]);
      } else if k < |vl| + |fl| {
        assert lines[k] == fl[k - |vl|];
        FaceLineReads(faces[k - |vl|]);
      }
    }
    SplitJoin(lines, '\n', IsNewline);
  }

  lemma ObjRecords(points: seq<(int, int, int)>, faces: seq<Face>)
    requires forall i :: 0 <= i < |points| ==> PointInRange(points[i])
    requires forall i :: 0 <= i < |faces| ==> FaceInRange(faces[i])
    ensures VertexRecords(ObjText(points, faces)) == VertexLines(points)
    ensures FaceRecords(ObjText(points, faces)) == FaceLines(faces)
  {
    var vl := VertexLines(points);
    var fl := FaceLines(faces);
    forall i | 0 <= i < |points| {
      VertexLineReads(points[i]);
    }
    forall i | 0 <= i < |faces| {
      FaceLineReads(faces[i]);
    }
    ObjLines(points, faces);
    ObjTags(vl, fl);
  }

  /** Picking the tagged lines back out of vertex lines, face lines and a final empty line. */
  lemma ObjTags(vl: seq<string>, fl: seq<string>)
    requires forall i :: 0 <= i < |vl| ==> IsVertexRecord(vl[i]) && !IsFaceRecord(vl[i])
    requires forall i :: 0 <= i < |fl| ==> IsFaceRecord(fl[i]) && !IsVertexRecord(fl[i])
    ensures Filter(vl + fl + [""], IsVertexRecord) == vl
    ensures Filter(vl + fl + [""], IsFaceRecord) == fl
  {
    ObjVertexTags(vl, fl);
    ObjFaceTags(vl, fl);
  }

  lemma ObjVertexTags(vl: seq<string>, fl: seq<string>)
    requires forall i :: 0 <= i < |vl| ==> IsVertexRecord(vl[i])
    requires forall i :: 0 <= i < |fl| ==> !IsVertexRecord(fl[i])
    ensures Filter(vl + fl + [""], IsVertexRecord) == vl
  {
    FilterConcat(vl + fl, [""], IsVertexRecord);
    FilterConcat(vl, fl, IsVertexRecord);
    FilterAll(vl, IsVertexRecord);
    FilterNone(fl, IsVertexRecord);
    FilterNone([""], IsVertexRecord);
  }

  lemma ObjFaceTags(vl: seq<string>, fl: seq<string>)
    requires forall i :: 0 <= i < |vl| ==> !IsFaceRecord(vl[i])
    requires forall i :: 0 <= i < |fl| ==> IsFaceRecord(fl[i])
    ensures Filter(vl + fl + [""], IsFaceRecord) == fl
  {
    FilterConcat(vl + fl, [""], IsFaceRecord);
    FilterConcat(vl, fl, IsFaceRecord);
    FilterNone(vl, IsFaceRecord);
    FilterAll(fl, IsFaceRecord);
    FilterNone([""], IsFaceRecord);
  }

  /**
   * Round trip: writing a mesh with integral coordinates as text and
   * reading it back gives the same vertices and faces, in order.  Face
   * indices are taken as they are, whether or not such vertices exist.
   */
  lemma ParseObjText(points: seq<(int, int, int)>, faces: seq<Face>)
    requires forall i :: 0 <= i < |points| ==> PointInRange(points[i])
    requires forall i :: 0 <= i < |faces| ==> FaceInRange(faces[i])
    ensures ParseMesh(ObjText(points, faces)) == Ok(Mesh(ToVecs(points), faces))
  {
    ObjRecords(points, faces);
    forall i | 0 <= i < |points|
      ensures ReadVertex(VertexLines(points)[i]) == Ok(ToVecs(points)[i])
    {
      VertexLineReads(points[i]);
    }
    forall i | 0 <= i < |faces|
      ensures ReadFace(FaceLines(faces)[i]) == Ok(faces[i])
    {
      FaceLineReads(faces[i]);
    }
    MapAllOk(VertexLines(points), ToVecs(points), ReadVertex);
    MapAllOk(FaceLines(faces), faces, ReadFace);
  }

  /** A record with three values, written out. */
  lemma Record3(tag: string, x: int, y: int, z: int)
    ensures Record(tag, [x, y, z]) == tag + " " + ShowInt(x) + " " + ShowInt(y) + " " + ShowInt(z)
  {
    assert [tag] + Rendered([x, y, z]) == [tag] + ([ShowInt(x)] + ([ShowInt(y)] + [ShowInt(z)]));
    JoinCons(ShowInt(y), [ShowInt(z)], ' ');
    JoinCons(ShowInt(x), [ShowInt(y)] + [ShowInt(z)], ' ');
    JoinCons(tag, [ShowInt(x)] + ([ShowInt(y)] + [ShowInt(z)]), ' ');
  }

  lemma ObjText3(points: seq<(int, int, int)>, faces: seq<Face>)
    requires |points| == 3 && |faces| == 1
    ensures ObjText(points, faces)
            == VertexLine(points[0]) + "\n" + VertexLine(points[1]) + "\n" + VertexLine(points[2])
               + "\n" + FaceLine(faces[0]) + "\n"
  {
    var l0, l1, l2, l3 := VertexLine(points[0]), VertexLine(points[1]), VertexLine(points[2]), FaceLine(faces[0]);
    assert VertexLines(points) + FaceLines(faces) + [""] == [l0] + ([l1] + ([l2] + ([l3] + [""])));
    JoinCons(l3, [""], '\n');
    JoinCons(l2, [l3] + [""], '\n');
    JoinCons(l1, [l2] + ([l3] + [""]), '\n');
    JoinCons(l0, [l1] + ([l2] + ([l3] + [""])), '\n');
  }

  /** A three-vertex, one-triangle file. */
  lemma SmallMeshLines()
    ensures VertexLine((0, 0, 0)) == "v 0 0 0"
    ensures VertexLine((1, 0, 0)) == "v 1 0 0"
    ensures VertexLine((0, 1, 0)) == "v 0 1 0"
    ensures FaceLine(Face(0, 1, 2)) == "f 1 2 3"
  {
    assert ShowInt(0) == "0" && ShowInt(1) == "1" && ShowInt(2) == "2" && ShowInt(3) == "3";
    Record3("v", 0, 0, 0);
    Record3("v", 1, 0, 0);
    Record3("v", 0, 1, 0);
    Record3("f", 1, 2, 3);
  }

  lemma SmallMeshText()
    ensures ObjText([(0, 0, 0), (1, 0, 0), (0, 1, 0)], [Face(0, 1, 2)]) == "v 0 0 0\nv 1 0 0\nv 0 1 0\nf 1 2 3\n"
  {
    SmallMeshLines();
    ObjText3([(0, 0, 0), (1, 0, 0), (0, 1, 0)], [Face(0, 1, 2)]);
  }

  lemma SmallMesh()
    ensures ParseMesh("v 0 0 0\nv 1 0 0\nv 0 1 0\nf 1 2 3\n")
            == Ok(Mesh([Vec3f(0.0, 0.0, 0.0), Vec3f(1.0, 0.0, 0.0), Vec3f(0.0, 1.0, 0.0)], [Face(0, 1, 2)]))
  {
    var points := [(0, 0, 0), (1, 0, 0), (0, 1, 0)];
    var faces := [Face(0, 1, 2)];
    SmallMeshText();
    assert ToVecs(points) == [Vec3f(0.0, 0.0, 0.0), Vec3f(1.0, 0.0, 0.0), Vec3f(0.0, 1.0, 0.0)];
    ParseObjText(points, faces);
  }

  /** A file whose only record names a missing vertex is accepted as it stands. */
  lemma FaceIndicesUnchecked()
    ensures ParseMesh(ObjText([], [Face(5, 6, 7)])) == Ok(Mesh([], [Face(5, 6, 7)]))
  {
    ParseObjText([], [Face(5, 6, 7)]);
  }

  /** A single-line vertex record with fewer than three numbers is reported, not read. */
  lemma ShortVertexRecord(values: seq<int>)
    requires |values| < 3
    requires forall i :: 0 <= i < |values| ==> InInt64(values[i])
    ensures ParseMesh(Record("v", values)) == Err(BadRecord(Record("v", values), TooFewValues))
  {
    var line := Record("v", values);
    RecordHead("v", values);
    RecordTokens("v", values);
    ReadVertexRecord("v", values);
    SplitFree(line, IsNewline);
    assert VertexRecords(line) == [line];
    assert FaceRecords(line) == [];
  }

  /** A single-line face record holding the smallest 64-bit integer is reported as an overflow. */
  lemma OverflowingFaceRecord(values: seq<int>)
    requires Int64Min in values
    requires forall i :: 0 <= i < |values| ==> InInt64(values[i])
    ensures ParseMesh(Record("f", values)) == Err(BadRecord(Record("f", values), IndexOverflow))
  {
    var line := Record("f", values);
    RecordHead("f", values);
    RecordTokens("f", values);
    ReadFaceRecord("f", values);
    SplitFree(line, IsNewline);
    assert VertexRecords(line) == [];
    assert FaceRecords(line) == [line];
  }
}
