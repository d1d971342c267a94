# raylang-swift core in Dafny

This project models the three pieces of logic at the heart of the raylang
Swift ray tracer and proves properties of them:

- **Vector and matrix algebra** (`Sources/Math.swift`), in `vector_algebra.dfy`
  (module `VectorAlgebra`) and `matrix_transform.dfy` (module
  `MatrixTransform`). `Vec3f`, `Vec4f` and the row-major `Mat4f` are
  immutable value types, so they become Dafny datatypes with member
  functions. Components are exact `real`s rather than IEEE single-precision
  floats, so the algebraic laws hold exactly:
  - transpose is an involution;
  - the identity is a two-sided unit;
  - the product built from two transposes has the textbook entries;
  - the repository's integer-valued matrix test holds.
- **The mesh reader** (`Sources/Mesh.swift`), in `mesh_loader.dfy` (module
  `MeshLoader`). It uses `text_parsing.dfy` (module `TextParsing`), which
  stands in for the Foundation calls the reader relies on:
  - splitting on a character set, with empty pieces kept;
  - `Int(String)` for decimal 64-bit integers;
  - `Float(String)` for a plain decimal subset;
  - `filter` and `flatMap`.

  The reader is a pure pipeline:
  - split the text into lines;
  - keep the lines starting with `v` and, separately, those starting with `f`;
  - split each kept line on whitespace and drop the tokens that do not parse;
  - take the first three values, decrementing face indices.

  Two things stop the original program: a record with fewer than three
  values, and a face index equal to the smallest 64-bit integer, whose
  decrement overflows. Both become a `BadRecord` error. It names the first bad
  `v` record or, when every `v` record reads, the first bad `f` record,
  because the vertices are computed before the faces. An unreadable file is `Unreadable`. `Mesh` is a Swift
  class whose fields are assigned once, so it is a datatype here.
- **The PNG export** (`Sources/Image.swift`), in `raster_exporter.dfy`
  (module `RasterExporter`):
  - the 512×512 RGB gradient is computed in place into a `height × 3·width`
    byte buffer (`array2<byte>`) by two nested loops, proved against the
    channel formulas;
  - every position is proved to be stored exactly once;
  - the row pointers are collected by a second loop;
  - the acquisition and release of the file and the two libpng contexts,
    including the two early returns and the `defer` blocks, are a trace of
    events replayed against a small resource state machine.

`results.dfy` (module `Results`) holds the `Option` and `Result` datatypes.

Faces that name a missing vertex are accepted, because `Mesh.init?` never
checks indices (Sources/Mesh.swift:43-45); see `MeshLoader.FaceIndicesUnchecked`.

## Model

| member | source | states |
|---|---|---|
| VectorAlgebra.Clamp | Sources/Math.swift:15-17 | For a non-empty interval the result lies in it; a value already inside is returned unchanged, one below gives `lower`, one above gives `upper`; an empty interval gives `lower` |
| VectorAlgebra.Vec3f.Zero | Sources/Math.swift:28-30 | Defined by its body; properties in `SubUndoesAdd` (adding it changes nothing) and `Vec3f.MagnitudeSquared` |
| VectorAlgebra.Vec3f.Dot | Sources/Math.swift:32-34 | Defined by its body; properties in `DotSymmetric`, `Vec3f.Cross`, `PartialDeterminantIsDeterminant` and `Vec3fTestProducts` |
| VectorAlgebra.Vec3f.Dot0 | Sources/Math.swift:36-39 | The result is never negative, equals `dot` when `dot ≥ 0` and is 0 otherwise |
| VectorAlgebra.Vec3f.Cross | Sources/Math.swift:41-46 | The cross product is orthogonal to both operands |
| VectorAlgebra.Vec3f.PointMul | Sources/Math.swift:48-53 | Defined by its body; properties in `PointMulProperties` and `ScalePoint` |
| VectorAlgebra.Vec3f.Scale | Sources/Math.swift:55-60 | Defined by its body; properties in `ScaleRoundTrip` and `PointMulProperties` |
| VectorAlgebra.Vec3f.MagnitudeSquared | Sources/Math.swift:62-64 | The squared length is never negative and is 0 for the zero vector |
| VectorAlgebra.Vec3f.PartialDeterminant | Sources/Math.swift:74-85 | The partial determinant of columns a, b is the cross product a × b |
| VectorAlgebra.Vec3f.Equal | Sources/Math.swift:88-90 | `==` holds exactly when the two vectors are identical |
| VectorAlgebra.Vec3f.Add | Sources/Math.swift:92-97 | Defined by its body; properties in `SubUndoesAdd` and `TranslatePoint` |
| VectorAlgebra.Vec3f.Sub | Sources/Math.swift:99-104 | Defined by its body; properties in `SubUndoesAdd` |
| VectorAlgebra.Vec4f.FromPoint | Sources/Math.swift:114-119 | `Vec4f(v:)` keeps x, y, z and sets w to 1 |
| VectorAlgebra.Vec4f.Zero | Sources/Math.swift:121-123 | Defined by its body; properties in `Sub4UndoesAdd` and `Vec4f.MagnitudeSquared` |
| VectorAlgebra.Vec4f.Dot | Sources/Math.swift:125-127 | Defined by its body; properties in `Dot4Symmetric` and `Dot3IgnoresW` |
| VectorAlgebra.Vec4f.Dot3 | Sources/Math.swift:129-131 | Defined by its body; properties in `Dot3IgnoresW` |
| VectorAlgebra.Vec4f.PointMul | Sources/Math.swift:133-139 | Defined by its body; properties in `Point4MulProperties` |
| VectorAlgebra.Vec4f.Scale | Sources/Math.swift:141-147 | Defined by its body; properties in `Scale4RoundTrip` and `Point4MulProperties` |
| VectorAlgebra.Vec4f.MagnitudeSquared | Sources/Math.swift:149-151 | The squared length of a 4-vector is never negative and is 0 for the zero vector |
| VectorAlgebra.Vec4f.Equal | Sources/Math.swift:162-164 | `==` on 4-vectors holds exactly when they are identical |
| VectorAlgebra.Vec4f.Add | Sources/Math.swift:166-172 | Defined by its body; properties in `Sub4UndoesAdd` |
| VectorAlgebra.Vec4f.Sub | Sources/Math.swift:174-180 | Defined by its body; properties in `Sub4UndoesAdd` |
| VectorAlgebra.Dot3IgnoresW | Sources/Math.swift:129-131 | `dot3` is the 4-component dot product with the direction (v, 0), and the 3-component dot product of the first three components |
| VectorAlgebra.PartialDeterminantIsDeterminant | Sources/Math.swift:74-78 | Dotting the partial determinant of a, b with a third column c gives the 3×3 determinant of columns a, b, c |
| VectorAlgebra.DeterminantRepeatedColumn | Sources/Math.swift:74-78 | That determinant vanishes when two columns are equal |
| VectorAlgebra.CrossAntiCommutative | Sources/Math.swift:41-46 | a × b = −(b × a) |
| VectorAlgebra.DotSymmetric | Sources/Math.swift:32-34 | The dot product is symmetric |
| VectorAlgebra.Dot4Symmetric | Sources/Math.swift:125-127 | The 4-component dot product is symmetric |
| VectorAlgebra.SubUndoesAdd | Sources/Math.swift:92-104 | `(a + b) - b == a`, and adding `zero()` changes nothing |
| VectorAlgebra.Sub4UndoesAdd | Sources/Math.swift:166-180 | The same two laws for 4-vectors |
| VectorAlgebra.ScaleRoundTrip | Sources/Math.swift:55-60 | Scaling by s ≠ 0 and then by 1/s gives back the vector |
| VectorAlgebra.Scale4RoundTrip | Sources/Math.swift:141-147 | The same for 4-vectors |
| VectorAlgebra.PointMulProperties | Sources/Math.swift:48-60 | The Hadamard product is commutative, and scaling by s is the Hadamard product with (s, s, s) |
| VectorAlgebra.Point4MulProperties | Sources/Math.swift:133-147 | The 4-component Hadamard product is commutative, and scaling by s is the Hadamard product with (s, s, s, s) |
| VectorAlgebra.Vec3fTestValues | Tests/MathTests.swift:10-18 | `+`, `-`, `pointMul` and `scale` give the tested values on (1,2,3) and (4,5,6) |
| VectorAlgebra.Vec3fTestProducts | Tests/MathTests.swift:15-19 | `cross`, `dot` and `magnitudeSquared` give (−3,6,−3), 32 and 14 |
| VectorAlgebra.Vec4fTestValues | Tests/MathTests.swift:25-33 | `+`, `-`, `pointMul`, `dot`, `scale` and `magnitudeSquared` give the tested 4-vector values |
| MatrixTransform.Mat4f.Identity | Sources/Math.swift:190-196 | Entry (i, j) of the identity is 1 on the diagonal and 0 elsewhere |
| MatrixTransform.Mat4f.Translate | Sources/Math.swift:199-205 | The translation is affine, its offset is v, and its upper-left 3×3 block is the identity |
| MatrixTransform.Mat4f.Scale | Sources/Math.swift:208-214 | The scaling is affine with no offset; its upper-left 3×3 block is diagonal with entries v.x, v.y, v.z |
| MatrixTransform.Mat4f.AxisAngle | Sources/Math.swift:217-228 | The axis-angle matrix is affine with no offset, and its antisymmetric part is 2s times the cross-product matrix of the axis, whatever the diagonal products |
| MatrixTransform.Mat4f.RotateAsWritten | Sources/Math.swift:217-228 | Defined by its body: the axis-angle matrix with the diagonal products (x·x, y·x, z·z) of line 222; properties in `RotateAsWrittenShrinksY` and `RotateAsWrittenDiffersOnlyAtY` |
| MatrixTransform.Mat4f.Rotate | Sources/Math.swift:217-228 | Defined by its body: the axis-angle matrix with y2 = y·y; properties in `RotateFixesX`, `RotateFixesY` and `RotateFixesZ` |
| MatrixTransform.Mat4f.Transpose | Sources/Math.swift:230-236 | Entry (i, j) of the transpose is entry (j, i) of the matrix |
| MatrixTransform.Mat4f.MulVec | Sources/Math.swift:254-256 | Component i of `M * x` is row i dotted with x |
| MatrixTransform.Mat4f.Mul | Sources/Math.swift:258-262 | The product built from two transposes has entry (i, j) = Σₖ A[i][k]·B[k][j] |
| MatrixTransform.Mat4f.TransformPoint | Sources/Math.swift:238-242 | There is no result exactly when the transformed w is 0; otherwise see `AffineTransformPoint` |
| MatrixTransform.Mat4f.TransformDirection | Sources/Math.swift:244-246 | The direction is transformed as the homogeneous vector (v, 0): the fourth column takes no part |
| MatrixTransform.Mat4f.Equal | Sources/Math.swift:250-252 | `==` on matrices holds exactly when all four rows are identical |
| MatrixTransform.TransposeInvolution | Sources/Math.swift:230-236 | Transposing twice gives back the matrix |
| MatrixTransform.IdentityIsUnit | Sources/Math.swift:258-262 | `M * identity() == M` and `identity() * M == M` |
| MatrixTransform.TestProduct | Tests/MathTests.swift:38-54 | The tested A and B multiply to exactly C |
| MatrixTransform.AffineTransformPoint | Sources/Math.swift:238-242 | For a matrix whose bottom row is (0,0,0,1), `transformPoint` divides by w = 1 and gives the linear image plus the fourth column |
| MatrixTransform.TranslatePoint | Sources/Math.swift:199-205 | `translate(t).transformPoint(p) == p + t` |
| MatrixTransform.TranslateDirection | Sources/Math.swift:199-205 | `translate(t).transformDirection(v) == v` |
| MatrixTransform.ScalePoint | Sources/Math.swift:208-214 | `scale(s).transformPoint(p) == p.pointMul(s)` |
| MatrixTransform.IdentityTransforms | Sources/Math.swift:238-246 | The identity moves neither points nor directions |
| MatrixTransform.RotateFixesX | Sources/Math.swift:217-228 | The corrected rotation about the x axis leaves the x axis fixed for every cosine and sine |
| MatrixTransform.RotateFixesY | Sources/Math.swift:217-228 | The corrected rotation about the y axis leaves the y axis fixed for every cosine and sine |
| MatrixTransform.RotateFixesZ | Sources/Math.swift:217-228 | The corrected rotation about the z axis leaves the z axis fixed for every cosine and sine |
| MatrixTransform.RotateAsWrittenShrinksY | Sources/Math.swift:222 | The rotation as written, about the y axis, sends the y axis to (0, c, 0): it moves its own axis whenever the cosine is not 1 |
| MatrixTransform.RotateAsWrittenDiffersOnlyAtY | Sources/Math.swift:222-226 | The formula as written and the corrected one differ only in the middle diagonal entry, by (y·y − y·x)(1 − c) |
| TextParsing.Split | Sources/Mesh.swift:4-5 | There is always at least one piece; the rest in `SplitShape`, `SplitConcat` and `JoinSplit` |
| TextParsing.SplitShape | Sources/Mesh.swift:4-5 | Splitting on a character set yields one more piece than there are separators, and no piece contains a separator |
| TextParsing.SplitFree | Sources/Mesh.swift:4-5 | A string without separators splits into itself alone |
| TextParsing.SplitConcat | Sources/Mesh.swift:4-5 | Splitting `a + [c] + b` at a separator c gives the pieces of a followed by the pieces of b |
| TextParsing.SplitJoin | Sources/Mesh.swift:37 | Joining separator-free pieces with a separator and splitting again gives back the pieces |
| TextParsing.JoinSplit | Sources/Mesh.swift:37 | Splitting a text and joining the pieces with its one separator gives back the text |
| TextParsing.JoinFree | Sources/Mesh.swift:37 | Joining separator-free pieces with a non-separator gives a separator-free string |
| TextParsing.Filter | Sources/Mesh.swift:39-40 | `filter` never lengthens the sequence and keeps only elements satisfying the predicate |
| TextParsing.FilterMembers | Sources/Mesh.swift:39-40 | An element is in the filtered sequence exactly when it is in the input and satisfies the predicate |
| TextParsing.FilterConcat | Sources/Mesh.swift:43-44 | Filtering distributes over concatenation, so the order of the input is kept |
| TextParsing.FilterAll | Sources/Mesh.swift:39-40 | Filtering a sequence whose every element is kept changes nothing |
| TextParsing.FilterNone | Sources/Mesh.swift:43-44 | Filtering a sequence whose every element is rejected gives the empty sequence |
| TextParsing.FilterMap | Sources/Mesh.swift:6 | `flatMap` over an optional conversion never lengthens the sequence |
| TextParsing.FilterMapConcat | Sources/Mesh.swift:6 | `flatMap` distributes over concatenation |
| TextParsing.FilterMapAll | Sources/Mesh.swift:6 | When every element converts, `flatMap` gives exactly the converted values, in order |
| TextParsing.ParseInt | Sources/Mesh.swift:18 | `Int(String)` reads a token exactly when it is an optional sign followed by at least one digit whose signed value lies in the 64-bit range, and then gives that value |
| TextParsing.ParseIntReads | Sources/Mesh.swift:18 | A sign (none, `+` or `-`) followed by digits reads as their signed value when that is in the 64-bit range, and as nothing otherwise |
| TextParsing.ParseIntExamples | Sources/Mesh.swift:18 | `"+07"` reads as 7, `"-0"` as 0, and a bare `"+"` as nothing |
| TextParsing.ParsedIntsInRange | Sources/Mesh.swift:18 | Every integer `flatMap` collects lies in the 64-bit range |
| TextParsing.ParseShowInt | Sources/Mesh.swift:18 | Every 64-bit integer, written in decimal, reads back as itself |
| TextParsing.ParseFloat | Sources/Mesh.swift:6 | Defined by its body; properties in `ParseDecimal`, `ParseFloatSign`, `ParseFloatExtendsParseInt` and `TagIsNotNumber` |
| TextParsing.ParseDecimal | Sources/Mesh.swift:6 | Digits, a point and digits, not both digit runs empty, read as the whole part plus the fraction digits over 10^(their count) |
| TextParsing.ParseFloatSign | Sources/Mesh.swift:6 | A `+` or `-` in front of an unsigned body: the token reads exactly when the body does, and `-` negates the body's value |
| TextParsing.ParseFloatHalf | Sources/Mesh.swift:6 | `"0.5"` reads as 0.5 |
| TextParsing.ParseFloatNoWhole | Sources/Mesh.swift:6 | `".5"` reads as 0.5 |
| TextParsing.ParseFloatNoFraction | Sources/Mesh.swift:6 | `"3."` reads as 3 |
| TextParsing.ParseFloatExtendsParseInt | Sources/Mesh.swift:6 | A token that reads as an integer reads as the same number when read as a float |
| TextParsing.ParseFloatShowInt | Sources/Mesh.swift:6 | A 64-bit integer written in decimal reads back as that number when read as a float |
| TextParsing.TagIsNotNumber | Sources/Mesh.swift:6 | A token starting with a letter, such as the record tag, reads as neither an integer nor a float |
| TextParsing.EmptyIsNotNumber | Sources/Mesh.swift:6 | The empty token left by repeated whitespace reads as no number |
| MeshLoader.Tokens | Sources/Mesh.swift:4-5 | Defined by its body (a split on whitespace); properties in `RecordTokens` and `DoubledSeparatorTokens` |
| MeshLoader.Lines | Sources/Mesh.swift:37 | Defined by its body (a split on newlines); properties in `LinesAppend` and `ObjLines` |
| MeshLoader.IsVertexRecord | Sources/Mesh.swift:40 | Defined by its body (`hasPrefix("v")`); properties in `VertexRecords` and `NormalRecordIsVertex` |
| MeshLoader.IsFaceRecord | Sources/Mesh.swift:44 | Defined by its body (`hasPrefix("f")`); properties in `FaceRecords` |
| MeshLoader.ReadVertex | Sources/Mesh.swift:3-8 | Defined by its body; properties in `ReadVertexRecord`, `RepeatedWhitespace`, `VertexLineReads` and `ShortVertexRecord` |
| MeshLoader.ReadFace | Sources/Mesh.swift:14-23 | A face that is read has every index in [Int64.min, Int64.max), since the decrement of Int64.min is an overflow error |
| MeshLoader.FaceOfIds | Sources/Mesh.swift:18-22 | Defined by its body; properties in `ReadFace`, `ReadFaceRecord` and `OverflowingFaceRecord` |
| MeshLoader.MapAll | Sources/Mesh.swift:39-45 | Converting every record either succeeds pointwise and in order, or fails; a failure names the first record that does not convert, and whenever there is such a first record the failure names it |
| MeshLoader.VertexRecords | Sources/Mesh.swift:37-40 | A line is a `v` record exactly when it is one of the text's lines and starts with `v` |
| MeshLoader.FaceRecords | Sources/Mesh.swift:37-44 | A line is an `f` record exactly when it is one of the text's lines and starts with `f` |
| MeshLoader.MapAllAppend | Sources/Mesh.swift:39-45 | Converting one more record appends its value, or fails naming it |
| MeshLoader.MapAllOk | Sources/Mesh.swift:39-45 | When every record converts to the given value, the conversion yields exactly those values |
| MeshLoader.ParseMesh | Sources/Mesh.swift:37-45 | The text is read exactly when every `v` record and every `f` record reads. Vertices and faces then come pointwise, in file order, from exactly those records. A failure names the first bad `v` record, or, when every `v` record reads, the first bad `f` record |
| MeshLoader.LoadMesh | Sources/Mesh.swift:30-46 | An unreadable file, and only that, gives `Unreadable` (no mesh); otherwise the result is that of reading the text |
| MeshLoader.LinesAppend | Sources/Mesh.swift:37 | Appending a newline and a line adds that line at the end of the line list |
| MeshLoader.IgnoredLine | Sources/Mesh.swift:37-45 | Appending a line that starts with neither `v` nor `f` does not change the result |
| MeshLoader.AppendVertexRecord | Sources/Mesh.swift:39-41 | Appending a `v` line to a readable text adds its vertex at the end, or fails naming that line |
| MeshLoader.AppendFaceRecord | Sources/Mesh.swift:43-45 | Appending an `f` line to a readable text adds its face at the end, or fails naming that line |
| MeshLoader.RecordTokens | Sources/Mesh.swift:4-5 | A record written as a tag and numbers separated by single spaces splits back into the tag and the numbers' decimal forms |
| MeshLoader.ReadVertexRecord | Sources/Mesh.swift:3-8 | Reading a vertex record drops the tag and takes the first three numbers; with fewer than three it fails with `TooFewValues` |
| MeshLoader.RecordInts | Sources/Mesh.swift:16-18 | The integers collected from a rendered record are exactly its numbers, in order |
| MeshLoader.ReadFaceRecord | Sources/Mesh.swift:14-23 | Reading a face record decrements every index and takes the first three. Int64.min anywhere is `IndexOverflow`, and fewer than three numbers is `TooFewValues` |
| MeshLoader.NormalRecordIsVertex | Sources/Mesh.swift:39-41 | A `vn` normal record passes the `v` prefix test and is read as a vertex |
| MeshLoader.DoubledSeparatorTokens | Sources/Mesh.swift:4-5 | A doubled whitespace character yields exactly one extra empty token |
| MeshLoader.DoubledWhitespaceValues | Sources/Mesh.swift:4-6 | A doubled whitespace character does not change the values `flatMap` collects |
| MeshLoader.SameValuesSameVertex | Sources/Mesh.swift:3-8 | Two records whose tokens give the same numbers read as the same vertex |
| MeshLoader.SameValuesSameFace | Sources/Mesh.swift:14-23 | Two records whose tokens give the same integers read as the same face |
| MeshLoader.RepeatedWhitespace | Sources/Mesh.swift:3-8 | Doubling a whitespace character changes neither the vertex nor the face read from a record |
| MeshLoader.VertexLineReads | Sources/Mesh.swift:3-8 | A vertex written as `v x y z` passes the `v` test, not the `f` test, and reads back as (x, y, z) |
| MeshLoader.FaceLineReads | Sources/Mesh.swift:14-23 | A face written with one-based indices passes the `f` test, not the `v` test, and reads back as the same zero-based face |
| MeshLoader.ObjLines | Sources/Mesh.swift:37 | A rendered mesh text splits back into its vertex lines, its face lines and one final empty line |
| MeshLoader.ObjRecords | Sources/Mesh.swift:39-44 | The `v` records of a rendered mesh text are exactly its vertex lines, and its `f` records are exactly its face lines |
| MeshLoader.ParseObjText | Sources/Mesh.swift:37-45 | Round trip: a mesh with integral coordinates and in-range indices, written as text, reads back as the same vertices and faces |
| MeshLoader.SmallMesh | Sources/Mesh.swift:37-45 | `"v 0 0 0\nv 1 0 0\nv 0 1 0\nf 1 2 3\n"` reads as the three vertices and the face (0, 1, 2) |
| MeshLoader.FaceIndicesUnchecked | Sources/Mesh.swift:43-45 | A face naming vertices that do not exist is accepted as it stands |
| MeshLoader.ShortVertexRecord | Sources/Mesh.swift:7 | A vertex record with fewer than three numbers fails with `TooFewValues`, naming the record |
| MeshLoader.OverflowingFaceRecord | Sources/Mesh.swift:19 | A face record containing Int64.min fails with `IndexOverflow`, naming the record |
| RasterExporter.Red | Sources/Image.swift:48 | Defined by its body; properties in `Channel`, `ChannelsOfPixel` and `RedNonDecreasing` |
| RasterExporter.Green | Sources/Image.swift:49 | Defined by its body; properties in `GreenFitsExactly`, `ChannelsOfPixel` and `GreenNonDecreasing` |
| RasterExporter.Blue | Sources/Image.swift:50 | Defined by its body; properties in `Channel` and `ChannelsOfPixel` |
| RasterExporter.GreenFitsExactly | Sources/Image.swift:49 | The green byte fits for every row exactly when `255·(height−1) / width < 256` |
| RasterExporter.Channel | Sources/Image.swift:48-50 | Every channel value fits in a byte, so the `UInt8` conversion does not trap |
| RasterExporter.ChannelsOfPixel | Sources/Image.swift:48-50 | Positions 3j, 3j+1 and 3j+2 of row i hold 255·j/width, 255·i/width and 255·(i+j)/(width+height) |
| RasterExporter.Gradient | Sources/Image.swift:44 | The picture has `height` rows of `3·width` bytes |
| RasterExporter.StorePixel | Sources/Image.swift:48-50 | One pixel's three stores set exactly its three positions to their channel values |
| RasterExporter.FillRows | Sources/Image.swift:44-52 | The fresh `height × 3·width` buffer holds every channel value, and every position is stored exactly once |
| RasterExporter.CollectRows | Sources/Image.swift:54-57 | The row pointers have one entry per row, in order, each holding that row's bytes |
| RasterExporter.RenderRows | Sources/Image.swift:35-57 | The 512×512 rows handed to libpng are the gradient picture |
| RasterExporter.RedNonDecreasing | Sources/Image.swift:48 | Red never decreases along a row |
| RasterExporter.GreenNonDecreasing | Sources/Image.swift:49 | Green never decreases down a column |
| RasterExporter.ChannelsBelow255 | Sources/Image.swift:35-50 | At 512×512 no channel exceeds 254 |
| RasterExporter.CornerPixels | Sources/Image.swift:48-50 | Pixel (0, 0) is black; on a 2×2 picture pixel (1, 1) is (127, 127, 127) |
| RasterExporter.Balanced | Sources/Image.swift:11-33 | In any well-ordered trace each resource is acquired once more than released if still held, and equally often otherwise |
| RasterExporter.OpenedThenFailedTrace | Sources/Image.swift:11-24 | The early return after `png_create_write_struct` fails releases everything, closing the file once |
| RasterExporter.InfoFailedTrace | Sources/Image.swift:11-30 | The early return after `png_create_info_struct` fails releases everything, closing the file once and destroying the write struct once |
| RasterExporter.SavedTrace | Sources/Image.swift:11-62 | A complete write releases everything, closing the file once and destroying the write struct once |
| RasterExporter.ExpectedTrace | Sources/Image.swift:10-62 | Defined by its body; properties in `ResourceDiscipline` and `WriteImage` |
| RasterExporter.ResourceDiscipline | Sources/Image.swift:11-33 | On every path everything acquired is released. Once opened, the file is closed, and closed last. Once created, the write struct is destroyed exactly once. A complete run sets the 512×512×8 header and the gradient rows and writes the PNG before releasing anything |
| RasterExporter.WriteImage | Sources/Image.swift:10-62 | `writeImage`, with its `defer` blocks run most recent first, produces the expected trace for each outcome of the three acquiring calls. It reports which call failed, or that the image was saved |

## Left out

- IEEE single precision is not modelled: components are exact reals, so rounding, NaN and infinities do not occur, and `==` compares exact values.
- `toRadians`, `magnitude` and `norm` are not modelled: they need π and square roots. Their tests compare float approximations.
- MatrixTransform.Mat4f.Rotate: the cosine and sine of the angle are parameters, because `cosf` and `sinf` are not modelled. That the corrected rotation fixes its axis is proved for the three coordinate axes only, not for an arbitrary unit axis.
- MatrixTransform.Mat4f.TransformPoint: gives `None` when the transformed w is 0. The source divides anyway and gets infinities or NaN.
- VectorAlgebra.Vec3f.MagnitudeSquared: states non-negativity and zero at the zero vector. It does not state that only the zero vector has squared length 0.
- VectorAlgebra.Vec4f.MagnitudeSquared: the same as for 3-vectors.
- TextParsing.ParseFloat: accepts only an optional sign, digits and an optional fraction. Swift's `Float(String)` also takes exponents, hexadecimal forms, `inf` and `nan`, and rounds to single precision.
- TextParsing.IsWhitespace and TextParsing.IsNewline list the Unicode whitespace and newline code points of Foundation's character sets. Strings are sequences of code points, without grapheme clustering or normalisation.
- MeshLoader.IsVertexRecord and MeshLoader.IsFaceRecord test the first code point. Swift's `hasPrefix` compares grapheme clusters, so a `v` followed by a combining mark would differ.
- Reading the file (`String(contentsOfFile:)`) is not modelled: `LoadMesh` receives its outcome as an optional string.
- The traps of the original on short records and on decrementing Int64.min are modelled as `BadRecord` errors rather than program termination.
- The libc and libpng calls are not modelled: they are events in a trace, and the `print` messages of the failure paths are dropped.
- RasterExporter.CollectRows: the row pointers are copies of the rows rather than aliases into the buffer. Nothing writes the buffer after they are taken.
- RasterExporter.Channel: `UInt8(255 * Double(a) / Double(b))` is modelled as integer division. For non-negative numerators and denominators of at most 1024, a double quotient cannot round across an integer. That argument is not carried out in Dafny.
- Green is divided by the width rather than the height. At the fixed 512×512 size this is harmless, so it is recorded (`GreenFitsExactly`) rather than reported as a finding: the conversion traps exactly when 255·(height−1) ≥ 256·width, so at width 512 only from height 516 on.
- `Sources/main.swift` (argument handling and process entry) is not part of this model.

## Findings

| source | as written | input that shows it | evidently intended | confidence | as-written member | corrected member |
|---|---|---|---|---|---|---|
| Sources/Math.swift:222 | `rotate` takes the diagonal products as `(x*x, y*x, z*z)` | axis (0, 1, 0), any angle whose cosine is not 1 (90°: c = 0): the y axis is sent to (0, c, 0) instead of staying fixed | `y2 = y*y`, so that a rotation leaves its own axis fixed | high; not executed | MatrixTransform.Mat4f.RotateAsWritten (shown by MatrixTransform.RotateAsWrittenShrinksY) | MatrixTransform.Mat4f.Rotate (proved by MatrixTransform.RotateFixesY) |
