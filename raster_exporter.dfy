/**
 * `writeImage` of Sources/Image.swift: a 512x512 RGB gradient is computed
 * into a buffer of rows by two nested loops and handed to libpng.  The
 * byte conversions `UInt8(255 * Double(a) / Double(b))` are on non-negative
 * operands with small denominators, where they agree with integer division.
 * The C calls are not modelled; what is kept is the order in which the file
 * and the two libpng contexts are acquired, used and released, recorded as
 * a trace of events.
 */
module RasterExporter {
  import opened Results

  newtype byte = x: int | 0 <= x < 256

  const Width: nat := 512
  const Height: nat := 512
  const BitDepth: nat := 8

  // Integer division facts

  lemma DivBelow(a: nat, b: nat, c: nat)
    requires b > 0 && a < b * c
    ensures a / b < c
  {
    assert a == (a / b) * b + a % b;
  }

  lemma MulMonotone(x: nat, y: nat, b: nat)
    requires x <= y
    ensures x * b <= y * b
  {
  }

  lemma DivMonotone(a: nat, a': nat, b: nat)
    requires b > 0 && a <= a'
    ensures a / b <= a' / b
  {
    var q, q' := a / b, a' / b;
    assert a == q * b + a % b;
    assert a' == q' * b + a' % b;
    if q > q' {
      MulMonotone(q' + 1, q, b);
      assert false;
    }
  }

  // The three channel formulas

  /** Red of pixel `j`: `255 * j / width`. */
  function Red(j: nat, width: nat): nat
    requires width > 0
  {
    255 * j / width
  }

  /** Green of row `i`: `255 * i / width` (divided by the width, not the height). */
  function Green(i: nat, width: nat): nat
    requires width > 0
  {
    255 * i / width
  }

  /** Blue of pixel (i, j): `255 * (i + j) / (width + height)`. */
  function Blue(i: nat, j: nat, width: nat, height: nat): nat
    requires width + height > 0
  {
    255 * (i + j) / (width + height)
  }

  /**
   * The green values of every row fit in a byte.  Red and blue always do;
   * green is `255 * j / width`, so the `UInt8` conversion traps exactly when
   * 255 * (height - 1) >= 256 * width (at width 512, from height 516 on).
   */
  predicate GreenFits(width: nat, height: nat) {
    width == 0 || 255 * height < 256 * width + 255
  }

  lemma GreenFitsExactly(width: nat, height: nat)
    requires width > 0
    ensures GreenFits(width, height) <==> forall i :: 0 <= i < height ==> Green(i, width) < 256
  {
    if GreenFits(width, height) {
      forall i | 0 <= i < height
        ensures Green(i, width) < 256
      {
        DivBelow(255 * i, width, 256);
      }
    } else {
      var i := height - 1;
      assert 255 * i >= 256 * width;
      assert (256 * width) / width == 256;
      DivMonotone(256 * width, 255 * i, width);
      assert Green(i, width) >= 256;
    }
  }

  /**
   * The byte at row `i`, position `k` of a `3 * width` byte row: pixel
   * `k / 3`, channel `k % 3` (red, green, blue).  It never exceeds 255.
   */
  function Channel(i: nat, k: nat, width: nat, height: nat): (v: nat)
    requires i < height && k < 3 * width && GreenFits(width, height)
    ensures v < 256
  {
    var j := k / 3;
    if k % 3 == 0 then
      DivBelow(255 * j, width, 255);
      Red(j, width)
    else if k % 3 == 1 then
      DivBelow(255 * i, width, 256);
      Green(i, width)
    else
      DivBelow(255 * (i + j), width + height, 255);
      Blue(i, j, width, height)
  }

  /** Positions `3j`, `3j+1` and `3j+2` hold the red, green and blue of pixel `j`. */
  lemma ChannelsOfPixel(i: nat, j: nat, width: nat, height: nat)
    requires i < height && j < width && GreenFits(width, height)
    ensures Channel(i, 3 * j, width, height) == Red(j, width)
    ensures Channel(i, 3 * j + 1, width, height) == Green(i, width)
    ensures Channel(i, 3 * j + 2, width, height) == Blue(i, j, width, height)
  {
    assert (3 * j) / 3 == j && (3 * j) % 3 == 0;
    assert (3 * j + 1) / 3 == j && (3 * j + 1) % 3 == 1;
    assert (3 * j + 2) / 3 == j && (3 * j + 2) % 3 == 2;
  }

  /** The whole picture, row by row. */
  function Gradient(width: nat, height: nat): (g: seq<seq<byte>>)
    requires GreenFits(width, height)
    ensures |g| == height
    ensures forall i :: 0 <= i < height ==> |g[i]| == 3 * width
  {
    seq(height, i requires 0 <= i < height =>
      seq(3 * width, k requires 0 <= k < 3 * width => Channel(i, k, width, height) as byte))
  }

  /** Position (r, k) has been visited once the loops are at row i, pixel j. */
  predicate Done(r: nat, k: nat, i: nat, j: nat) {
    r < i || (r == i && k < 3 * j)
  }

  /** The write counts after one more store to each channel of pixel (i, j). */
  function CountPixel(writes: seq<seq<nat>>, i: nat, j: nat): (w: seq<seq<nat>>)
    requires i < |writes| && 3 * j + 2 < |writes[i]|
    ensures |w| == |writes|
    ensures forall r :: 0 <= r < |w| ==> |w[r]| == |writes[r]|
    ensures forall r, k :: 0 <= r < |w| && 0 <= k < |w[r]| ==>
      w[r][k] == writes[r][k] + (if r == i && 3 * j <= k < 3 * j + 3 then 1 else 0)
  {
    var row := writes[i][3 * j := writes[i][3 * j] + 1];
    var row := row[3 * j + 1 := row[3 * j + 1] + 1];
    var row := row[3 * j + 2 := row[3 * j + 2] + 1];
    writes[i := row]
  }

  /** The body of the inner loop: the three stores of pixel (i, j). */
  method StorePixel(rows: array2<byte>, i: nat, j: nat, width: nat, height: nat)
    requires rows.Length0 == height && rows.Length1 == 3 * width
    requires i < height && j < width && GreenFits(width, height)
    modifies rows
    ensures forall r, k :: 0 <= r < height && 0 <= k < 3 * width ==>
      rows[r, k] == if r == i && 3 * j <= k < 3 * j + 3 then Channel(r, k, width, height) as byte else old(rows[r, k])
  {
    ChannelsOfPixel(i, j, width, height);
    rows[i, j * 3 + 0] := Red(j, width) as byte;
    rows[i, j * 3 + 1] := Green(i, width) as byte;
    rows[i, j * 3 + 2] := Blue(i, j, width, height) as byte;
  }

  /**
   * The buffer fill: `height` rows of `3 * width` zero bytes, then every
   * position written by the nested loops.  `writes` counts the stores per
   * position; each is stored exactly once.
   */
  method FillRows(width: nat, height: nat) returns (rows: array2<byte>, ghost writes: seq<seq<nat>>)
    requires GreenFits(width, height)
    ensures fresh(rows)
    ensures rows.Length0 == height && rows.Length1 == 3 * width
    ensures forall i, k :: 0 <= i < height && 0 <= k < 3 * width ==>
      rows[i, k] == Channel(i, k, width, height) as byte
    ensures |writes| == height
    ensures forall i :: 0 <= i < height ==> |writes[i]| == 3 * width
    ensures forall i, k :: 0 <= i < height && 0 <= k < 3 * width ==> writes[i][k] == 1
  {
    rows := new byte[height, 3 * width]((i, k) => 0);
    writes := seq(height, i => seq(3 * width, k => 0));
    for i := 0 to height
      invariant |writes| == height
      invariant forall r :: 0 <= r < height ==> |writes[r]| == 3 * width
      invariant forall r, k :: 0 <= r < height && 0 <= k < 3 * width ==>
        rows[r, k] == (if r < i then Channel(r, k, width, height) as byte else 0)
      invariant forall r, k :: 0 <= r < height && 0 <= k < 3 * width ==>
        writes[r][k] == (if r < i then 1 else 0)
    {
      for j := 0 to width
        invariant |writes| == height
        invariant forall r :: 0 <= r < height ==> |writes[r]| == 3 * width
        invariant forall r, k :: 0 <= r < height && 0 <= k < 3 * width ==>
          rows[r, k] == (if Done(r, k, i, j) then Channel(r, k, width, height) as byte else 0)
        invariant forall r, k :: 0 <= r < height && 0 <= k < 3 * width ==>
          writes[r][k] == (if Done(r, k, i, j) then 1 else 0)
      {
        StorePixel(rows, i, j, width, height);
        writes := CountPixel(writes, i, j);
      }
    }
  }

  /** Row `i` of the buffer as a sequence of bytes. */
  function RowOf(rows: array2<byte>, i: nat): (row: seq<byte>)
    requires i < rows.Length0
    reads rows
    ensures |row| == rows.Length1
    ensures forall k :: 0 <= k < rows.Length1 ==> row[k] == rows[i, k]
  {
    seq(rows.Length1, k requires 0 <= k < rows.Length1 reads rows => rows[i, k])
  }

  /** The `row_pointers` loop: one entry per row, in order, each giving that row's bytes. */
  method CollectRows(rows: array2<byte>) returns (pointers: seq<seq<byte>>)
    ensures |pointers| == rows.Length0
    ensures forall i :: 0 <= i < rows.Length0 ==> |pointers[i]| == rows.Length1
    ensures forall i, k :: 0 <= i < rows.Length0 && 0 <= k < rows.Length1 ==> pointers[i][k] == rows[i, k]
  {
    pointers := [];
    for i := 0 to rows.Length0
      invariant |pointers| == i
      invariant forall r :: 0 <= r < i ==> pointers[r] == RowOf(rows, r)
    {
      pointers := pointers + [RowOf(rows, i)];
    }
  }

  // Properties of the picture

  lemma RedNonDecreasing(j: nat, j': nat, width: nat)
    requires width > 0 && j <= j'
    ensures Red(j, width) <= Red(j', width)
  {
    DivMonotone(255 * j, 255 * j', width);
  }

  lemma GreenNonDecreasing(i: nat, i': nat, width: nat)
    requires width > 0 && i <= i'
    ensures Green(i, width) <= Green(i', width)
  {
    DivMonotone(255 * i, 255 * i', width);
  }

  /** At 512x512 no channel exceeds 254, so no conversion traps. */
  lemma ChannelsBelow255(i: nat, k: nat)
    requires i < Height && k < 3 * Width
    ensures Channel(i, k, Width, Height) <= 254
  {
    var j := k / 3;
    DivMonotone(255 * j, 255 * 511, 512);
    DivMonotone(255 * i, 255 * 511, 512);
    DivMonotone(255 * (i + j), 255 * 1022, 1024);
  }

  /** The top-left pixel is black; on a 2x2 picture the bottom-right one is (127, 127, 127). */
  lemma CornerPixels()
    ensures Channel(0, 0, Width, Height) == 0
    ensures Channel(0, 1, Width, Height) == 0
    ensures Channel(0, 2, Width, Height) == 0
    ensures Channel(1, 3, 2, 2) == 127 && Channel(1, 4, 2, 2) == 127 && Channel(1, 5, 2, 2) == 127
  {
    ChannelsOfPixel(0, 0, Width, Height);
    ChannelsOfPixel(1, 1, 2, 2);
  }

  // Resource discipline

  datatype Resource = File | WriteStruct | InfoStruct

  datatype Event =
    | Opened                          // fopen succeeded
    | WriteCreated                    // png_create_write_struct succeeded
    | InfoCreated                     // png_create_info_struct succeeded
    | WriteDestroyed(withInfo: bool)  // png_destroy_write_struct, with or without the info struct
    | Closed                          // fclose
    | HeaderSet(width: nat, height: nat, bitDepth: nat)
    | RowsSet(rows: seq<seq<byte>>)
    | IoInitialised
    | PngWritten

  datatype Outcome = Saved | OpenFailed | WriteStructFailed | InfoStructFailed

  /**
   * One event against the set of live resources; None when the event is
   * out of order: acquiring twice, releasing what is not held, destroying
   * the write struct without the live info struct (a leak), closing the
   * file while a libpng context is alive, or using a context that is not.
   */
  function Step(held: set<Resource>, e: Event): Option<set<Resource>> {
    match e
    case Opened =>
      if held == {} then Some({File}) else None
    case WriteCreated =>
      if held == {File} then Some({File, WriteStruct}) else None
    case InfoCreated =>
      if held == {File, WriteStruct} then Some(held + {InfoStruct}) else None
    case WriteDestroyed(withInfo) =>
      if WriteStruct in held && (withInfo <==> InfoStruct in held)
      then Some(held - {WriteStruct, InfoStruct}) else None
    case Closed =>
      if held == {File} then Some({}) else None
    case _ =>
      if held == {File, WriteStruct, InfoStruct} then Some(held) else None
  }

  function Replay(trace: seq<Event>): Option<set<Resource>>
    decreases |trace|
  {
    if |trace| == 0 then Some({})
    else
      match Replay(trace[..|trace| - 1])
      case None => None
      case Some(held) => Step(held, trace[|trace| - 1])
  }

  predicate Acquires(e: Event, r: Resource) {
    (e.Opened? && r == File) || (e.WriteCreated? && r == WriteStruct) || (e.InfoCreated? && r == InfoStruct)
  }

  predicate Releases(e: Event, r: Resource) {
    (e.Closed? && r == File)
    || (e.WriteDestroyed? && r == WriteStruct)
    || (e.WriteDestroyed? && e.withInfo && r == InfoStruct)
  }

  function Acquired(trace: seq<Event>, r: Resource): nat
    decreases |trace|
  {
    if |trace| == 0 then 0
    else Acquired(trace[..|trace| - 1], r) + (if Acquires(trace[|trace| - 1], r) then 1 else 0)
  }

  function Released(trace: seq<Event>, r: Resource): nat
    decreases |trace|
  {
    if |trace| == 0 then 0
    else Released(trace[..|trace| - 1], r) + (if Releases(trace[|trace| - 1], r) then 1 else 0)
  }

  /** Every acquisition is matched by one release, except for the resources still held. */
  lemma {:induction false} Balanced(trace: seq<Event>, held: set<Resource>, r: Resource)
    requires Replay(trace) == Some(held)
    ensures Acquired(trace, r) == Released(trace, r) + (if r in held then 1 else 0)
    decreases |trace|
  {
    if |trace| > 0 {
      var before := Replay(trace[..|trace| - 1]).value;
      Balanced(trace[..|trace| - 1], before, r);
    }
  }

  lemma Extend(trace: seq<Event>, e: Event)
    ensures Replay(trace + [e]) == if Replay(trace).Some? then Step(Replay(trace).value, e) else None
    ensures forall r :: Released(trace + [e], r) == Released(trace, r) + (if Releases(e, r) then 1 else 0)
  {
    assert (trace + [e])[..|trace|] == trace;
  }

  /** The trace of the early return when the write struct cannot be created. */
  lemma OpenedThenFailedTrace()
    ensures Replay([Opened, Closed]) == Some({})
    ensures Released([Opened, Closed], File) == 1
  {
    var t1 := [Opened];
    assert t1 == [] + [Opened];
    Extend([], Opened);
    assert Replay(t1) == Some({File});
    assert [Opened, Closed] == t1 + [Closed];
    Extend(t1, Closed);
  }

  /** The trace of the early return when the info struct cannot be created. */
  lemma InfoFailedTrace()
    ensures Replay([Opened, WriteCreated, WriteDestroyed(false), Closed]) == Some({})
    ensures Released([Opened, WriteCreated, WriteDestroyed(false), Closed], File) == 1
    ensures Released([Opened, WriteCreated, WriteDestroyed(false), Closed], WriteStruct) == 1
  {
    var t1 := [Opened];
    assert t1 == [] + [Opened];
    Extend([], Opened);
    assert Replay(t1) == Some({File});
    var t2 := t1 + [WriteCreated];
    Extend(t1, WriteCreated);
    assert Replay(t2) == Some({File, WriteStruct});
    var t3 := t2 + [WriteDestroyed(false)];
    Extend(t2, WriteDestroyed(false));
    assert {File, WriteStruct} - {WriteStruct, InfoStruct} == {File};
    assert Replay(t3) == Some({File});
    Extend(t3, Closed);
    assert [Opened, WriteCreated, WriteDestroyed(false), Closed] == t3 + [Closed];
  }

  /** The trace of a complete write. */
  lemma SavedTrace(rows: seq<seq<byte>>)
    ensures var t := [Opened, WriteCreated, InfoCreated, HeaderSet(Width, Height, BitDepth),
                      RowsSet(rows), IoInitialised, PngWritten, WriteDestroyed(true), Closed];
            Replay(t) == Some({}) && Released(t, File) == 1 && Released(t, WriteStruct) == 1
  {
    var all := {File, WriteStruct, InfoStruct};
    var t1 := [Opened];
    assert t1 == [] + [Opened];
    Extend([], Opened);
    var t2 := t1 + [WriteCreated];
    Extend(t1, WriteCreated);
    var t3 := t2 + [InfoCreated];
    Extend(t2, InfoCreated);
    assert {File, WriteStruct} + {InfoStruct} == all;
    assert Replay(t3) == Some(all);
    var t4 := t3 + [HeaderSet(Width, Height, BitDepth)];
    Extend(t3, HeaderSet(Width, Height, BitDepth));
    var t5 := t4 + [RowsSet(rows)];
    Extend(t4, RowsSet(rows));
    var t6 := t5 + [IoInitialised];
    Extend(t5, IoInitialised);
    var t7 := t6 + [PngWritten];
    Extend(t6, PngWritten);
    assert Replay(t7) == Some(all);
    var t8 := t7 + [WriteDestroyed(true)];
    Extend(t7, WriteDestroyed(true));
    assert all - {WriteStruct, InfoStruct} == {File};
    assert Replay(t8) == Some({File});
    var t9 := t8 + [Closed];
    Extend(t8, Closed);
    assert t9 == [Opened, WriteCreated, InfoCreated, HeaderSet(Width, Height, BitDepth),
                  RowsSet(rows), IoInitialised, PngWritten, WriteDestroyed(true), Closed];
  }

  /** The rows handed to libpng are the gradient picture. */
  lemma RowsAreGradient(rows: array2<byte>, pointers: seq<seq<byte>>)
    requires rows.Length0 == Height && rows.Length1 == 3 * Width
    requires forall i, k :: 0 <= i < Height && 0 <= k < 3 * Width ==>
      rows[i, k] == Channel(i, k, Width, Height) as byte
    requires |pointers| == rows.Length0
    requires forall i :: 0 <= i < rows.Length0 ==> |pointers[i]| == rows.Length1
    requires forall i, k :: 0 <= i < rows.Length0 && 0 <= k < rows.Length1 ==> pointers[i][k] == rows[i, k]
    ensures pointers == Gradient(Width, Height)
  {
    var g := Gradient(Width, Height);
    forall i | 0 <= i < Height
      ensures pointers[i] == g[i]
    {
      assert forall k :: 0 <= k < 3 * Width ==> pointers[i][k] == g[i][k];
    }
  }

  /** Lines 35-57 of `writeImage`: the 512x512 buffer and its row pointers. */
  method RenderRows() returns (pointers: seq<seq<byte>>)
    ensures pointers == Gradient(Width, Height)
  {
    var rows, _ := FillRows(Width, Height);
    pointers := CollectRows(rows);
    RowsAreGradient(rows, pointers);
  }

  /** The events of `writeImage` on each path, given which acquiring calls succeed. */
  function ExpectedTrace(fileOpens: bool, writeStructCreated: bool, infoStructCreated: bool): seq<Event> {
    if !fileOpens then []
    else if !writeStructCreated then [Opened, Closed]
    else if !infoStructCreated then [Opened, WriteCreated, WriteDestroyed(false), Closed]
    else [Opened, WriteCreated, InfoCreated, HeaderSet(Width, Height, BitDepth),
          RowsSet(Gradient(Width, Height)), IoInitialised, PngWritten, WriteDestroyed(true), Closed]
  }

  /**
   * Resource discipline on every path: whatever is acquired is released,
   * nothing twice and in reverse order; once the file is open it is closed
   * last; once the write struct exists it is destroyed exactly once; a
   * complete run sets the 512x512x8 header and the gradient rows and writes
   * the PNG before anything is released.
   */
  lemma ResourceDiscipline(fileOpens: bool, writeStructCreated: bool, infoStructCreated: bool)
    ensures var t := ExpectedTrace(fileOpens, writeStructCreated, infoStructCreated);
      && Replay(t) == Some({})
      && (fileOpens ==> |t| > 0 && t[|t| - 1] == Closed && Released(t, File) == 1)
      && (fileOpens && writeStructCreated ==> Released(t, WriteStruct) == 1)
      && (fileOpens && writeStructCreated && infoStructCreated ==>
            HeaderSet(Width, Height, BitDepth) in t && RowsSet(Gradient(Width, Height)) in t
            && t[|t| - 3] == PngWritten)
  {
    OpenedThenFailedTrace();
    InfoFailedTrace();
    SavedTrace(Gradient(Width, Height));
    var t := ExpectedTrace(fileOpens, writeStructCreated, infoStructCreated);
    if fileOpens && writeStructCreated && infoStructCreated {
      assert t[3] == HeaderSet(Width, Height, BitDepth);
      assert t[4] == RowsSet(Gradient(Width, Height));
    }
  }

  /**
   * `writeImage` with the outcome of the three acquiring calls as inputs.
   * `deferred` holds the registered `defer` blocks, most recent first; every
   * return runs them in that order.
   */
  method WriteImage(fileOpens: bool, writeStructCreated: bool, infoStructCreated: bool)
    returns (trace: seq<Event>, outcome: Outcome)
    ensures trace == ExpectedTrace(fileOpens, writeStructCreated, infoStructCreated)
    ensures outcome == OpenFailed <==> !fileOpens
    ensures outcome == WriteStructFailed <==> fileOpens && !writeStructCreated
    ensures outcome == InfoStructFailed <==> fileOpens && writeStructCreated && !infoStructCreated
    ensures outcome == Saved <==> fileOpens && writeStructCreated && infoStructCreated
  {
    trace := [];
    var deferred: seq<Event> := [];
    if !fileOpens {
      outcome := OpenFailed;
      return;
    }
    trace := trace + [Opened];
    deferred := [Closed] + deferred;

    if !writeStructCreated {
      outcome := WriteStructFailed;
      trace := trace + deferred;
      return;
    }
    trace := trace + [WriteCreated];

    if !infoStructCreated {
      trace := trace + [WriteDestroyed(false)];
      outcome := InfoStructFailed;
      trace := trace + deferred;
      return;
    }
    trace := trace + [InfoCreated];
    deferred := [WriteDestroyed(true)] + deferred;

    trace := trace + [HeaderSet(Width, Height, BitDepth)];
    var pointers := RenderRows();
    trace := trace + [RowsSet(pointers), IoInitialised, PngWritten];
    outcome := Saved;
    trace := trace + deferred;
  }
}
