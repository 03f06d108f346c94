/**
 * The page renderer (render_pdf): one document page per page id of the note,
 * and for every shape row of that page, in table order, a line-width change
 * followed by the stroke's segments. The document is an FPDF object; here it
 * is the log of the drawing commands issued to it.
 */
module Render {
  import opened Wrappers
  import opened Catalog
  import opened StrokeDecode
  import opened Projection

  /** The fixed factor from stroke thickness to line width. */
  const WidthScale: real := 0.1

  /** The drawing commands render_pdf issues to the document. */
  datatype Command =
    | AddPage
    | SetLineWidth(width: real)
    | Line(x1: real, y1: real, x2: real, y2: real)

  /** A row of the note's shape table: its page id, the vertex blob, the parsed
      "values" list of the matrix and the thickness. */
  datatype ShapeRow = ShapeRow(page: PageId, points: seq<byte>, matrix: seq<real>, thickness: real)

  /** The document under construction, as the commands it has received. */
  class Pdf {
    var log: seq<Command>

    constructor ()
      ensures log == []
    {
      log := [];
    }

    method AddPage()
      modifies this
      ensures log == old(log) + [Command.AddPage]
    {
      log := log + [Command.AddPage];
    }

    method SetLineWidth(width: real)
      modifies this
      ensures log == old(log) + [Command.SetLineWidth(width)]
    {
      log := log + [Command.SetLineWidth(width)];
    }

    method Line(x1: real, y1: real, x2: real, y2: real)
      modifies this
      ensures log == old(log) + [Command.Line(x1, y1, x2, y2)]
    {
      log := log + [Command.Line(x1, y1, x2, y2)];
    }
  }

  // ---------------------------------------------------------------------------
  // What the document receives

  /** The rows of the shape table whose page id is `page`, in table order
      (render_pdf's per-page query of the shape table). */
  function Query(shapes: seq<ShapeRow>, page: PageId): (rows: seq<ShapeRow>)
    ensures forall r :: r in rows ==> r in shapes && r.page == page
    ensures forall r :: r in shapes && r.page == page ==> r in rows
  {
    if shapes == [] then []
    else
      var rest := Query(shapes[1..], page);
      assert forall r :: r in shapes[1..] ==> r in shapes;
      if shapes[0].page == page then [shapes[0]] + rest else rest
  }

  /** A single row is returned exactly when it carries the page id. */
  lemma QueryOne(r: ShapeRow, page: PageId)
    ensures Query([r], page) == if r.page == page then [r] else []
  {
    assert [r][1..] == [];
  }

  /** The query keeps table order and repeated rows: the rows of a + b that
      carry the page id are those of a, then those of b. */
  lemma {:induction false} QueryAppend(a: seq<ShapeRow>, b: seq<ShapeRow>, page: PageId)
    ensures Query(a + b, page) == Query(a, page) + Query(b, page)
    decreases |a|
  {
    if a == [] {
      assert a + b == b;
    } else {
      assert (a + b)[0] == a[0];
      assert (a + b)[1..] == a[1..] + b;
      QueryAppend(a[1..], b, page);
      if a[0].page == page {
        assert [a[0]] + (Query(a[1..], page) + Query(b, page)) ==
          ([a[0]] + Query(a[1..], page)) + Query(b, page);
      }
    }
  }

  /** One line command per segment, in order. */
  function Draw(segments: seq<Segment>): (cmds: seq<Command>)
    ensures |cmds| == |segments|
    decreases |segments|
  {
    if segments == [] then []
    else
      var s := segments[0];
      [Command.Line(s.xStart, s.yStart, s.xEnd, s.yEnd)] + Draw(segments[1..])
  }

  lemma {:induction false} DrawAt(segments: seq<Segment>, r: nat)
    requires r < |segments|
    ensures Draw(segments)[r] ==
      Command.Line(segments[r].xStart, segments[r].yStart, segments[r].xEnd, segments[r].yEnd)
    decreases |segments|
  {
    if r > 0 {
      DrawAt(segments[1..], r - 1);
    }
  }

  lemma {:induction false} DrawAppend(a: seq<Segment>, b: seq<Segment>)
    ensures Draw(a + b) == Draw(a) + Draw(b)
    decreases |a|
  {
    if a == [] {
      assert a + b == b;
    } else {
      assert (a + b)[0] == a[0];
      assert (a + b)[1..] == a[1..] + b;
      DrawAppend(a[1..], b);
      var s := a[0];
      calc {
        Draw(a + b);
        [Command.Line(s.xStart, s.yStart, s.xEnd, s.yEnd)] + Draw(a[1..] + b);
        [Command.Line(s.xStart, s.yStart, s.xEnd, s.yEnd)] + (Draw(a[1..]) + Draw(b));
        Draw(a) + Draw(b);
      }
    }
  }

  /** The commands of one shape row, or the ValueError its decode raises. */
  function StrokeCommands(row: ShapeRow, float32: nat -> real): Result<seq<Command>, DecodeError>
  {
    if |row.matrix| != 9 then Err(MatrixNotThreeByThree)
    else match DecodeVertices(row.points, float32)
      case Err(e) => Err(e)
      case Ok(vs) =>
        Ok([Command.SetLineWidth(row.thickness * WidthScale)] + Draw(Segments(ProjectAll(vs, row.matrix))))
  }

  lemma StrokeCommandsCases(row: ShapeRow, float32: nat -> real)
    ensures |row.matrix| != 9 ==> StrokeCommands(row, float32) == Err(MatrixNotThreeByThree)
    ensures |row.matrix| == 9 && DecodeVertices(row.points, float32).Err? ==>
      StrokeCommands(row, float32) == Err(DecodeVertices(row.points, float32).error)
    ensures |row.matrix| == 9 && DecodeVertices(row.points, float32).Ok? ==>
      StrokeCommands(row, float32) == Ok([Command.SetLineWidth(row.thickness * WidthScale)] +
        Draw(Segments(ProjectAll(DecodeVertices(row.points, float32).value, row.matrix))))
  {
  }

  /** The commands of a page's rows, in row order; the first failing row ends it. */
  function PageCommands(rows: seq<ShapeRow>, float32: nat -> real): Result<seq<Command>, DecodeError>
    decreases |rows|
  {
    if rows == [] then Ok([])
    else match PageCommands(rows[..|rows| - 1], float32)
      case Err(e) => Err(e)
      case Ok(before) =>
        match StrokeCommands(rows[|rows| - 1], float32)
        case Err(e) => Err(e)
        case Ok(cmds) => Ok(before + cmds)
  }

  /** The commands of the whole note: per page id, a new page and its rows. */
  function DocumentCommands(pages: seq<PageId>, shapes: seq<ShapeRow>, float32: nat -> real): Result<seq<Command>, DecodeError>
    decreases |pages|
  {
    if pages == [] then Ok([])
    else match DocumentCommands(pages[..|pages| - 1], shapes, float32)
      case Err(e) => Err(e)
      case Ok(before) =>
        match PageCommands(Query(shapes, pages[|pages| - 1]), float32)
        case Err(e) => Err(e)
        case Ok(cmds) => Ok(before + [Command.AddPage] + cmds)
  }

  // ---------------------------------------------------------------------------
  // Properties of the command sequence

  /** The shape of a row that render_pdf can decode: nine matrix values and
      a blob of whole 24-byte vertices. */
  predicate Decodable(row: ShapeRow)
  {
    |row.matrix| == 9 && |row.points| % 24 == 0
  }

  /** A stroke renders exactly when its matrix has nine values and its blob
      holds whole 24-byte vertices. */
  lemma StrokeOkIff(row: ShapeRow, float32: nat -> real)
    ensures StrokeCommands(row, float32).Ok? <==> Decodable(row)
  {
    DecodeVerticesShape(row.points, float32);
    StrokeCommandsCases(row, float32);
  }

  /** A decoded stroke sets the line width to thickness * 0.1 and then draws
      max(n - 1, 0) lines for its n vertices, line r joining projected vertex r
      to projected vertex r + 1. */
  lemma StrokeLines(row: ShapeRow, float32: nat -> real)
    requires StrokeCommands(row, float32).Ok?
    ensures DecodeVertices(row.points, float32).Ok? && |row.matrix| == 9
    ensures
      var cmds := StrokeCommands(row, float32).value;
      var vs := DecodeVertices(row.points, float32).value;
      && |cmds| == (if |vs| == 0 then 1 else |vs|)
      && cmds[0] == Command.SetLineWidth(row.thickness * WidthScale)
      && forall r :: 0 <= r < |vs| - 1 ==>
           var p, q := Project(vs[r], row.matrix), Project(vs[r + 1], row.matrix);
           cmds[1 + r] == Command.Line(p.x, p.y, q.x, q.y)
  {
    StrokeCommandsCases(row, float32);
    var vs := DecodeVertices(row.points, float32).value;
    var points := ProjectAll(vs, row.matrix);
    var segments := Segments(points);
    SegmentsShape(points);
    var cmds := StrokeCommands(row, float32).value;
    assert cmds == [Command.SetLineWidth(row.thickness * WidthScale)] + Draw(segments);
    forall r | 0 <= r < |vs| - 1
      ensures cmds[1 + r] == Command.Line(points[r].x, points[r].y, points[r + 1].x, points[r + 1].y)
    {
      assert cmds[1 + r] == Draw(segments)[r];
      DrawAt(segments, r);
    }
    forall r | 0 <= r < |vs|
      ensures points[r] == Project(vs[r], row.matrix)
    {
      ProjectAllAt(vs, row.matrix, r);
    }
  }

  /** A stroke's commands never start a page. */
  lemma StrokeAddsNoPage(row: ShapeRow, float32: nat -> real)
    requires StrokeCommands(row, float32).Ok?
    ensures Command.AddPage !in StrokeCommands(row, float32).value
  {
    StrokeCommandsCases(row, float32);
    var vs := DecodeVertices(row.points, float32).value;
    var segments := Segments(ProjectAll(vs, row.matrix));
    forall r | 0 <= r < |segments|
      ensures Draw(segments)[r] != Command.AddPage
    {
      DrawAt(segments, r);
    }
  }

  /** No command of a page's rows starts a page. */
  lemma {:induction false} PageCommandsAddNoPage(rows: seq<ShapeRow>, float32: nat -> real)
    requires PageCommands(rows, float32).Ok?
    ensures Command.AddPage !in PageCommands(rows, float32).value
    decreases |rows|
  {
    if rows != [] {
      var init := rows[..|rows| - 1];
      PageCommandsAddNoPage(init, float32);
      StrokeAddsNoPage(rows[|rows| - 1], float32);
      var before := PageCommands(init, float32).value;
      var cmds := StrokeCommands(rows[|rows| - 1], float32).value;
      assert PageCommands(rows, float32).value == before + cmds;
    }
  }

  /** The number of page starts in a command sequence. */
  function PagesStarted(cmds: seq<Command>): nat
  {
    if cmds == [] then 0
    else PagesStarted(cmds[..|cmds| - 1]) + (if cmds[|cmds| - 1] == Command.AddPage then 1 else 0)
  }

  lemma {:induction false} PagesStartedAppend(a: seq<Command>, b: seq<Command>)
    ensures PagesStarted(a + b) == PagesStarted(a) + PagesStarted(b)
    decreases |b|
  {
    if b == [] {
      assert a + b == a;
    } else {
      PagesStartedAppend(a, b[..|b| - 1]);
      assert (a + b)[..|a + b| - 1] == a + b[..|b| - 1];
    }
  }

  lemma {:induction false} PagesStartedNone(cmds: seq<Command>)
    requires Command.AddPage !in cmds
    ensures PagesStarted(cmds) == 0
    decreases |cmds|
  {
    if cmds != [] {
      assert forall c :: c in cmds[..|cmds| - 1] ==> c in cmds;
      PagesStartedNone(cmds[..|cmds| - 1]);
    }
  }

  /** A rendered note has exactly one page per page id, blank pages included. */
  lemma {:induction false} OnePagePerPageId(pages: seq<PageId>, shapes: seq<ShapeRow>, float32: nat -> real)
    requires DocumentCommands(pages, shapes, float32).Ok?
    ensures PagesStarted(DocumentCommands(pages, shapes, float32).value) == |pages|
    decreases |pages|
  {
    if pages != [] {
      var init := pages[..|pages| - 1];
      OnePagePerPageId(init, shapes, float32);
      var rows := Query(shapes, pages[|pages| - 1]);
      PageCommandsAddNoPage(rows, float32);
      var before := DocumentCommands(init, shapes, float32).value;
      var cmds := PageCommands(rows, float32).value;
      PagesStartedNone(cmds);
      PagesStartedAppend(before + [Command.AddPage], cmds);
      PagesStartedAppend(before, [Command.AddPage]);
    }
  }

  /** A page id without shape rows still gets its page: just the page start. */
  lemma BlankPage(pages: seq<PageId>, page: PageId, shapes: seq<ShapeRow>, float32: nat -> real)
    requires Query(shapes, page) == []
    requires DocumentCommands(pages, shapes, float32).Ok?
    ensures DocumentCommands(pages + [page], shapes, float32) ==
      Ok(DocumentCommands(pages, shapes, float32).value + [Command.AddPage])
  {
    assert (pages + [page])[..|pages + [page]| - 1] == pages;
    assert PageCommands([], float32) == Ok([]);
    var before := DocumentCommands(pages, shapes, float32).value;
    assert before + [Command.AddPage] + [] == before + [Command.AddPage];
  }

  /** One more row: the page still has commands exactly when it had them and
      the new row decodes. */
  lemma PageStep(rows: seq<ShapeRow>, float32: nat -> real)
    requires rows != []
    ensures PageCommands(rows, float32).Ok? <==>
      PageCommands(rows[..|rows| - 1], float32).Ok? && Decodable(rows[|rows| - 1])
  {
    StrokeOkIff(rows[|rows| - 1], float32);
  }

  /** A page has commands exactly when every one of its rows decodes. */
  lemma {:induction false} PageOkIff(rows: seq<ShapeRow>, float32: nat -> real)
    ensures PageCommands(rows, float32).Ok? <==> forall r :: r in rows ==> Decodable(r)
    decreases |rows|
  {
    if rows != [] {
      var init, last := rows[..|rows| - 1], rows[|rows| - 1];
      PageOkIff(init, float32);
      PageStep(rows, float32);
      assert rows == init + [last];
      assert forall r :: r in rows <==> r in init || r == last;
    }
  }

  lemma DocumentStep(pages: seq<PageId>, shapes: seq<ShapeRow>, float32: nat -> real)
    requires pages != []
    ensures DocumentCommands(pages, shapes, float32).Ok? <==>
      DocumentCommands(pages[..|pages| - 1], shapes, float32).Ok? &&
      PageCommands(Query(shapes, pages[|pages| - 1]), float32).Ok?
  {
  }

  /** The note renders exactly when every shape row of a listed page id
      decodes: one malformed stroke anywhere aborts the whole note, nothing is
      skipped. */
  lemma {:induction false} DocumentOkIff(pages: seq<PageId>, shapes: seq<ShapeRow>, float32: nat -> real)
    ensures DocumentCommands(pages, shapes, float32).Ok? <==>
      forall r :: r in shapes && r.page in pages ==> Decodable(r)
    decreases |pages|
  {
    if pages != [] {
      var init, last := pages[..|pages| - 1], pages[|pages| - 1];
      DocumentOkIff(init, shapes, float32);
      PageOkIff(Query(shapes, last), float32);
      DocumentStep(pages, shapes, float32);
      assert pages == init + [last];
      assert forall p :: p in pages <==> p in init || p == last;
    }
  }

  /** Running one command source after another: the first error wins,
      otherwise the commands are concatenated in order. */
  function Then(a: Result<seq<Command>, DecodeError>, b: Result<seq<Command>, DecodeError>): (r: Result<seq<Command>, DecodeError>)
    ensures r.Ok? <==> a.Ok? && b.Ok?
    ensures r.Ok? ==> r.value == a.value + b.value
    ensures a.Err? ==> r == a
    ensures a.Ok? && b.Err? ==> r == b
  {
    if a.Err? then a else if b.Err? then b else Ok(a.value + b.value)
  }

  /** One more row: its commands follow those of the rows before it. */
  lemma PageCommandsSnoc(rows: seq<ShapeRow>, j: nat, float32: nat -> real)
    requires j < |rows|
    ensures PageCommands(rows[..j + 1], float32) ==
      Then(PageCommands(rows[..j], float32), StrokeCommands(rows[j], float32))
  {
    assert rows[..j + 1][..j] == rows[..j];
    PageCommandsLast(rows[..j + 1], float32);
  }

  /** The last row of a page: its commands after those of the rows before it. */
  lemma PageCommandsLast(rows: seq<ShapeRow>, float32: nat -> real)
    requires rows != []
    ensures PageCommands(rows, float32) ==
      Then(PageCommands(rows[..|rows| - 1], float32), StrokeCommands(rows[|rows| - 1], float32))
  {
  }

  /** The rows of a page are drawn in order: the commands of a + b are those
      of a followed by those of b. */
  lemma {:induction false} PageCommandsAppend(a: seq<ShapeRow>, b: seq<ShapeRow>, float32: nat -> real)
    ensures PageCommands(a + b, float32) == Then(PageCommands(a, float32), PageCommands(b, float32))
    decreases |b|
  {
    var pa := PageCommands(a, float32);
    if b == [] {
      assert a + b == a;
      if pa.Ok? {
        assert pa.value + [] == pa.value;
      }
    } else {
      var init, last := b[..|b| - 1], b[|b| - 1];
      assert (a + b)[..|a + b| - 1] == a + init;
      assert (a + b)[|a + b| - 1] == last;
      PageCommandsAppend(a, init, float32);
      PageCommandsLast(a + b, float32);
      PageCommandsLast(b, float32);
      ThenAssoc(pa, PageCommands(init, float32), StrokeCommands(last, float32));
    }
  }

  /** One more page id: a new page and its rows follow the pages before it. */
  lemma DocumentCommandsSnoc(pages: seq<PageId>, i: nat, shapes: seq<ShapeRow>, float32: nat -> real)
    requires i < |pages|
    ensures DocumentCommands(pages[..i + 1], shapes, float32) ==
      Then(Then(DocumentCommands(pages[..i], shapes, float32), Ok([Command.AddPage])),
           PageCommands(Query(shapes, pages[i]), float32))
  {
    assert pages[..i + 1][..i] == pages[..i];
    DocumentCommandsLast(pages[..i + 1], shapes, float32);
  }

  /** Then is associative. */
  lemma ThenAssoc(a: Result<seq<Command>, DecodeError>, b: Result<seq<Command>, DecodeError>, c: Result<seq<Command>, DecodeError>)
    ensures Then(Then(a, b), c) == Then(a, Then(b, c))
  {
    if a.Ok? && b.Ok? && c.Ok? {
      assert a.value + b.value + c.value == a.value + (b.value + c.value);
    }
  }

  /** The last page id of a note: a new page, then its rows, after the pages before it. */
  lemma DocumentCommandsLast(pages: seq<PageId>, shapes: seq<ShapeRow>, float32: nat -> real)
    requires pages != []
    ensures DocumentCommands(pages, shapes, float32) ==
      Then(Then(DocumentCommands(pages[..|pages| - 1], shapes, float32), Ok([Command.AddPage])),
           PageCommands(Query(shapes, pages[|pages| - 1]), float32))
  {
  }

  /** The pages of a note are drawn in order: the commands for page ids p + q
      are those for p followed by those for q. */
  lemma {:induction false} DocumentCommandsAppend(p: seq<PageId>, q: seq<PageId>, shapes: seq<ShapeRow>, float32: nat -> real)
    ensures DocumentCommands(p + q, shapes, float32) ==
      Then(DocumentCommands(p, shapes, float32), DocumentCommands(q, shapes, float32))
    decreases |q|
  {
    var dp := DocumentCommands(p, shapes, float32);
    if q == [] {
      assert p + q == p;
      if dp.Ok? {
        assert dp.value + [] == dp.value;
      }
    } else {
      var init, last := q[..|q| - 1], q[|q| - 1];
      assert (p + q)[..|p + q| - 1] == p + init;
      assert (p + q)[|p + q| - 1] == last;
      DocumentCommandsAppend(p, init, shapes, float32);
      DocumentCommandsLast(p + q, shapes, float32);
      DocumentCommandsLast(q, shapes, float32);
      var di := DocumentCommands(init, shapes, float32);
      var pc := PageCommands(Query(shapes, last), float32);
      ThenAssoc(dp, di, Ok([Command.AddPage]));
      ThenAssoc(dp, Then(di, Ok([Command.AddPage])), pc);
    }
  }

  lemma {:induction false} PageErrPersists(rows: seq<ShapeRow>, j: nat, float32: nat -> real)
    requires j <= |rows|
    requires PageCommands(rows[..j], float32).Err?
    ensures PageCommands(rows, float32) == PageCommands(rows[..j], float32)
    decreases |rows|
  {
    if j < |rows| {
      var init := rows[..|rows| - 1];
      assert init[..j] == rows[..j];
      PageErrPersists(init, j, float32);
    } else {
      assert rows[..j] == rows;
    }
  }

  lemma {:induction false} DocumentErrPersists(pages: seq<PageId>, i: nat, shapes: seq<ShapeRow>, float32: nat -> real)
    requires i <= |pages|
    requires DocumentCommands(pages[..i], shapes, float32).Err?
    ensures DocumentCommands(pages, shapes, float32) == DocumentCommands(pages[..i], shapes, float32)
    decreases |pages|
  {
    if i < |pages| {
      var init := pages[..|pages| - 1];
      assert init[..i] == pages[..i];
      DocumentErrPersists(init, i, shapes, float32);
    } else {
      assert pages[..i] == pages;
    }
  }

  // ---------------------------------------------------------------------------
  // A worked stroke

  /** The big-endian floats stored at bytes 24k and 24k + 4 of a blob: the
      x and y that vertex k of the blob carries. */
  function XY(buf: seq<byte>, float32: nat -> real, k: nat): (real, real)
    requires 24 * k + 8 <= |buf|
  {
    (float32(BigEndianBits(WordAt(buf, 24 * k))), float32(BigEndianBits(WordAt(buf, 24 * k + 4))))
  }

  /** A decoded stroke of three vertices: the width and two lines. */
  lemma StrokeOfThree(row: ShapeRow, float32: nat -> real)
    requires StrokeCommands(row, float32).Ok?
    requires |DecodeVertices(row.points, float32).value| == 3
    ensures |row.matrix| == 9
    ensures
      var vs := DecodeVertices(row.points, float32).value;
      var p0, p1, p2 := Project(vs[0], row.matrix), Project(vs[1], row.matrix), Project(vs[2], row.matrix);
      StrokeCommands(row, float32).value ==
        [Command.SetLineWidth(row.thickness * WidthScale), Command.Line(p0.x, p0.y, p1.x, p1.y), Command.Line(p1.x, p1.y, p2.x, p2.y)]
  {
    StrokeLines(row, float32);
    var cmds := StrokeCommands(row, float32).value;
    assert cmds == [cmds[0], cmds[1], cmds[2]];
  }

  /** The stroke (0, 0), (1, 0), (1, 1) with the identity matrix and thickness 1
      sets the width to 0.1 and draws (0, 0)-(279, 0) and (279, 0)-(279, 279). */
  lemma ExampleStroke(row: ShapeRow, float32: nat -> real)
    requires |row.points| == 72
    requires XY(row.points, float32, 0) == (0.0, 0.0)
    requires XY(row.points, float32, 1) == (1.0, 0.0)
    requires XY(row.points, float32, 2) == (1.0, 1.0)
    requires row.matrix == IdentityValues && row.thickness == 1.0
    ensures StrokeCommands(row, float32) ==
      Ok([Command.SetLineWidth(0.1), Command.Line(0.0, 0.0, 279.0, 0.0), Command.Line(279.0, 0.0, 279.0, 279.0)])
  {
    DecodeVertexXY(row.points, float32, 0);
    DecodeVertexXY(row.points, float32, 1);
    DecodeVertexXY(row.points, float32, 2);
    DecodeVerticesShape(row.points, float32);
    StrokeOkIff(row, float32);
    var vs := DecodeVertices(row.points, float32).value;
    StrokeOfThree(row, float32);
    ProjectIdentity(vs[0]);
    ProjectIdentity(vs[1]);
    ProjectIdentity(vs[2]);
  }

  /** A note of one page holding only that stroke: one page start, the width,
      the two lines. */
  lemma ExampleNote(page: PageId, row: ShapeRow, float32: nat -> real)
    requires row.page == page
    requires |row.points| == 72
    requires XY(row.points, float32, 0) == (0.0, 0.0)
    requires XY(row.points, float32, 1) == (1.0, 0.0)
    requires XY(row.points, float32, 2) == (1.0, 1.0)
    requires row.matrix == IdentityValues && row.thickness == 1.0
    ensures DocumentCommands([page], [row], float32) ==
      Ok([Command.AddPage, Command.SetLineWidth(0.1),
          Command.Line(0.0, 0.0, 279.0, 0.0), Command.Line(279.0, 0.0, 279.0, 279.0)])
  {
    ExampleStroke(row, float32);
    var cmds := StrokeCommands(row, float32).value;
    assert Query([row], page) == [row];
    assert [row][..0] == [];
    assert PageCommands([row], float32) == Ok([] + cmds);
    assert [] + cmds == cmds;
    var pages := [page];
    assert pages[..|pages| - 1] == [] && pages[|pages| - 1] == page;
    assert DocumentCommands(pages[..|pages| - 1], [row], float32) == Ok([]);
    assert PageCommands(Query([row], pages[|pages| - 1]), float32) == Ok(cmds);
    assert DocumentCommands(pages, [row], float32) == Ok([] + [Command.AddPage] + cmds);
    assert [] + [Command.AddPage] + cmds == [Command.AddPage, cmds[0], cmds[1], cmds[2]];
  }

  // ---------------------------------------------------------------------------
  // render_pdf

  /** render_pdf's set_line_width and its loop over r for one decoded stroke: the line width, then one line per
      pair of consecutive projected points. */
  method DrawStroke(pdf: Pdf, width: real, points: seq<Point>)
    modifies pdf
    ensures pdf.log == old(pdf.log) + [Command.SetLineWidth(width)] + Draw(Segments(points))
  {
    pdf.SetLineWidth(width);
    ghost var segments := Segments(points);
    SegmentsShape(points);
    var r := 0;
    while r < |points| - 1
      invariant 0 <= r <= |segments|
      invariant pdf.log == old(pdf.log) + [Command.SetLineWidth(width)] + Draw(segments[..r])
    {
      pdf.Line(points[r].x, points[r].y, points[r + 1].x, points[r + 1].y);
      assert segments[..r + 1] == segments[..r] + [segments[r]];
      DrawAppend(segments[..r], [segments[r]]);
      r := r + 1;
    }
    assert segments[..r] == segments;
  }

  /** render_pdf's body for one shape row: parse the matrix, decode the blob,
      project the vertices and draw; a decode error leaves the document as it was. */
  method DrawRow(pdf: Pdf, row: ShapeRow, float32: nat -> real) returns (failure: Option<DecodeError>)
    modifies pdf
    ensures StrokeCommands(row, float32).Ok? ==>
      failure == None && pdf.log == old(pdf.log) + StrokeCommands(row, float32).value
    ensures StrokeCommands(row, float32).Err? ==>
      failure == Some(StrokeCommands(row, float32).error) && pdf.log == old(pdf.log)
  {
    StrokeCommandsCases(row, float32);
    if |row.matrix| != 9 {
      return Some(MatrixNotThreeByThree);
    }
    var decoded := DecodeVertices(row.points, float32);
    if decoded.Err? {
      return Some(decoded.error);
    }
    var points := ProjectAll(decoded.value, row.matrix);
    DrawStroke(pdf, row.thickness * WidthScale, points);
    failure := None;
  }

  /** render_pdf's loop over the rows of one page id's query, in order (the page
      itself is added by RenderPdf); a decode error stops at that row. */
  method DrawPage(pdf: Pdf, rows: seq<ShapeRow>, float32: nat -> real) returns (failure: Option<DecodeError>)
    modifies pdf
    ensures PageCommands(rows, float32).Ok? ==>
      failure == None && pdf.log == old(pdf.log) + PageCommands(rows, float32).value
    ensures PageCommands(rows, float32).Err? ==> failure == Some(PageCommands(rows, float32).error)
  {
    failure := None;
    for j := 0 to |rows|
      invariant failure == None
      invariant PageCommands(rows[..j], float32).Ok?
      invariant pdf.log == old(pdf.log) + PageCommands(rows[..j], float32).value
    {
      PageCommandsSnoc(rows, j, float32);
      failure := DrawRow(pdf, rows[j], float32);
      if failure.Some? {
        PageErrPersists(rows, j + 1, float32);
        return;
      }
    }
    assert rows[..|rows|] == rows;
  }

  /** render_pdf: a new document, then per page id a new page and the rows the
      page query returns. A decode error ends the rendering with that error. */
  method RenderPdf(desc: Descriptor, shapes: seq<ShapeRow>, float32: nat -> real)
    returns (pdf: Pdf, failure: Option<DecodeError>)
    ensures DocumentCommands(desc.pages, shapes, float32).Ok? ==>
      failure == None && pdf.log == DocumentCommands(desc.pages, shapes, float32).value
    ensures DocumentCommands(desc.pages, shapes, float32).Err? ==>
      failure == Some(DocumentCommands(desc.pages, shapes, float32).error)
  {
    pdf := new Pdf();
    failure := None;
    var pages := desc.pages;
    for i := 0 to |pages|
      invariant failure == None
      invariant DocumentCommands(pages[..i], shapes, float32) == Ok(pdf.log)
    {
      DocumentCommandsSnoc(pages, i, shapes, float32);
      pdf.AddPage();
      var rows := Query(shapes, pages[i]);
      failure := DrawPage(pdf, rows, float32);
      if failure.Some? {
        DocumentErrPersists(pages, i + 1, shapes, float32);
        return;
      }
    }
    assert pages[..|pages|] == pages;
  }
}
