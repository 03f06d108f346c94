# OnyxNoteRenderer core in Dafny

This project models the core of `onyx_render.py`. That script turns an Onyx
Boox note backup into PDF files. The model covers three parts:

- **Catalog reader** (`get_dir`, `read_doc_list`, module `Catalog`). The
  folder rows of the note database fill a folder table keyed by id; a later
  row with the same id replaces an earlier one. Each note row then becomes
  a descriptor of id, title, page ids and folder path. The folder path comes
  from walking up the parent links, root folder first, joined with POSIX
  `os.path.join`.
- **Stroke decoder** (module `StrokeDecode`). A stroke's vertex blob is read
  as 4-byte words. Each word is byte-swapped, because the blob is
  big-endian and the host is little-endian. The floats are then cut into
  vertices of six channels. A blob that is not a whole number of 24-byte
  vertices is a decode error, and so is a matrix list without nine values.
- **Projector and page renderer** (modules `Projection` and `Render`). Each
  vertex's (x, y, 1) is multiplied by the transpose of the 3x3 matrix, and
  the first two components are scaled by 279. Consecutive points become
  lines. The FPDF document is a `Pdf` object whose state is the log of
  commands it received: `AddPage`, `SetLineWidth(thickness * 0.1)` and
  `Line(x1, y1, x2, y2)`.

The loops of the source are imperative methods: `GetDir`, `ReadDocList`,
`RenderPdf`, `DrawPage` and `DrawStroke`; `DrawRow` is the body of the row
loop (parse, decode, project, draw) and has no loop of its own. Each is proved against
a specification function: `Ancestors`/`DirName`, `FolderTable`,
`DocumentCommands`, `PageCommands`, `StrokeCommands` and `Draw(Segments(..))`.
The whole-array numpy expressions are functions: `Words`, `ByteSwap`, `Vertices`,
`Project`, `ProjectAll` and `Segments`. The lemmas state the properties of
those functions.

Two behaviours of the script are easy to miss:

- A malformed stroke does not get skipped. numpy raises `ValueError`, and
  nothing in `render_pdf`, `render_all` or the command-line entry point
  catches it: the note being rendered gets no PDF and the whole run ends, so
  the notes after it get none either. Here the error is a `DecodeError`
  value that the page and document results carry; the notes after the
  failing one are outside the model (`render_all` is left out).
- An empty vertex blob is accepted. It gives zero vertices and draws no line.

## Model

| member | source | states |
|---|---|---|
| Catalog.DepthStep | onyx_render.py:15-17 | one step of the walk looks up a key the table has, and the walk remaining from its parent is well founded and exactly one lookup shorter |
| Catalog.Ancestors | onyx_render.py:14-18 | the list of titles collected above a parent has one entry per lookup of the walk |
| Catalog.ChainExists | onyx_render.py:15-17 | every walk that stops has its sequence of visited ids, as long as the walk |
| Catalog.AncestorsFollowChain | onyx_render.py:15-18 | the collected titles are the visited folders' titles in reverse visiting order: root first, immediate parent last |
| Catalog.ChainHasNoRepeats | onyx_render.py:15-17 | a walk that stops never visits a folder twice |
| Catalog.SelfParentNeverStops | onyx_render.py:15-17 | a folder that is its own parent makes the walk run forever, so the loop's precondition fails for it |
| Catalog.Split | onyx_render.py:20 | cutting a path at '/' gives at least one component |
| Catalog.PathJoinEnd | onyx_render.py:20 | joining plain names (non-empty, no '/') gives a non-empty path not ending in '/' |
| Catalog.PathJoinPlainStep | onyx_render.py:20 | joining one more plain name puts exactly one '/' before it |
| Catalog.SplitPathJoin | onyx_render.py:20 | cutting the joined path of plain names at '/' gives back the names, in order |
| Catalog.DirNameRoundTrip | onyx_render.py:15-20 | for folder titles that are non-empty and contain no '/', the folder path is empty exactly for a note without a parent, and otherwise cuts back into the ancestor titles, root first |
| Catalog.PathJoin | onyx_render.py:20 | posixpath.join of the collected titles: for plain names one '/' between each two, while a title starting with '/' restarts the path and no '/' is added after a path so far that is empty or ends in '/'; SplitPathJoin and PathJoinEnd fix its meaning for plain names |
| Catalog.GetDir | onyx_render.py:13-20 | get_dir returns the ancestor titles joined root first, and "" when there is no parent; it requires every id on the walk to be a key and the walk to stop |
| Catalog.ExampleTwoFolders | onyx_render.py:13-20 | folder "Projects" inside root folder "Work" resolves to "Work/Projects" |
| Catalog.FolderTable | onyx_render.py:28-31 | the folder table the folder rows build, row by row, a later row replacing an earlier one with the same id; FolderTableKeys and FolderTableLastWins fix its keys and entries |
| Catalog.FolderTableKeys | onyx_render.py:28-31 | the folder table has a key exactly for the ids of the folder rows |
| Catalog.FolderTableLastWins | onyx_render.py:29-31 | the table has the id of every row, and the entry for an id holds the title and parent of the last row carrying that id |
| Catalog.ReadDocList | onyx_render.py:22-42 | one descriptor per note row, in row order, with that row's id, title and page list and the folder path get_dir gives under the folder table |
| StrokeDecode.Words | onyx_render.py:63 | the blob cut into 4-byte words; WordsLength and WordsAt fix how many and which bytes |
| StrokeDecode.WordsLength | onyx_render.py:63 | cutting the blob into 4-byte words keeps as many whole words as fit |
| StrokeDecode.WordsAt | onyx_render.py:63 | word i of the blob is bytes 4i to 4i+4 |
| StrokeDecode.ByteSwap | onyx_render.py:64 | byteswap keeps the number of words |
| StrokeDecode.ByteSwapAt | onyx_render.py:64 | word i of the swapped buffer is word i with its bytes reversed |
| StrokeDecode.ByteSwapInvolution | onyx_render.py:64 | swapping twice gives back the words |
| StrokeDecode.NativeBitsOfSwap | onyx_render.py:63-64 | a swapped word read little-endian is the word read big-endian, a 32-bit pattern |
| StrokeDecode.ReadFloats | onyx_render.py:63 | frombuffer reads one float per word |
| StrokeDecode.ReadFloatsAt | onyx_render.py:63 | float i is the host's reading of word i |
| StrokeDecode.DecodeFloats | onyx_render.py:63-64 | frombuffer succeeds exactly when the blob length is a multiple of 4, and then gives one float per 4 bytes |
| StrokeDecode.Vertices | onyx_render.py:66 | the floats cut into vertices of six channels; VerticesLength, VerticesAt and RavelVertices fix them |
| StrokeDecode.VerticesLength | onyx_render.py:66 | reshape(-1, 6) keeps as many whole vertices of six floats as fit |
| StrokeDecode.VerticesAt | onyx_render.py:66 | channel c of vertex k is float 6k+c |
| StrokeDecode.RavelVertices | onyx_render.py:66 | the vertices, run together, are the floats they cover |
| StrokeDecode.DecodeVertices | onyx_render.py:63-66 | frombuffer, byteswap and reshape(-1, 6) of a blob, or the ValueError; DecodeVerticesShape, DecodeVertexChannel and DecodeVerticesRavel fix its result |
| StrokeDecode.DecodeVerticesShape | onyx_render.py:63-66 | the decode succeeds exactly for blobs of whole 24-byte vertices, fails at frombuffer exactly when the length is no multiple of 4, and gives length/24 vertices |
| StrokeDecode.DecodeVertexChannel | onyx_render.py:63-66 | channel c of vertex k is the float stored big-endian at bytes 24k+4c to 24k+4c+4 of the blob |
| StrokeDecode.DecodeVerticesRavel | onyx_render.py:63-66 | the vertices, run together, are all the swapped floats: the reshape drops none |
| StrokeDecode.DecodeVertexXY | onyx_render.py:63-69 | the x and y of vertex k are the floats stored big-endian at bytes 24k and 24k+4 of the blob |
| Projection.MatrixOf | onyx_render.py:61 | reshape(3, 3) of nine values is the 3x3 matrix read row-major: entry (i, j) is value 3i+j |
| Projection.Transpose | onyx_render.py:71 | entry (i, j) of the transpose is entry (j, i) of the matrix |
| Projection.RowTimesTranspose | onyx_render.py:71 | a row vector times the transpose is the matrix times the column vector |
| Projection.Project | onyx_render.py:69-77 | the first two components of M·(x, y, 1) times 279; ProjectIsMatrixProduct ties it to numpy's (x, y, 1) @ M.T |
| Projection.ProjectIsMatrixProduct | onyx_render.py:69-77 | a projected vertex is the first two components of (x, y, 1) @ M.T, which equal M·(x, y, 1), times 279 |
| Projection.ProjectIgnoresThirdRow | onyx_render.py:72 | the third row of the matrix has no effect on the projected point |
| Projection.ProjectIdentity | onyx_render.py:69-77 | with the identity matrix a vertex lands on (279x, 279y) |
| Projection.ProjectIgnoresExtraChannels | onyx_render.py:69 | only channels 0 and 1 of a vertex reach the page |
| Projection.ProjectAll | onyx_render.py:69-77 | one projected point per vertex |
| Projection.ProjectAllAt | onyx_render.py:69-77 | point k is the projection of vertex k |
| Projection.Segments | onyx_render.py:79-86 | the segments between consecutive points; SegmentsShape fixes their number and ends |
| Projection.SegmentsShape | onyx_render.py:79-86 | n points give max(n-1, 0) segments, and segment r runs from point r to point r+1 |
| Render.Pdf.AddPage | onyx_render.py:53 | the document log gains exactly one page start |
| Render.Pdf.SetLineWidth | onyx_render.py:75 | the document log gains exactly one line-width change |
| Render.Pdf.Line | onyx_render.py:86 | the document log gains exactly one line |
| Render.Pdf.constructor | onyx_render.py:45 | a new document has received no command |
| Render.Query | onyx_render.py:56 | the page query returns only the rows of that page id, and every row of that page id |
| Render.QueryAppend | onyx_render.py:56 | the query of a table a + b is the query of a followed by the query of b: table order and repeated rows are kept |
| Render.QueryOne | onyx_render.py:56 | a single row is returned exactly when it carries the page id |
| Render.Draw | onyx_render.py:79-86 | one line command per segment |
| Render.DrawAt | onyx_render.py:79-86 | line command r joins the ends of segment r |
| Render.DrawAppend | onyx_render.py:79-86 | drawing two runs of segments draws the first run, then the second |
| Render.StrokeCommands | onyx_render.py:59-86 | the commands one shape row issues, or its ValueError; StrokeOkIff and StrokeLines fix when it succeeds and what it draws |
| Render.StrokeOkIff | onyx_render.py:61-66 | a stroke renders exactly when its matrix has nine values and its blob is a whole number of 24-byte vertices |
| Render.StrokeLines | onyx_render.py:75-86 | a rendered stroke of n vertices is a width change to thickness*0.1 followed by max(n-1, 0) lines, line r joining projected vertex r to projected vertex r+1 |
| Render.StrokeAddsNoPage | onyx_render.py:75-86 | a stroke never starts a page |
| Render.PageCommandsAddNoPage | onyx_render.py:58-86 | the rows of a page never start a page |
| Render.PagesStartedAppend | onyx_render.py:53 | the page starts of two command runs add up |
| Render.OnePagePerPageId | onyx_render.py:52-53 | a rendered note starts exactly one page per page id |
| Render.BlankPage | onyx_render.py:52-56 | a page id with no shape rows still adds a page, and nothing else |
| Render.PageCommands | onyx_render.py:58-86 | the commands of a page's rows in row order, the first failing row ending it; PageOkIff, PageCommandsAppend and PageErrPersists fix it |
| Render.PageStep | onyx_render.py:58-66 | one more row keeps the page renderable exactly when that row decodes |
| Render.PageOkIff | onyx_render.py:58-66 | a page renders exactly when every one of its rows decodes |
| Render.DocumentCommands | onyx_render.py:52-87 | per page id a page start, then that page's row commands; OnePagePerPageId, DocumentOkIff and DocumentCommandsAppend fix it |
| Render.DocumentOkIff | onyx_render.py:52-66 | a note renders exactly when every row of every page decodes: one bad stroke aborts the whole note |
| Render.ThenAssoc | onyx_render.py:52-58 | sequencing command sources is associative, so the grouping of pages and rows does not matter |
| Render.PageCommandsAppend | onyx_render.py:58 | rows are drawn in table order: the rows a + b give the commands of a, then those of b |
| Render.DocumentCommandsAppend | onyx_render.py:52 | page ids are drawn in list order: the ids p + q give the commands of p, then those of q |
| Render.PageErrPersists | onyx_render.py:58-66 | once a page's rows have failed, more rows do not change the error |
| Render.DocumentErrPersists | onyx_render.py:52-66 | once a note's pages have failed, more pages do not change the error |
| Render.StrokeOfThree | onyx_render.py:75-86 | a decoded stroke of three vertices is the width change and the two lines joining its projected vertices in order |
| Render.ExampleStroke | onyx_render.py:59-86 | the stroke whose blob holds (0,0), (1,0), (1,1) as its vertex coordinates, with the identity matrix and thickness 1 gives width 0.1 and the lines (0,0)-(279,0) and (279,0)-(279,279) |
| Render.ExampleNote | onyx_render.py:44-87 | a one-page note with only that stroke gives one page start, the width change and the two lines |
| Render.DrawStroke | onyx_render.py:75-86 | drawing a stroke appends its width change and one line per pair of consecutive points, in order |
| Render.DrawRow | onyx_render.py:59-86 | a row that decodes appends its stroke's commands; a row that fails leaves the document unchanged and reports its error |
| Render.DrawPage | onyx_render.py:55-86 | a page's rows append the page's commands, or report the first row's error |
| Render.RenderPdf | onyx_render.py:44-87 | the document receives exactly the note's commands, or the rendering reports the first decode error |

## Left out

- Zip extraction, the temporary directory, `os.makedirs` and `pdf.output` (`render_all`, lines 89-105) are file I/O and are not modelled.
- The SQLite connections and cursors are left out. The folder and note query results are input row sequences. The per-page query of line 56 is a filter of the shape table on the page id that keeps table order.
- The SQL text on line 56 is built by string concatenation. A page id containing a double quote would change the query, and a page id equal to a column name of NewShapeModel (`points`, `thickness`, `pageUniqueId`, ...) would be read by SQLite as that column instead of a string, since a double-quoted token is an identifier first; the filter model captures neither.
- `json.loads` (lines 37 and 61) is left out. The rows carry the parsed page-name list and the parsed "values" list. A "values" list whose length is not nine is modelled as the reshape error, not excluded by a precondition.
- The IEEE float32 reading of a bit pattern is a parameter `float32: nat -> real`. The parsed matrix values are rounded to float32 at line 61 and the blob words are read as float32 at line 63; the product (line 71) and the scaling (line 77) are then done in float64, because the column of ones from `np.ones` is float64. None of this rounding is modelled; arithmetic is over `real`, and NaN and infinite bit patterns have no `real` reading. The host is taken to be little-endian, which is what makes the byteswap the correction to big-endian.
- FPDF's page geometry, units and serialisation are left out; only the command log is kept.
- `print`, `tqdm` progress output and the command-line handling (lines 51-52, 96-98, 107-115) are user interface and are not modelled.
- Catalog.GetDir: a parent id that is missing from the folder table raises `KeyError`, and a cycle makes the loop run forever. Neither is a result value here; `WellFounded` is a precondition. `SelfParentNeverStops` shows that a self-parent folder fails it.
- Catalog.ReadDocList: requires every note's parent walk to be well founded, for the same reason.
- Render.RenderPdf: on a decode error Python raises and no document is returned. The model returns before any further command, and its contract on that path states only the error, not the partial log.
- Render.DrawPage: on a decode error its contract likewise states only the error, not the partial log (the commands of the rows before the failing one).
- `pdf.output` (line 105) closes the document, and FPDF's close adds a page when none exists, so a note with an empty page list would get a one-page PDF. The model stops at the command log and gives such a note an empty log.
- The model is deterministic: every command sequence is a function of its inputs, so rendering the same note twice gives the same commands.
