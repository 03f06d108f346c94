/**
 * The catalog reader: the folder table built from the folder rows of the
 * note database, the walk up the parent links that resolves a note's folder
 * path (get_dir), and the list of note descriptors (read_doc_list).
 */
module Catalog {
  import opened Wrappers

  type Id = string
  type PageId = string

  /** An entry of the folder table: the folder's title and its parent folder, if any. */
  datatype Folder = Folder(title: string, parent: Option<Id>)

  /** The folder table, keyed by folder id. */
  type Dirs = map<Id, Folder>

  /** A result row of the folder query: (uniqueId, title, parentUniqueId). */
  datatype FolderRow = FolderRow(id: Id, title: string, parent: Option<Id>)

  /** A result row of the note query, with its page-name list already parsed. */
  datatype NoteRow = NoteRow(id: Id, title: string, pages: seq<PageId>, parent: Option<Id>)

  /** What the catalog reader hands to the renderer for one note. */
  datatype Descriptor = Descriptor(id: Id, title: string, pages: seq<PageId>, dirname: string)

  // ---------------------------------------------------------------------------
  // Parent chains

  /** Following parent links from `parent` takes exactly `n` table lookups, each
      of a key the table has, and ends in no parent. */
  ghost predicate Reaches(dirs: Dirs, parent: Option<Id>, n: nat)
    decreases n
  {
    match parent
    case None => n == 0
    case Some(id) => n > 0 && id in dirs && Reaches(dirs, dirs[id].parent, n - 1)
  }

  /** The walk from `parent` never looks up a missing key and stops: the
      condition under which get_dir neither raises nor loops forever. */
  ghost predicate WellFounded(dirs: Dirs, parent: Option<Id>)
  {
    exists n: nat :: Reaches(dirs, parent, n)
  }

  lemma {:induction false} ReachesUnique(dirs: Dirs, parent: Option<Id>, m: nat, n: nat)
    requires Reaches(dirs, parent, m) && Reaches(dirs, parent, n)
    ensures m == n
    decreases m
  {
    match parent
    case None =>
    case Some(id) => ReachesUnique(dirs, dirs[id].parent, m - 1, n - 1);
  }

  /** The number of folders above `parent` (the walk's length). */
  ghost function Depth(dirs: Dirs, parent: Option<Id>): nat
    requires WellFounded(dirs, parent)
  {
    var n: nat :| Reaches(dirs, parent, n); n
  }

  /** One step of the walk keeps the chain well founded and shortens it by one. */
  lemma DepthStep(dirs: Dirs, id: Id)
    requires WellFounded(dirs, Some(id))
    ensures id in dirs
    ensures WellFounded(dirs, dirs[id].parent)
    ensures Depth(dirs, dirs[id].parent) == Depth(dirs, Some(id)) - 1
  {
    var n := Depth(dirs, Some(id));
    assert Reaches(dirs, dirs[id].parent, n - 1);
    var m := Depth(dirs, dirs[id].parent);
    ReachesUnique(dirs, dirs[id].parent, m, n - 1);
  }

  /** The titles of the folders above `parent`, root first, immediate parent last. */
  ghost function Ancestors(dirs: Dirs, parent: Option<Id>): (path: seq<string>)
    requires WellFounded(dirs, parent)
    ensures |path| == Depth(dirs, parent)
    decreases Depth(dirs, parent)
  {
    match parent
    case None => []
    case Some(id) =>
      DepthStep(dirs, id);
      Ancestors(dirs, dirs[id].parent) + [dirs[id].title]
  }

  /** `chain` lists the folder ids the walk from `parent` visits, immediate
      parent first: each id is a key, each next id is the previous entry's
      parent, and the last entry has no parent. */
  ghost predicate IsParentChain(dirs: Dirs, parent: Option<Id>, chain: seq<Id>)
  {
    && (chain == [] <==> parent == None)
    && (chain != [] ==> parent == Some(chain[0]))
    && (forall k :: 0 <= k < |chain| ==> chain[k] in dirs)
    && (forall k :: 0 <= k < |chain| - 1 ==> chain[k] in dirs && dirs[chain[k]].parent == Some(chain[k + 1]))
    && (chain != [] ==> dirs[chain[|chain| - 1]].parent == None)
  }

  lemma {:induction false} ChainReaches(dirs: Dirs, parent: Option<Id>, chain: seq<Id>)
    requires IsParentChain(dirs, parent, chain)
    ensures Reaches(dirs, parent, |chain|)
    decreases |chain|
  {
    if chain != [] {
      var next := dirs[chain[0]].parent;
      if |chain| == 1 {
        assert next == None && chain[1..] == [];
      } else {
        assert next == Some(chain[1]);
      }
      assert IsParentChain(dirs, next, chain[1..]);
      ChainReaches(dirs, next, chain[1..]);
    }
  }

  /** Every well-founded walk has its chain of visited ids. */
  lemma {:induction false} ChainExists(dirs: Dirs, parent: Option<Id>) returns (chain: seq<Id>)
    requires WellFounded(dirs, parent)
    ensures IsParentChain(dirs, parent, chain)
    ensures |chain| == Depth(dirs, parent)
    decreases Depth(dirs, parent)
  {
    match parent
    case None => chain := [];
    case Some(id) =>
      DepthStep(dirs, id);
      var rest := ChainExists(dirs, dirs[id].parent);
      chain := [id] + rest;
  }

  /** The resolved path is the chain's titles in reverse visiting order:
      root first, immediate parent last. */
  lemma {:induction false} AncestorsFollowChain(dirs: Dirs, parent: Option<Id>, chain: seq<Id>)
    requires IsParentChain(dirs, parent, chain)
    ensures WellFounded(dirs, parent)
    ensures |Ancestors(dirs, parent)| == |chain|
    ensures forall k :: 0 <= k < |chain| ==> Ancestors(dirs, parent)[k] == dirs[chain[|chain| - 1 - k]].title
    decreases |chain|
  {
    ChainReaches(dirs, parent, chain);
    if chain != [] {
      var id := chain[0];
      var next := dirs[id].parent;
      assert IsParentChain(dirs, next, chain[1..]);
      AncestorsFollowChain(dirs, next, chain[1..]);
      DepthStep(dirs, id);
    }
  }

  /** A walk that stops never visits a folder twice: the code has no cycle
      check, and a repeated id would make it loop forever. */
  lemma ChainHasNoRepeats(dirs: Dirs, parent: Option<Id>, chain: seq<Id>)
    requires IsParentChain(dirs, parent, chain)
    ensures forall i, j :: 0 <= i < j < |chain| ==> chain[i] != chain[j]
  {
    forall i, j | 0 <= i < j < |chain|
      ensures chain[i] != chain[j]
    {
      ChainSuffixReaches(dirs, parent, chain, i);
      ChainSuffixReaches(dirs, parent, chain, j);
      if chain[i] == chain[j] {
        ReachesUnique(dirs, Some(chain[i]), |chain| - i, |chain| - j);
      }
    }
  }

  lemma ChainSuffixReaches(dirs: Dirs, parent: Option<Id>, chain: seq<Id>, i: nat)
    requires IsParentChain(dirs, parent, chain)
    requires i < |chain|
    ensures Reaches(dirs, Some(chain[i]), |chain| - i)
  {
    assert IsParentChain(dirs, Some(chain[i]), chain[i..]);
    ChainReaches(dirs, Some(chain[i]), chain[i..]);
  }

  /** A folder that is its own parent sends get_dir into an endless loop:
      no walk through it stops. */
  lemma SelfParentNeverStops(dirs: Dirs, id: Id)
    requires id in dirs && dirs[id].parent == Some(id)
    ensures !WellFounded(dirs, Some(id))
  {
    forall n: nat
      ensures !Reaches(dirs, Some(id), n)
    {
      SelfParentNeverReaches(dirs, id, n);
    }
  }

  lemma {:induction false} SelfParentNeverReaches(dirs: Dirs, id: Id, n: nat)
    requires id in dirs && dirs[id].parent == Some(id)
    ensures !Reaches(dirs, Some(id), n)
  {
    if n > 0 {
      SelfParentNeverReaches(dirs, id, n - 1);
    }
  }

  // ---------------------------------------------------------------------------
  // Joining path components (POSIX os.path.join)

  /** One step of os.path.join: an absolute component replaces what was built;
      otherwise a '/' is inserted unless the path is empty or already ends in one. */
  function JoinStep(path: string, part: string): string
  {
    if |part| > 0 && part[0] == '/' then part
    else if path == [] || path[|path| - 1] == '/' then path + part
    else path + "/" + part
  }

  /** os.path.join(*parts) for at least one component. */
  function PathJoin(parts: seq<string>): string
    requires |parts| > 0
  {
    if |parts| == 1 then parts[0]
    else JoinStep(PathJoin(parts[..|parts| - 1]), parts[|parts| - 1])
  }

  /** The value get_dir returns for a list of titles: "" for no folder. */
  function DirName(titles: seq<string>): string
  {
    if titles == [] then "" else PathJoin(titles)
  }

  /** A name that makes exactly one path component: not empty, no '/'. */
  predicate PlainName(s: string)
  {
    s != [] && '/' !in s
  }

  /** Cuts a path at every '/' (Python's str.split("/")). */
  function Split(s: string): (parts: seq<string>)
    ensures |parts| > 0
  {
    if s == [] then [""]
    else if s[|s| - 1] == '/' then Split(s[..|s| - 1]) + [""]
    else
      var p := Split(s[..|s| - 1]);
      p[..|p| - 1] + [p[|p| - 1] + [s[|s| - 1]]]
  }

  /** Appending a character other than '/' extends the last component. */
  lemma SplitLastChar(s: string, c: char)
    requires c != '/'
    ensures Split(s + [c]) == Split(s)[..|Split(s)| - 1] + [Split(s)[|Split(s)| - 1] + [c]]
  {
    assert (s + [c])[..|s + [c]| - 1] == s;
  }

  lemma {:induction false} SplitNoSlash(a: string, b: string)
    requires '/' !in b
    ensures Split(a + b) == Split(a)[..|Split(a)| - 1] + [Split(a)[|Split(a)| - 1] + b]
    decreases |b|
  {
    var S := Split(a);
    if b == [] {
      assert a + b == a;
      assert S[|S| - 1] + b == S[|S| - 1];
      assert S[..|S| - 1] + [S[|S| - 1]] == S;
    } else {
      var b', c := b[..|b| - 1], b[|b| - 1];
      assert c in b;
      assert b' + [c] == b;
      assert a + b == (a + b') + [c];
      SplitNoSlash(a, b');
      SplitLastChar(a + b', c);
      var p := Split(a + b');
      assert p[..|p| - 1] == S[..|S| - 1];
      assert p[|p| - 1] + [c] == S[|S| - 1] + b;
    }
  }

  lemma SplitAfterSlash(a: string, b: string)
    requires '/' !in b
    ensures Split(a + "/" + b) == Split(a) + [b]
  {
    SplitNoSlash(a + "/", b);
    assert (a + "/")[..|a + "/"| - 1] == a;
    assert (a + "/")[|a + "/"| - 1] == '/';
    assert Split(a + "/") == Split(a) + [""];
    assert [] + b == b;
  }

  /** Joining plain names gives a path that ends in a non-'/' character. */
  lemma {:induction false} PathJoinEnd(parts: seq<string>)
    requires |parts| > 0
    requires forall k :: 0 <= k < |parts| ==> PlainName(parts[k])
    ensures PathJoin(parts) != [] && PathJoin(parts)[|PathJoin(parts)| - 1] != '/'
    decreases |parts|
  {
    var last := parts[|parts| - 1];
    assert PlainName(last);
    assert last[|last| - 1] in last;
    if |parts| > 1 {
      PathJoinEnd(parts[..|parts| - 1]);
    }
  }

  /** Splitting the joined path at '/' gives back the components, in order. */
  lemma SplitPlain(s: string)
    requires '/' !in s
    ensures Split(s) == [s]
  {
    SplitNoSlash([], s);
    assert [] + s == s;
  }

  /** Joining one more plain name puts exactly one '/' before it. */
  lemma PathJoinPlainStep(parts: seq<string>)
    requires |parts| > 1
    requires forall k :: 0 <= k < |parts| ==> PlainName(parts[k])
    ensures PathJoin(parts) == PathJoin(parts[..|parts| - 1]) + "/" + parts[|parts| - 1]
  {
    var init, last := parts[..|parts| - 1], parts[|parts| - 1];
    PathJoinEnd(init);
    assert PlainName(last);
    assert last[0] in last;
  }

  /** One more plain name: cutting the longer path gives one more component. */
  lemma SplitPathJoinStep(parts: seq<string>)
    requires |parts| > 1
    requires forall k :: 0 <= k < |parts| ==> PlainName(parts[k])
    requires Split(PathJoin(parts[..|parts| - 1])) == parts[..|parts| - 1]
    ensures Split(PathJoin(parts)) == parts
  {
    var init, last := parts[..|parts| - 1], parts[|parts| - 1];
    PathJoinPlainStep(parts);
    assert PlainName(last);
    SplitAfterSlash(PathJoin(init), last);
    assert Split(PathJoin(parts)) == init + [last];
    InitLast(parts);
  }

  lemma InitLast<T>(s: seq<T>)
    requires |s| > 0
    ensures s[..|s| - 1] + [s[|s| - 1]] == s
  {
  }

  /** Splitting the joined path at '/' gives back the components, in order. */
  lemma {:induction false} SplitPathJoin(parts: seq<string>)
    requires |parts| > 0
    requires forall k :: 0 <= k < |parts| ==> PlainName(parts[k])
    ensures Split(PathJoin(parts)) == parts
    decreases |parts|
  {
    if |parts| == 1 {
      assert PlainName(parts[0]);
      SplitPlain(parts[0]);
    } else {
      var init := parts[..|parts| - 1];
      assert forall k :: 0 <= k < |init| ==> init[k] == parts[k];
      SplitPathJoin(init);
      SplitPathJoinStep(parts);
    }
  }

  /** When every folder on the chain has a plain title, the directory name
      is the ancestors' titles joined root first: cutting it at '/' restores them. */
  lemma DirNameRoundTrip(dirs: Dirs, parent: Option<Id>)
    requires WellFounded(dirs, parent)
    requires forall k :: 0 <= k < |Ancestors(dirs, parent)| ==> PlainName(Ancestors(dirs, parent)[k])
    ensures DirName(Ancestors(dirs, parent)) == "" <==> parent == None
    ensures parent != None ==> Split(DirName(Ancestors(dirs, parent))) == Ancestors(dirs, parent)
  {
    var titles := Ancestors(dirs, parent);
    if parent != None {
      DepthStep(dirs, parent.value);
      SplitPathJoin(titles);
    }
  }

  /** get_dir: walks up the parent links, putting each folder's title in front. */
  method GetDir(dirs: Dirs, parent: Option<Id>) returns (dirname: string)
    requires WellFounded(dirs, parent)
    ensures dirname == DirName(Ancestors(dirs, parent))
    ensures parent == None ==> dirname == ""
  {
    var dlist: seq<string> := [];
    var p := parent;
    while p.Some?
      invariant WellFounded(dirs, p)
      invariant Ancestors(dirs, parent) == Ancestors(dirs, p) + dlist
      decreases Depth(dirs, p)
    {
      DepthStep(dirs, p.value);
      var entry := dirs[p.value];
      p := entry.parent;
      dlist := [entry.title] + dlist;
    }
    assert Ancestors(dirs, p) == [];
    assert dlist == Ancestors(dirs, parent);
    dirname := if dlist != [] then PathJoin(dlist) else "";
  }

  /** A note two folders deep: folder "Projects" inside root folder "Work"
      resolves to "Work/Projects". */
  lemma ExampleTwoFolders(work: Id, projects: Id)
    requires work != projects
    ensures var dirs := map[work := Folder("Work", None), projects := Folder("Projects", Some(work))];
      WellFounded(dirs, Some(projects)) && DirName(Ancestors(dirs, Some(projects))) == "Work/Projects"
  {
    var dirs := map[work := Folder("Work", None), projects := Folder("Projects", Some(work))];
    var chain := [projects, work];
    assert IsParentChain(dirs, Some(projects), chain);
    AncestorsFollowChain(dirs, Some(projects), chain);
    var titles := Ancestors(dirs, Some(projects));
    assert titles == ["Work", "Projects"];
    assert titles[..1] == ["Work"];
    assert PathJoin(titles) == JoinStep("Work", "Projects");
  }

  // ---------------------------------------------------------------------------
  // The catalog

  /** The folder table after storing the rows in order: a later row with the
      same id replaces an earlier one. */
  function FolderTable(rows: seq<FolderRow>): Dirs
  {
    if rows == [] then map[]
    else
      var last := rows[|rows| - 1];
      FolderTable(rows[..|rows| - 1])[last.id := Folder(last.title, last.parent)]
  }

  /** The folder table has a key exactly for the ids of the folder rows. */
  lemma {:induction false} FolderTableKeys(rows: seq<FolderRow>)
    ensures forall i :: 0 <= i < |rows| ==> rows[i].id in FolderTable(rows)
    ensures forall id :: id in FolderTable(rows) ==> exists i :: 0 <= i < |rows| && rows[i].id == id
    decreases |rows|
  {
    if rows != [] {
      var init := rows[..|rows| - 1];
      FolderTableKeys(init);
      assert forall i :: 0 <= i < |init| ==> init[i] == rows[i];
    }
  }

  /** The entry for an id is the one of the last row that carries it. */
  lemma {:induction false} FolderTableLastWins(rows: seq<FolderRow>, i: nat)
    requires i < |rows|
    requires forall j :: i < j < |rows| ==> rows[j].id != rows[i].id
    ensures rows[i].id in FolderTable(rows)
    ensures FolderTable(rows)[rows[i].id] == Folder(rows[i].title, rows[i].parent)
    decreases |rows|
  {
    if i < |rows| - 1 {
      FolderTableLastWins(rows[..|rows| - 1], i);
    }
  }

  lemma FolderTableStep(rows: seq<FolderRow>, i: nat)
    requires i < |rows|
    ensures FolderTable(rows[..i + 1]) ==
      FolderTable(rows[..i])[rows[i].id := Folder(rows[i].title, rows[i].parent)]
  {
    assert rows[..i + 1][..i] == rows[..i];
  }

  lemma FolderTableAll(rows: seq<FolderRow>)
    ensures FolderTable(rows[..|rows|]) == FolderTable(rows)
  {
    assert rows[..|rows|] == rows;
  }

  /** The descriptor for a note row under a folder table. */
  ghost function Describe(dirs: Dirs, row: NoteRow): Descriptor
    requires WellFounded(dirs, row.parent)
  {
    Descriptor(row.id, row.title, row.pages, DirName(Ancestors(dirs, row.parent)))
  }

  /** read_doc_list: fills the folder table from the folder rows, then makes one
      descriptor per note row, in row order. */
  method ReadDocList(folderRows: seq<FolderRow>, noteRows: seq<NoteRow>) returns (res: seq<Descriptor>)
    requires forall i :: 0 <= i < |noteRows| ==> WellFounded(FolderTable(folderRows), noteRows[i].parent)
    ensures |res| == |noteRows|
    ensures forall i :: 0 <= i < |res| ==>
      && res[i].id == noteRows[i].id
      && res[i].title == noteRows[i].title
      && res[i].pages == noteRows[i].pages
      && res[i].dirname == DirName(Ancestors(FolderTable(folderRows), noteRows[i].parent))
  {
    res := [];
    var dirs: Dirs := map[];
    for i := 0 to |folderRows|
      invariant dirs == FolderTable(folderRows[..i])
    {
      var row := folderRows[i];
      FolderTableStep(folderRows, i);
      dirs := dirs[row.id := Folder(row.title, row.parent)];
    }
    FolderTableAll(folderRows);
    for i := 0 to |noteRows|
      invariant |res| == i
      invariant forall k :: 0 <= k < i ==> res[k] == Describe(dirs, noteRows[k])
    {
      var row := noteRows[i];
      var dirname := GetDir(dirs, row.parent);
      res := res + [Descriptor(row.id, row.title, row.pages, dirname)];
    }
  }
}
