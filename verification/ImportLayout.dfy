/** Laying out an archive: layout in backend/internal/docimport/plan.go and
    wikiLayout in wikijs.go. */
module ImportLayout {
  import DocTree
  import Ordering
  import opened ImportTree

  /** The folders above the notes of an archive. */
  method Folders(notes: seq<Path>) returns (folders: set<Path>)
    ensures forall d :: d in folders <==> d != [] && exists i :: 0 <= i < |notes| && d < notes[i]
  {
    folders := {};
    for i := 0 to |notes|
      invariant forall d :: d in folders <==> d != [] && exists k :: 0 <= k < i && d < notes[k]
    {
      ghost var before := folders;
      var d := if notes[i] == [] then [] else Dir(notes[i]);
      while d != []
        invariant |d| <= |notes[i]| && d <= notes[i] && (notes[i] != [] ==> d < notes[i])
        invariant forall x :: x in folders <==> x in before || (x < notes[i] && |x| > |d|)
        decreases |d|
      {
        ghost var was := folders;
        folders := folders + {d};
        PrefixByLength(d, notes[i]);
        d := Dir(d);
      }
      forall x
        ensures x in folders <==> x != [] && exists k :: 0 <= k < i + 1 && x < notes[k]
      {
      }
    }
  }

  lemma PrefixByLength(d: Path, note: Path)
    requires d <= note
    ensures forall x :: x <= note && |x| == |d| ==> x == d
  {
  }

  /** Entries for a set of keys that is closed under taking directories, in an
      order that never puts a deeper key first, meet ParentsFirst. */
  lemma SortedIsParentsFirst(entries: seq<Entry>)
    requires forall i, j :: 0 <= i < j < |entries| ==> |entries[i].key| <= |entries[j].key|
    requires forall i :: 0 <= i < |entries| && |entries[i].key| > 1 ==> exists j :: 0 <= j < |entries| && entries[j].key == Dir(entries[i].key)
    ensures ParentsFirst(entries)
  {
    forall i | 0 <= i < |entries| && |entries[i].key| > 1
      ensures exists j :: 0 <= j < i && entries[j].key == Dir(entries[i].key)
    {
      var j :| 0 <= j < |entries| && entries[j].key == Dir(entries[i].key);
      assert |entries[j].key| < |entries[i].key|;
    }
  }

  lemma DirIsBelow(key: Path, note: Path)
    requires key != [] && key <= note
    ensures Dir(key) < note
  {
  }

  /** The keys of layout: all folders, and the notes that no folder took over; of
      wikiLayout: all folders and all pages, in lower case. */
  lemma LayoutIsClosed(notes: seq<Path>, folders: set<Path>, entries: seq<Entry>)
    requires forall d :: d in folders <==> d != [] && exists i :: 0 <= i < |notes| && d < notes[i]
    requires forall d :: d in folders ==> exists j :: 0 <= j < |entries| && entries[j].key == d
    requires forall j :: 0 <= j < |entries| ==> entries[j].key in folders || entries[j].key in notes
    ensures forall i :: 0 <= i < |entries| && |entries[i].key| > 1 ==> exists j :: 0 <= j < |entries| && entries[j].key == Dir(entries[i].key)
  {
    forall i | 0 <= i < |entries| && |entries[i].key| > 1
      ensures exists j :: 0 <= j < |entries| && entries[j].key == Dir(entries[i].key)
    {
      var key := entries[i].key;
      if key in folders {
        var k :| 0 <= k < |notes| && key < notes[k];
        DirIsBelow(key, notes[k]);
      } else {
        var k :| 0 <= k < |notes| && key == notes[k];
        DirIsBelow(key, notes[k]);
      }
      assert Dir(key) in folders;
    }
  }

  /** Both layouts, once sorted by depth, place every directory before what is in it. */
  lemma LayoutIsParentsFirst(notes: seq<Path>, folders: set<Path>, entries: seq<Entry>)
    requires forall d :: d in folders <==> d != [] && exists i :: 0 <= i < |notes| && d < notes[i]
    requires forall d :: d in folders ==> exists j :: 0 <= j < |entries| && entries[j].key == d
    requires forall j :: 0 <= j < |entries| ==> entries[j].key in folders || entries[j].key in notes
    requires forall i, j :: 0 <= i < j < |entries| ==> |entries[i].key| <= |entries[j].key|
    ensures ParentsFirst(entries)
  {
    LayoutIsClosed(notes, folders, entries);
    SortedIsParentsFirst(entries);
  }

  /** A note of the archive and the connector its front matter names, or "". */
  datatype Note = Note(path: Path, connector: string)

  ghost predicate Paths(notes: seq<Note>) {
    && (forall i :: 0 <= i < |notes| ==> notes[i].path != [])
    && (forall i, j :: 0 <= i < j < |notes| ==> notes[i].path != notes[j].path)
  }

  ghost predicate IsFolder(notes: seq<Note>, d: Path) {
    d != [] && exists i :: 0 <= i < |notes| && d < notes[i].path
  }

  /** An entry before it is sorted and given an id. */
  datatype Draft = Draft(key: Path, own: string, alias: Path, note: int)

  /** A folder without a note asks for no scope. Any other entry holds the text of one
      note, asks for the connector that note names, and is found under its path: it
      is the note itself or the folder around it. */
  ghost predicate FromNote(notes: seq<Note>, key: Path, own: string, alias: Path, note: int) {
    && note < |notes|
    && (note < 0 ==> IsFolder(notes, key) && own == "" && alias == key)
    && (note >= 0 ==>
          && own == notes[note].connector && alias == notes[note].path && notes[note].path != []
          && (key == notes[note].path || (IsFolder(notes, key) && key == Dir(notes[note].path))))
  }

  /** How many entries hold the text of note n. */
  function Uses(s: seq<Draft>, n: nat): nat {
    if s == [] then 0 else (if s[0].note == n then 1 else 0) + Uses(s[1..], n)
  }

  ghost predicate HasKey(drafts: seq<Draft>, key: Path) {
    exists j :: 0 <= j < |drafts| && drafts[j].key == key
  }

  ghost predicate AllFrom(notes: seq<Note>, drafts: seq<Draft>) {
    forall j :: 0 <= j < |drafts| ==> FromNote(notes, drafts[j].key, drafts[j].own, drafts[j].alias, drafts[j].note)
  }

  ghost predicate Drafted(notes: seq<Note>, drafts: seq<Draft>) {
    && AllFrom(notes, drafts)
    && (forall d :: IsFolder(notes, d) ==> HasKey(drafts, d))
    && (forall i: nat :: i < |notes| ==> Uses(drafts, i) == 1)
  }

  lemma DraftAdded(notes: seq<Note>, drafts: seq<Draft>, x: Draft)
    ensures forall d :: HasKey(drafts + [x], d) <==> HasKey(drafts, d) || x.key == d
    ensures AllFrom(notes, drafts) && FromNote(notes, x.key, x.own, x.alias, x.note) ==> AllFrom(notes, drafts + [x])
    ensures forall i: nat :: Uses(drafts + [x], i) == Uses(drafts, i) + if x.note == i then 1 else 0
  {
    hide FromNote;
    var more := drafts + [x];
    assert more[|drafts|] == x;
    forall d | HasKey(drafts, d) ensures HasKey(more, d) {
      var j :| 0 <= j < |drafts| && drafts[j].key == d;
      assert more[j].key == d;
    }
    forall i: nat ensures Uses(more, i) == Uses(drafts, i) + if x.note == i then 1 else 0 {
      UsesAdded(drafts, x, i);
    }
  }

  lemma {:induction false} UsesAdded(s: seq<Draft>, x: Draft, n: nat)
    ensures Uses(s + [x], n) == Uses(s, n) + if x.note == n then 1 else 0
  {
    if s == [] {
      assert s + [x] == [x] && [x][1..] == [];
    } else {
      UsesAdded(s[1..], x, n);
      assert (s + [x])[1..] == s[1..] + [x];
    }
  }

  ghost predicate FolderNotes(notes: seq<Note>, folderNote: Path -> int) {
    forall d :: folderNote(d) < |notes| && (folderNote(d) >= 0 ==> notes[folderNote(d)].path != [] && Dir(notes[folderNote(d)].path) == d)
  }

  /** One entry for each folder, with the note that supplies its text, and one for
      each note that no folder took over. */
  method Drafts(notes: seq<Note>, folderNote: Path -> int, folders: set<Path>) returns (drafts: seq<Draft>)
    requires Paths(notes) && FolderNotes(notes, folderNote) && forall d :: d in folders <==> IsFolder(notes, d)
    ensures Drafted(notes, drafts)
  {
    hide HasKey, IsFolder, AllFrom, Uses;
    drafts := [];
    NoDrafts(notes);
    var consumed: set<Path> := {};
    var todo := folders;
    while todo != {}
      invariant todo <= folders && AllFrom(notes, drafts)
      invariant forall d :: d in folders && d !in todo ==> HasKey(drafts, d)
      invariant forall i: nat :: i < |notes| ==> Uses(drafts, i) == if notes[i].path in consumed then 1 else 0
      invariant forall i: nat :: i < |notes| && notes[i].path in consumed ==> Dir(notes[i].path) !in todo
    {
      var dir :| dir in todo;
      todo := todo - {dir};
      var n := folderNote(dir);
      var draft := if n >= 0 then Draft(dir, notes[n].connector, notes[n].path, n) else Draft(dir, "", dir, -1);
      DraftAdded(notes, drafts, draft);
      drafts := drafts + [draft];
      if n >= 0 {
        consumed := consumed + {notes[n].path};
      }
    }
    for i := 0 to |notes|
      invariant AllFrom(notes, drafts)
      invariant forall d :: d in folders ==> HasKey(drafts, d)
      invariant forall k: nat :: k < |notes| ==> Uses(drafts, k) == if notes[k].path in consumed || k < i then 1 else 0
    {
      if notes[i].path !in consumed {
        var draft := Draft(notes[i].path, notes[i].connector, notes[i].path, i);
        DraftAdded(notes, drafts, draft);
        drafts := drafts + [draft];
      }
    }
  }

  lemma NoDrafts(notes: seq<Note>)
    ensures AllFrom(notes, []) && forall i: nat :: Uses([], i) == 0
  {
  }

  /** One entry for each page, and one for each folder that is not a page. */
  method WikiDrafts(pages: seq<Note>, folders: set<Path>) returns (drafts: seq<Draft>)
    requires Paths(pages) && (forall i :: 0 <= i < |pages| ==> pages[i].connector == "") && forall d :: d in folders <==> IsFolder(pages, d)
    ensures Drafted(pages, drafts)
  {
    hide HasKey, IsFolder, AllFrom, Uses;
    drafts := [];
    NoDrafts(pages);
    var taken: set<Path> := {};
    for i := 0 to |pages|
      invariant AllFrom(pages, drafts)
      invariant forall p :: p in taken ==> HasKey(drafts, p)
      invariant forall k: nat :: k < |pages| ==> Uses(drafts, k) == if k < i then 1 else 0
    {
      var draft := Draft(pages[i].path, "", pages[i].path, i);
      DraftAdded(pages, drafts, draft);
      drafts := drafts + [draft];
      taken := taken + {pages[i].path};
    }
    var todo := folders - taken;
    while todo != {}
      invariant todo <= folders && AllFrom(pages, drafts)
      invariant forall d :: d in folders && d !in todo ==> HasKey(drafts, d)
      invariant forall k: nat :: k < |pages| ==> Uses(drafts, k) == 1
    {
      var dir :| dir in todo;
      todo := todo - {dir};
      var draft := Draft(dir, "", dir, -1);
      DraftAdded(pages, drafts, draft);
      drafts := drafts + [draft];
    }
  }

  // ------------------------------------------------------------------- sorting

  function PathText(p: Path): string {
    if p == [] then "" else if |p| == 1 then p[0] else p[0] + "/" + PathText(p[1..])
  }

  /** By depth, then by name. */
  predicate SortsBefore(a: Draft, b: Draft) {
    |a.key| < |b.key| || (|a.key| == |b.key| && Ordering.Less(PathText(a.key), PathText(b.key)))
  }

  function InsertByDepth(x: Draft, s: seq<Draft>): seq<Draft> {
    if s == [] || SortsBefore(x, s[0]) then [x] + s else [s[0]] + InsertByDepth(x, s[1..])
  }

  function SortByDepth(s: seq<Draft>): seq<Draft> {
    if s == [] then [] else InsertByDepth(s[0], SortByDepth(s[1..]))
  }

  ghost predicate DeepestLast(s: seq<Draft>) {
    forall i, j :: 0 <= i < j < |s| ==> |s[i].key| <= |s[j].key|
  }

  lemma {:induction false} InsertByDepthMember(x: Draft, s: seq<Draft>, y: Draft)
    ensures y in InsertByDepth(x, s) <==> y == x || y in s
  {
    hide SortsBefore;
    if s != [] && !SortsBefore(x, s[0]) {
      InsertByDepthMember(x, s[1..], y);
      assert s == [s[0]] + s[1..];
    }
  }

  lemma {:induction false} InsertedByDepth(x: Draft, s: seq<Draft>)
    requires DeepestLast(s)
    ensures DeepestLast(InsertByDepth(x, s))
  {
    hide SortsBefore;
    if s != [] {
      NotBeforeIsDeeper(x, s[0]);
      if !SortsBefore(x, s[0]) {
        InsertedByDepth(x, s[1..]);
        var rest := InsertByDepth(x, s[1..]);
        forall y | y in rest ensures |s[0].key| <= |y.key| {
          InsertByDepthMember(x, s[1..], y);
          FirstIsHighest(s, y);
        }
        OneHigher(s[0], rest);
      }
    }
  }

  lemma FirstIsHighest(s: seq<Draft>, y: Draft)
    requires s != [] && DeepestLast(s)
    ensures y in s[1..] ==> |s[0].key| <= |y.key|
  {
    if y in s[1..] {
      var k :| 0 <= k < |s[1..]| && s[1..][k] == y;
      assert s[k + 1] == y;
    }
  }

  lemma OneHigher(x: Draft, rest: seq<Draft>)
    requires DeepestLast(rest) && forall y :: y in rest ==> |x.key| <= |y.key|
    ensures DeepestLast([x] + rest)
  {
    var s := [x] + rest;
    forall i, j | 0 <= i < j < |s| ensures |s[i].key| <= |s[j].key| {
      assert s[j] == rest[j - 1] && rest[j - 1] in rest;
      if i > 0 {
        assert s[i] == rest[i - 1];
      }
    }
  }

  lemma NotBeforeIsDeeper(x: Draft, y: Draft)
    ensures SortsBefore(x, y) ==> |x.key| <= |y.key|
    ensures !SortsBefore(x, y) ==> |y.key| <= |x.key|
  {
  }

  lemma {:induction false} SortedByDepth(s: seq<Draft>)
    ensures DeepestLast(SortByDepth(s))
  {
    if s != [] {
      SortedByDepth(s[1..]);
      InsertedByDepth(s[0], SortByDepth(s[1..]));
    }
  }

  lemma {:induction false} SortByDepthMember(s: seq<Draft>, y: Draft)
    ensures y in SortByDepth(s) <==> y in s
  {
    hide InsertByDepth;
    if s != [] {
      SortByDepthMember(s[1..], y);
      InsertByDepthMember(s[0], SortByDepth(s[1..]), y);
      assert s == [s[0]] + s[1..];
    }
  }

  lemma {:induction false} UsesInserted(x: Draft, s: seq<Draft>, n: nat)
    ensures Uses(InsertByDepth(x, s), n) == Uses(s, n) + if x.note == n then 1 else 0
  {
    hide SortsBefore;
    var r := InsertByDepth(x, s);
    if r == [x] + s {
      assert r[1..] == s;
    } else {
      UsesInserted(x, s[1..], n);
      assert r[1..] == InsertByDepth(x, s[1..]);
    }
  }

  lemma {:induction false} UsesSorted(s: seq<Draft>, n: nat)
    ensures Uses(SortByDepth(s), n) == Uses(s, n)
  {
    hide InsertByDepth;
    if s != [] {
      UsesSorted(s[1..], n);
      UsesInserted(s[0], SortByDepth(s[1..]), n);
    }
  }

  lemma {:induction false} UsedOnce(s: seq<Draft>, n: nat)
    requires Uses(s, n) == 1
    ensures exists k :: 0 <= k < |s| && s[k].note == n
    ensures forall i, j :: 0 <= i < |s| && 0 <= j < |s| && s[i].note == n && s[j].note == n ==> i == j
  {
    if s[0].note == n {
      NotUsed(s[1..], n);
      forall i | 0 < i < |s| ensures s[i].note != n {
        assert s[i] == s[1..][i - 1];
      }
    } else {
      UsedOnce(s[1..], n);
      var k :| 0 <= k < |s[1..]| && s[1..][k].note == n;
      assert s[k + 1].note == n;
      forall i, j | 0 <= i < |s| && 0 <= j < |s| && s[i].note == n && s[j].note == n ensures i == j {
        assert s[1..][i - 1] == s[i] && s[1..][j - 1] == s[j];
      }
    }
  }

  lemma {:induction false} NotUsed(s: seq<Draft>, n: nat)
    requires Uses(s, n) == 0
    ensures forall k :: 0 <= k < |s| ==> s[k].note != n
  {
    if s != [] {
      NotUsed(s[1..], n);
      forall k | 0 <= k < |s| ensures s[k].note != n {
        if k > 0 {
          assert s[k] == s[1..][k - 1];
        }
      }
    }
  }

  // ------------------------------------------------------------------- entries

  ghost predicate Fresh(newId: nat -> string) {
    forall i: nat, j: nat :: newId(i) != "" && (i < j ==> newId(i) != newId(j))
  }

  ghost predicate Numbered(sorted: seq<Draft>, entries: seq<Entry>) {
    && |entries| == |sorted|
    && forall i :: 0 <= i < |sorted| ==> entries[i] == Entry(sorted[i].key, sorted[i].own, entries[i].id, sorted[i].alias, sorted[i].note)
  }

  /** Every entry comes from a note or a folder, every folder has an entry, and the
      text of every note is in exactly one. */
  ghost predicate FromNotes(notes: seq<Note>, entries: seq<Entry>) {
    && (forall k :: 0 <= k < |entries| ==> FromNote(notes, entries[k].key, entries[k].own, entries[k].alias, entries[k].note))
    && (forall d :: IsFolder(notes, d) ==> exists k :: 0 <= k < |entries| && entries[k].key == d)
    && (forall i: nat :: i < |notes| ==> InOne(entries, i))
  }

  ghost predicate InOne(entries: seq<Entry>, note: nat) {
    && (exists k :: 0 <= k < |entries| && entries[k].note == note)
    && (forall k, l :: 0 <= k < |entries| && 0 <= l < |entries| && entries[k].note == note && entries[l].note == note ==> k == l)
  }

  lemma DraftOfKey(drafts: seq<Draft>, entries: seq<Entry>, key: Path)
    requires Numbered(SortByDepth(drafts), entries) && HasKey(drafts, key)
    ensures exists j :: 0 <= j < |entries| && entries[j].key == key
  {
    hide SortByDepth;
    var k :| 0 <= k < |drafts| && drafts[k].key == key;
    var sorted := SortByDepth(drafts);
    SortByDepthMember(drafts, drafts[k]);
    var j :| 0 <= j < |sorted| && sorted[j] == drafts[k];
    assert entries[j].key == key;
  }

  lemma DraftOfEntry(notes: seq<Note>, drafts: seq<Draft>, entries: seq<Entry>, j: nat)
    requires Numbered(SortByDepth(drafts), entries) && AllFrom(notes, drafts) && j < |entries|
    ensures FromNote(notes, entries[j].key, entries[j].own, entries[j].alias, entries[j].note)
  {
    hide SortByDepth, FromNote;
    SortByDepthMember(drafts, SortByDepth(drafts)[j]);
    var k :| 0 <= k < |drafts| && drafts[k] == SortByDepth(drafts)[j];
  }

  lemma DraftOfNote(drafts: seq<Draft>, entries: seq<Entry>, n: nat)
    requires Numbered(SortByDepth(drafts), entries) && Uses(drafts, n) == 1
    ensures InOne(entries, n)
  {
    hide SortByDepth, Uses;
    UsesSorted(drafts, n);
    var sorted := SortByDepth(drafts);
    UsedOnce(sorted, n);
    var k :| 0 <= k < |sorted| && sorted[k].note == n;
    assert entries[k].note == n;
  }

  lemma EntriesFromNotes(notes: seq<Note>, drafts: seq<Draft>, entries: seq<Entry>)
    requires Drafted(notes, drafts) && Numbered(SortByDepth(drafts), entries)
    ensures FromNotes(notes, entries)
  {
    hide SortByDepth, FromNote, HasKey, Uses, AllFrom, Numbered, IsFolder, InOne;
    forall k: nat | k < |entries| ensures FromNote(notes, entries[k].key, entries[k].own, entries[k].alias, entries[k].note) {
      DraftOfEntry(notes, drafts, entries, k);
    }
    forall d | IsFolder(notes, d) ensures exists k :: 0 <= k < |entries| && entries[k].key == d {
      DraftOfKey(drafts, entries, d);
    }
    forall i: nat | i < |notes| ensures InOne(entries, i) {
      DraftOfNote(drafts, entries, i);
    }
  }

  ghost predicate ReadyToPlace(notes: seq<Note>, entries: seq<Entry>) {
    ParentsFirst(entries) && FromNotes(notes, entries) && Placeable(entries)
  }

  lemma EntriesAreReady(notes: seq<Note>, paths: seq<Path>, folders: set<Path>, drafts: seq<Draft>, entries: seq<Entry>)
    requires Paths(notes) && |paths| == |notes| && forall i :: 0 <= i < |notes| ==> paths[i] == notes[i].path
    requires forall d :: d in folders <==> IsFolder(notes, d)
    requires Drafted(notes, drafts) && Numbered(SortByDepth(drafts), entries)
    ensures FromNotes(notes, entries) && ParentsFirst(entries) && forall k :: 0 <= k < |entries| ==> entries[k].key != []
  {
    hide SortByDepth, HasKey, AllFrom, Uses, ParentsFirst;
    EntriesFromNotes(notes, drafts, entries);
    forall k | 0 <= k < |entries| ensures (entries[k].key in folders || entries[k].key in paths) && entries[k].key != [] {
      var n := entries[k].note;
      if n >= 0 && entries[k].key == notes[n].path {
        assert paths[n] in paths;
      }
    }
    FoldersOfPaths(notes, paths, folders);
    SortedByDepth(drafts);
    LayoutIsParentsFirst(paths, folders, entries);
  }

  lemma FoldersOfPaths(notes: seq<Note>, paths: seq<Path>, folders: set<Path>)
    requires |paths| == |notes| && forall i :: 0 <= i < |notes| ==> paths[i] == notes[i].path
    ensures (forall d :: d in folders <==> IsFolder(notes, d)) <==>
            forall d :: d in folders <==> d != [] && exists i :: 0 <= i < |paths| && d < paths[i]
  {
    forall d ensures IsFolder(notes, d) <==> d != [] && exists i :: 0 <= i < |paths| && d < paths[i] {
      if i :| 0 <= i < |notes| && d < notes[i].path {
        assert d < paths[i];
      }
      if i :| 0 <= i < |paths| && d < paths[i] {
        assert d < notes[i].path;
      }
    }
  }

  /** The paths of the notes and the folders above them. */
  method PathsAndFolders(notes: seq<Note>) returns (paths: seq<Path>, folders: set<Path>)
    ensures |paths| == |notes| && forall i :: 0 <= i < |notes| ==> paths[i] == notes[i].path
    ensures forall d :: d in folders <==> IsFolder(notes, d)
  {
    hide IsFolder;
    paths := seq(|notes|, i requires 0 <= i < |notes| => notes[i].path);
    folders := Folders(paths);
    FoldersOfPaths(notes, paths, folders);
  }

  /** Sorts the drafts by depth and gives them ids. */
  method EntriesOf(notes: seq<Note>, ghost paths: seq<Path>, ghost folders: set<Path>, drafts: seq<Draft>, newId: nat -> string) returns (entries: seq<Entry>)
    requires Paths(notes) && |paths| == |notes| && forall i :: 0 <= i < |notes| ==> paths[i] == notes[i].path
    requires forall d :: d in folders <==> IsFolder(notes, d)
    requires Drafted(notes, drafts) && Fresh(newId)
    ensures ReadyToPlace(notes, entries)
  {
    hide ParentsFirst, Drafted, SortByDepth, FromNotes, Paths, IsFolder;
    var sorted := SortByDepth(drafts);
    entries := seq(|sorted|, i requires 0 <= i < |sorted| => Entry(sorted[i].key, sorted[i].own, newId(i), sorted[i].alias, sorted[i].note));
    EntriesAreReady(notes, paths, folders, drafts, entries);
  }

  // -------------------------------------------------------------- the layouts

  /** A finished layout: the entries are those of the notes; each is placed by the
      rules, after its directory; and the backup's parent check accepts the tree. */
  ghost predicate LaidOut(p: Plan, entries: seq<Entry>, notes: seq<Note>) {
    && FromNotes(notes, entries) && ParentsFirst(entries) && Placeable(entries)
    && Placing(p, entries, |entries|)
    && DocTree.Accepts(Records(p.docs))
  }

  method PlaceNotes(planner: Planner, entries: seq<Entry>, ghost notes: seq<Note>)
    requires planner.Now() == Plan([], map[], map[], map[]) && ReadyToPlace(notes, entries)
    modifies planner
    ensures LaidOut(planner.Now(), entries, notes)
  {
    hide ParentsFirst, DocTree.Accepts, Records, FromNotes, Placeable;
    planner.PlaceAll(entries);
    PlacingIsTree(planner.Now(), entries);
    hide Placing;
    PlannedIsAccepted(planner.Now());
  }

  lemma PlacingIsTree(p: Plan, entries: seq<Entry>)
    requires Placeable(entries) && Placing(p, entries, |entries|)
    ensures Tree(p) && |p.docs| == |entries|
  {
  }

  /** layout, where folderNote picks the note that supplies a folder's text. */
  method Layout(planner: Planner, notes: seq<Note>, folderNote: Path -> int, newId: nat -> string) returns (entries: seq<Entry>)
    requires planner.Now() == Plan([], map[], map[], map[])
    requires Paths(notes) && FolderNotes(notes, folderNote) && Fresh(newId)
    modifies planner
    ensures LaidOut(planner.Now(), entries, notes)
  {
    hide ReadyToPlace, LaidOut, Drafted, Fresh, Paths, IsFolder, FolderNotes;
    var paths, folders := PathsAndFolders(notes);
    var drafts := Drafts(notes, folderNote, folders);
    entries := EntriesOf(notes, paths, folders, drafts, newId);
    PlaceNotes(planner, entries, notes);
  }

  /** wikiLayout, with every site path in lower case. */
  method WikiLayout(planner: Planner, pages: seq<Note>, newId: nat -> string) returns (entries: seq<Entry>)
    requires planner.Now() == Plan([], map[], map[], map[])
    requires Paths(pages) && (forall i :: 0 <= i < |pages| ==> pages[i].connector == "") && Fresh(newId)
    modifies planner
    ensures LaidOut(planner.Now(), entries, pages)
  {
    hide ReadyToPlace, LaidOut, Drafted, Fresh, Paths, IsFolder;
    var paths, folders := PathsAndFolders(pages);
    var drafts := WikiDrafts(pages, folders);
    entries := EntriesOf(pages, paths, folders, drafts, newId);
    PlaceNotes(planner, entries, pages);
  }

  // ------------------------------------------------------- what a layout promises

  /** Every note has exactly one document, in the scope of the connector it names. */
  lemma NotesKeepTheirScope(p: Plan, entries: seq<Entry>, notes: seq<Note>, i: nat) returns (k: nat)
    requires LaidOut(p, entries, notes) && i < |notes|
    ensures k < |p.docs| == |entries| && entries[k].note == i && p.docs[k].id == entries[k].id
    ensures forall l :: 0 <= l < |entries| && entries[l].note == i ==> l == k
    ensures notes[i].connector != "" ==> p.docs[k].scope == notes[i].connector
  {
    hide DocTree.Accepts, Tree, LeadsToLast, WellPlaced;
    assert InOne(entries, i);
    k :| k < |entries| && entries[k].note == i;
    assert FromNote(notes, entries[k].key, entries[k].own, entries[k].alias, entries[k].note);
    assert WellPlaced(p, entries, k);
    OwnScope(p, entries, k);
  }

  lemma OwnScope(p: Plan, entries: seq<Entry>, k: nat)
    requires k < |p.docs| && |p.docs| == |entries| && entries[k].key != [] && WellPlaced(p, entries, k)
    ensures entries[k].own != "" ==> p.docs[k].scope == entries[k].own
  {
    if d :| LastFor(entries, k, Dir(entries[k].key), d) {
    } else {
      LastOrNone(entries, k, Dir(entries[k].key));
    }
  }

  lemma {:induction false} LastOrNone(entries: seq<Entry>, n: nat, path: Path)
    requires n <= |entries|
    ensures NoneFor(entries, n, path) || exists d :: LastFor(entries, n, path, d)
  {
    if n > 0 {
      if Finds(entries[n - 1], path) {
        assert LastFor(entries, n, path, n - 1);
      } else {
        var m: nat := n - 1;
        LastOrNone(entries, m, path);
        if d :| LastFor(entries, m, path, d) {
          assert LastFor(entries, n, path, d);
        }
      }
    }
  }

  /** What is inside a directory and names no connector of another scope has the
      directory's document as parent, or at the depth limit that document's own
      parent, and carries its scope. */
  lemma ContentsStayBelow(p: Plan, entries: seq<Entry>, notes: seq<Note>, k: nat) returns (d: nat)
    requires LaidOut(p, entries, notes) && k < |entries| && |entries[k].key| > 1
    ensures d < k < |p.docs| == |entries| && LastFor(entries, k, Dir(entries[k].key), d) && p.docs[d].id in p.depth
    ensures entries[k].own == "" || entries[k].own == p.docs[d].scope ==>
      && p.docs[k].scope == p.docs[d].scope
      && p.docs[k].parent == if p.depth[p.docs[d].id] < MAX_DEPTH then p.docs[d].id else p.docs[d].parent
    ensures entries[k].own != "" && entries[k].own != p.docs[d].scope ==> p.docs[k].parent == ""
  {
    hide DocTree.Accepts, Tree, LeadsToLast, FromNotes;
    LastOrNone(entries, k, Dir(entries[k].key));
    var j :| 0 <= j < k && entries[j].key == Dir(entries[k].key);
    assert Finds(entries[j], Dir(entries[k].key));
    d :| LastFor(entries, k, Dir(entries[k].key), d);
    assert WellPlaced(p, entries, k);
  }

  /** What is in no directory is a root, in the scope it names or in none. */
  lemma TopLevelIsRoot(p: Plan, entries: seq<Entry>, notes: seq<Note>, k: nat)
    requires LaidOut(p, entries, notes) && k < |entries| && |entries[k].key| == 1
    ensures k < |p.docs| && p.docs[k] == Doc(entries[k].id, "", entries[k].own)
  {
    hide DocTree.Accepts, Tree, LeadsToLast;
    forall j | 0 <= j < k ensures !Finds(entries[j], []) {
      assert FromNote(notes, entries[j].key, entries[j].own, entries[j].alias, entries[j].note);
    }
    assert Dir(entries[k].key) == [];
    assert WellPlaced(p, entries, k);
  }

  /** A note is looked up by its path, unless the archive has a folder of that name. */
  lemma NotesAreFound(p: Plan, entries: seq<Entry>, notes: seq<Note>, i: nat)
    requires LaidOut(p, entries, notes) && Paths(notes) && i < |notes| && !IsFolder(notes, notes[i].path)
    ensures notes[i].path in p.at && p.at[notes[i].path] < |entries| && entries[p.at[notes[i].path]].note == i
  {
    hide DocTree.Accepts, Tree, WellPlaced;
    var path := notes[i].path;
    assert InOne(entries, i);
    var k :| 0 <= k < |entries| && entries[k].note == i;
    assert FromNote(notes, entries[k].key, entries[k].own, entries[k].alias, entries[k].note);
    assert Finds(entries[k], path);
    var at := p.at[path];
    assert LastFor(entries, |entries|, path, at);
    assert FromNote(notes, entries[at].key, entries[at].own, entries[at].alias, entries[at].note);
  }
}
