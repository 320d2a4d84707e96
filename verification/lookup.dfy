/**
 The lookups behind the four read routes, without the web framework: all
 duas, the duas of one chapter, one dua of one chapter, and the dua of the
 day. Chapters and duas are addressed by position: a chapter by its place in
 the key order of the index, a dua by its place in its chapter's list.
 */
module Lookup {
  import opened Duas
  import opened Loader

  /** What a lookup answers: the value found, or which of the three
      not-found conditions applies. */
  datatype Answer<T> = Found(value: T) | NoData | ChapterNotFound | EntryNotFound

  /** `get_duas`: the whole index, or `NoData` when it has no chapter. */
  function AllDuas(idx: Index): (r: Answer<Index>)
    ensures r == NoData <==> |idx| == 0
    ensures r != NoData ==> r == Found(idx)
  {
    if |idx| == 0 then NoData else Found(idx)
  }

  /** `get_dua`: the list of the chapter at position `i` of the key order. */
  function ChapterAt(idx: Index, i: int): (r: Answer<seq<Row>>)
    ensures r.Found? <==> 0 <= i < |idx|
    ensures r.Found? ==> r.value == idx[i].duas
    ensures !r.Found? ==> r == ChapterNotFound
  {
    var chapters := Keys(idx);
    if 0 <= i < |chapters| then
      Found(idx[i].duas)
    else
      ChapterNotFound
  }

  /** `get_individual_dua`: dua `j` of the chapter at position `i`. The
      chapter position is checked first. */
  function EntryAt(idx: Index, i: int, j: int): (r: Answer<Row>)
    ensures !(0 <= i < |idx|) ==> r == ChapterNotFound
    ensures 0 <= i < |idx| && !(0 <= j < |idx[i].duas|) ==> r == EntryNotFound
    ensures 0 <= i < |idx| && 0 <= j < |idx[i].duas| ==> r == Found(idx[i].duas[j])
  {
    var chapters := Keys(idx);
    if 0 <= i < |chapters| then
      var chapterDuas := idx[i].duas;
      if 0 <= j < |chapterDuas| then
        Found(chapterDuas[j])
      else
        EntryNotFound
    else
      ChapterNotFound
  }

  /** The loop of `get_dua_of_the_day` that gathers every dua: the chapters'
      lists concatenated in key order. */
  method CollectDuas(idx: Index) returns (all: seq<Row>)
    ensures all == Flatten(idx)
  {
    all := [];
    var n := 0;
    while n < |idx|
      invariant 0 <= n <= |idx|
      invariant all == Flatten(idx[..n])
    {
      assert idx[..n + 1] == idx[..n] + [idx[n]];
      FlattenAppend(idx[..n], [idx[n]]);
      assert Flatten([idx[n]]) == idx[n].duas;
      all := all + idx[n].duas;
      n := n + 1;
    }
    assert idx[..n] == idx;
  }

  /** `get_dua_of_the_day`: the dua at position `k` of the gathered list, or
      `NoData` when the list is empty. `k` stands for the draw of
      `random.choice`, a position of the gathered list whenever it has one. */
  function DuaOfTheDay(idx: Index, k: int): (r: Answer<Row>)
    requires |Flatten(idx)| > 0 ==> 0 <= k < |Flatten(idx)|
    ensures r == NoData <==> forall i :: 0 <= i < |idx| ==> |idx[i].duas| == 0
    ensures r != NoData ==> r.Found?
    ensures r.Found? ==> exists i, j :: 0 <= i < |idx| && 0 <= j < |idx[i].duas| && r.value == idx[i].duas[j]
  {
    var all := Flatten(idx);
    FlattenEmpty(idx);
    if |all| > 0 then
      FlattenMember(idx, k);
      Found(all[k])
    else
      NoData
  }

  /** Every dua of the index is the dua of the day for some draw. */
  lemma EveryDuaCanBePicked(idx: Index, i: int, j: int)
    requires 0 <= i < |idx| && 0 <= j < |idx[i].duas|
    ensures exists k :: 0 <= k < |Flatten(idx)| && DuaOfTheDay(idx, k) == Found(idx[i].duas[j])
  {
    FlattenAt(idx, i, j);
    var k := |Flatten(idx[..i])| + j;
    assert DuaOfTheDay(idx, k) == Found(idx[i].duas[j]);
  }

  /** A dua lookup answers as the chapter lookup followed by a position check
      on the chapter's list: it is `ChapterNotFound` exactly when the chapter
      lookup fails, so `EntryNotFound` always names an existing chapter. */
  lemma EntryAtThroughChapterAt(idx: Index, i: int, j: int)
    ensures EntryAt(idx, i, j) == ChapterNotFound <==> ChapterAt(idx, i) == ChapterNotFound
    ensures EntryAt(idx, i, j) == EntryNotFound <==>
              ChapterAt(idx, i).Found? && !(0 <= j < |ChapterAt(idx, i).value|)
    ensures EntryAt(idx, i, j).Found? ==>
              ChapterAt(idx, i).Found? && EntryAt(idx, i, j).value == ChapterAt(idx, i).value[j]
  {
  }

  /** On a loaded index, all-duas answers `NoData` exactly when no row was
      read: the file was missing, the CSV reader failed, or it had no rows. */
  lemma AllDuasOfLoaded(src: Source)
    ensures AllDuas(LoadDuas(src)) == NoData <==> !src.Read? || |src.rows| == 0
  {
    LoadedKeepsRows(src);
  }

  /** On a loaded index, a valid chapter position yields exactly the resolved
      input rows of that chapter, in input order, and never an empty list;
      any other position yields `ChapterNotFound`. */
  lemma ChapterAtOfLoaded(rows: seq<Row>, i: int)
    ensures 0 <= i < |LoadDuas(Read(rows))| ==>
              ChapterAt(LoadDuas(Read(rows)), i)
                == Found(Filter(Relabel(rows), LoadDuas(Read(rows))[i].name))
              && |ChapterAt(LoadDuas(Read(rows)), i).value| > 0
    ensures !(0 <= i < |LoadDuas(Read(rows))|) ==> ChapterAt(LoadDuas(Read(rows)), i) == ChapterNotFound
  {
    LoadedChapterContents(rows);
  }

  /** On a loaded index, the dua of the day is `NoData` exactly when no row
      was read, and otherwise there is one draw per input row. */
  lemma DuaOfTheDayOfLoaded(src: Source, k: int)
    requires |Flatten(LoadDuas(src))| > 0 ==> 0 <= k < |Flatten(LoadDuas(src))|
    ensures DuaOfTheDay(LoadDuas(src), k) == NoData <==> !src.Read? || |src.rows| == 0
    ensures src.Read? ==> |Flatten(LoadDuas(src))| == |src.rows|
  {
    LoadedKeepsRows(src);
    FlattenEmpty(LoadDuas(src));
  }
}
