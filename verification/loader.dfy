/**
 `load_duas`: one pass over the rows of duas.csv in file order, carrying the
 most recent real chapter, that builds the insertion-ordered index from
 chapter name to rows. Opening the file and tokenising the CSV are outside the
 model: the loader receives what the CSV reader produced, or the failure it
 raised.

 Reference definitions the pass is proved against: `LastReal` (the nearest
 preceding real chapter), `Relabel` (every row with its chapter resolved) and
 `Group` (rows appended one by one to an initially empty index).
 */
module Loader {
  import opened Duas

  /** What reading duas.csv produced: the rows the CSV reader yielded, or one
      of the two failures the loader catches. */
  datatype Source = FileNotFound | CsvError | Read(rows: seq<Row>)

  /** The row as stored: an `Uncategorized` row takes the current chapter,
      every other row is kept as it is. Its chapter is also the current
      chapter for the rows after it. */
  function ResolveRow(current: string, row: Row): (stored: Row)
  {
    if row.chapter == Uncategorized then row.(chapter := current) else row
  }

  /** The chapter of the last row of `rows` that is not `Uncategorized`, or
      the empty string when there is none. */
  function LastReal(rows: seq<Row>): (c: string)
    ensures c != Uncategorized
  {
    if |rows| == 0 then ""
    else if rows[|rows| - 1].chapter != Uncategorized then rows[|rows| - 1].chapter
    else LastReal(rows[..|rows| - 1])
  }

  /** Every row with its chapter resolved against the rows before it. */
  function Relabel(rows: seq<Row>): (rs: seq<Row>)
    ensures |rs| == |rows|
  {
    if |rows| == 0 then []
    else
      var init := rows[..|rows| - 1];
      Relabel(init) + [ResolveRow(LastReal(init), rows[|rows| - 1])]
  }

  /** Append `row` to the list under its chapter, creating the list at the
      end of the key order when the chapter is new. */
  function Insert(idx: Index, row: Row): (res: Index)
    requires WellFormed(idx)
    ensures WellFormed(res)
    ensures row.chapter in Keys(idx) ==>
              |res| == |idx|
              && forall k :: 0 <= k < |idx| ==>
                   res[k] == Chapter(idx[k].name,
                                     if idx[k].name == row.chapter then idx[k].duas + [row] else idx[k].duas)
    ensures row.chapter !in Keys(idx) ==> res == idx + [Chapter(row.chapter, [row])]
    decreases |idx|
  {
    if |idx| == 0 then [Chapter(row.chapter, [row])]
    else if idx[0].name == row.chapter then
      assert Keys(idx)[0] == row.chapter;
      [idx[0].(duas := idx[0].duas + [row])] + idx[1..]
    else
      assert Keys(idx) == [idx[0].name] + Keys(idx[1..]);
      [idx[0]] + Insert(idx[1..], row)
  }

  /** The index obtained by appending `rows` one by one to the empty index. */
  function Group(rows: seq<Row>): (idx: Index)
    ensures WellFormed(idx)
  {
    if |rows| == 0 then [] else Insert(Group(rows[..|rows| - 1]), rows[|rows| - 1])
  }

  /** The loop of `load_duas` from some point on: `idx` is the index built so
      far and `current` the current chapter. */
  function LoadFrom(idx: Index, current: string, rows: seq<Row>): (res: Index)
    requires WellFormed(idx)
    ensures WellFormed(res)
    decreases |rows|
  {
    if |rows| == 0 then idx
    else
      var row := ResolveRow(current, rows[0]);
      LoadFrom(Insert(idx, row), row.chapter, rows[1..])
  }

  /** `load_duas`: the index of the rows that were read, or the empty index
      when the file is missing or the CSV reader failed. */
  function LoadDuas(src: Source): (idx: Index)
    ensures WellFormed(idx)
    ensures src.Read? ==> idx == Group(Relabel(src.rows))
    ensures !src.Read? ==> idx == []
  {
    match src
    case FileNotFound => []
    case CsvError => []
    case Read(rows) =>
      LoadFromGroups(rows);
      LoadFrom([], "", rows)
  }

  /** Continuing the pass after the prefix `done` gives the grouped relabelled
      rows of the whole input. */
  lemma {:induction false} LoadFromGroupsAfter(done: seq<Row>, rows: seq<Row>)
    ensures LoadFrom(Group(Relabel(done)), LastReal(done), rows) == Group(Relabel(done + rows))
    decreases |rows|
  {
    if |rows| == 0 {
      assert done + rows == done;
    } else {
      var next := done + [rows[0]];
      var row := ResolveRow(LastReal(done), rows[0]);
      calc {
        LoadFrom(Group(Relabel(done)), LastReal(done), rows);
      == { LoadFromStep(Group(Relabel(done)), LastReal(done), rows); }
        LoadFrom(Insert(Group(Relabel(done)), row), row.chapter, rows[1..]);
      == { GroupRelabelStep(done, rows[0]); }
        LoadFrom(Group(Relabel(next)), LastReal(next), rows[1..]);
      == { LoadFromGroupsAfter(next, rows[1..]); }
        Group(Relabel(next + rows[1..]));
      == { assert next + rows[1..] == done + rows; }
        Group(Relabel(done + rows));
      }
    }
  }

  lemma LoadFromStep(idx: Index, current: string, rows: seq<Row>)
    requires WellFormed(idx) && |rows| > 0
    ensures LoadFrom(idx, current, rows)
         == LoadFrom(Insert(idx, ResolveRow(current, rows[0])), ResolveRow(current, rows[0]).chapter, rows[1..])
  {
  }

  /** One more input row: the grouped relabelled rows grow by the row the
      pass stores, and the current chapter becomes that row's chapter. */
  lemma GroupRelabelStep(done: seq<Row>, r: Row)
    ensures Group(Relabel(done + [r])) == Insert(Group(Relabel(done)), ResolveRow(LastReal(done), r))
    ensures LastReal(done + [r]) == ResolveRow(LastReal(done), r).chapter
  {
    assert (done + [r])[..|done|] == done;
    var rs := Relabel(done + [r]);
    assert rs == Relabel(done) + [ResolveRow(LastReal(done), r)];
    assert rs[..|rs| - 1] == Relabel(done);
  }

  /** The whole pass, from the empty index and the empty current chapter,
      builds the grouped relabelled rows. */
  lemma LoadFromGroups(rows: seq<Row>)
    ensures LoadFrom([], "", rows) == Group(Relabel(rows))
  {
    LoadFromGroupsAfter([], rows);
    assert [] + rows == rows;
  }

  /** A resolved row is the input row with its chapter replaced by the
      nearest real chapter at or before it. */
  lemma {:induction false} RelabelAt(rows: seq<Row>, i: int)
    requires 0 <= i < |rows|
    ensures rows[i].chapter != Uncategorized ==> Relabel(rows)[i] == rows[i]
    ensures rows[i].chapter == Uncategorized ==>
              Relabel(rows)[i] == rows[i].(chapter := LastReal(rows[..i]))
    ensures Relabel(rows)[i].chapter != Uncategorized
    decreases |rows|
  {
    var init := rows[..|rows| - 1];
    if i < |rows| - 1 {
      RelabelAt(init, i);
      assert init[..i] == rows[..i];
    }
  }

  /** `LastReal` is the nearest preceding real chapter: either no row is real
      and it is the empty string, or it is the chapter of a real row after
      which every row is `Uncategorized`. */
  lemma {:induction false} LastRealIsNearest(rows: seq<Row>)
    ensures (LastReal(rows) == "" && forall m :: 0 <= m < |rows| ==> rows[m].chapter == Uncategorized)
            || exists k :: 0 <= k < |rows| && rows[k].chapter == LastReal(rows)
                           && forall m :: k < m < |rows| ==> rows[m].chapter == Uncategorized
    decreases |rows|
  {
    if |rows| > 0 && rows[|rows| - 1].chapter == Uncategorized {
      var init := rows[..|rows| - 1];
      LastRealIsNearest(init);
      assert forall m :: 0 <= m < |init| ==> init[m] == rows[m];
    }
  }

  /** The keys of a grouped index are exactly the chapters of its rows, and
      they are ordered by first appearance among the rows. */
  lemma {:induction false} GroupKeys(rows: seq<Row>)
    ensures forall c :: c in Keys(Group(rows)) <==> c in Chapters(rows)
    ensures forall i, j :: 0 <= i < j < |Group(rows)| ==>
              FirstIndex(rows, Group(rows)[i].name) < FirstIndex(rows, Group(rows)[j].name)
    decreases |rows|
  {
    if |rows| > 0 {
      var init := rows[..|rows| - 1];
      var row := rows[|rows| - 1];
      GroupKeys(init);
      var g := Group(init);
      assert rows == init + [row];
      assert Chapters(rows) == Chapters(init) + [row.chapter];
      if row.chapter !in Keys(g) {
        FirstIndexExtend(init, row, row.chapter);
        assert Group(rows) == g + [Chapter(row.chapter, [row])];
        assert Keys(Group(rows)) == Keys(g) + [row.chapter];
        forall i, j | 0 <= i < j < |Group(rows)|
          ensures FirstIndex(rows, Group(rows)[i].name) < FirstIndex(rows, Group(rows)[j].name)
        {
          assert Keys(g)[i] == g[i].name;
          FirstIndexExtend(init, row, g[i].name);
          if j < |g| {
            assert Keys(g)[j] == g[j].name;
            FirstIndexExtend(init, row, g[j].name);
          }
        }
      } else {
        assert Keys(Group(rows)) == Keys(g);
        forall i, j | 0 <= i < j < |Group(rows)|
          ensures FirstIndex(rows, Group(rows)[i].name) < FirstIndex(rows, Group(rows)[j].name)
        {
          assert Keys(g)[i] == g[i].name && Keys(g)[j] == g[j].name;
          FirstIndexExtend(init, row, g[i].name);
          FirstIndexExtend(init, row, g[j].name);
        }
      }
    }
  }

  /** Appending a row does not move the first appearance of a chapter already
      present; a new chapter first appears at the appended position. */
  lemma {:induction false} FirstIndexExtend(rows: seq<Row>, row: Row, c: string)
    ensures c in Chapters(rows) ==> FirstIndex(rows + [row], c) == FirstIndex(rows, c) < |rows|
    ensures c !in Chapters(rows) && row.chapter == c ==> FirstIndex(rows + [row], c) == |rows|
    decreases |rows|
  {
    if |rows| > 0 {
      assert (rows + [row])[1..] == rows[1..] + [row];
      assert Chapters(rows)[0] == rows[0].chapter;
      if rows[0].chapter != c {
        assert forall x :: x in Chapters(rows[1..]) ==> x in Chapters(rows) by {
          assert forall m :: 0 <= m < |rows[1..]| ==> Chapters(rows[1..])[m] == Chapters(rows)[m + 1];
        }
        if c in Chapters(rows) {
          var m :| 0 <= m < |rows| && rows[m].chapter == c;
          assert Chapters(rows[1..])[m - 1] == c;
        }
        FirstIndexExtend(rows[1..], row, c);
      }
    }
  }

  /** Each chapter list of a grouped index holds exactly the rows of that
      chapter, in input order, and is never empty. */
  lemma {:induction false} GroupContents(rows: seq<Row>)
    ensures forall i :: 0 <= i < |Group(rows)| ==> Group(rows)[i].duas == Filter(rows, Group(rows)[i].name)
    ensures forall i :: 0 <= i < |Group(rows)| ==> |Group(rows)[i].duas| > 0
    decreases |rows|
  {
    if |rows| > 0 {
      var init := rows[..|rows| - 1];
      var row := rows[|rows| - 1];
      GroupContents(init);
      var g := Group(init);
      assert Group(rows) == Insert(g, row);
      if row.chapter !in Keys(g) {
        GroupKeys(init);
        FilterAbsent(init, row.chapter);
        assert Filter(rows, row.chapter) == [row];
      }
      forall i | 0 <= i < |Group(rows)|
        ensures Group(rows)[i].duas == Filter(rows, Group(rows)[i].name)
      {
        if i < |g| {
          assert Group(rows)[i].name == g[i].name;
        }
      }
    }
  }

  lemma {:induction false} FilterAbsent(rows: seq<Row>, c: string)
    requires c !in Chapters(rows)
    ensures Filter(rows, c) == []
    decreases |rows|
  {
    if |rows| > 0 {
      var init := rows[..|rows| - 1];
      assert forall m :: 0 <= m < |init| ==> Chapters(init)[m] == Chapters(rows)[m];
      assert Chapters(rows)[|rows| - 1] == rows[|rows| - 1].chapter;
      FilterAbsent(init, c);
    }
  }

  /** Grouping neither drops nor duplicates a row: the flattened index is a
      permutation of the input. */
  lemma {:induction false} GroupKeepsRows(rows: seq<Row>)
    ensures |Flatten(Group(rows))| == |rows|
    ensures multiset(Flatten(Group(rows))) == multiset(rows)
    decreases |rows|
  {
    if |rows| > 0 {
      var init := rows[..|rows| - 1];
      GroupKeepsRows(init);
      InsertKeepsRows(Group(init), rows[|rows| - 1]);
      assert rows == init + [rows[|rows| - 1]];
    }
  }

  lemma {:induction false} InsertKeepsRows(idx: Index, row: Row)
    requires WellFormed(idx)
    ensures multiset(Flatten(Insert(idx, row))) == multiset(Flatten(idx)) + multiset{row}
    ensures |Flatten(Insert(idx, row))| == |Flatten(idx)| + 1
    decreases |idx|
  {
    if |idx| > 0 && idx[0].name != row.chapter {
      InsertKeepsRows(idx[1..], row);
      assert Insert(idx, row)[1..] == Insert(idx[1..], row);
    } else if |idx| > 0 {
      assert Insert(idx, row)[1..] == idx[1..];
    }
  }

  /** Every row of `Filter(rows, c)` has chapter `c`. */
  lemma {:induction false} FilterChapter(rows: seq<Row>, c: string)
    ensures forall k :: 0 <= k < |Filter(rows, c)| ==> Filter(rows, c)[k].chapter == c
    decreases |rows|
  {
    if |rows| > 0 {
      FilterChapter(rows[..|rows| - 1], c);
    }
  }

  /** A loaded index never has `Uncategorized` as a key. */
  lemma LoadedNoSentinelKey(src: Source)
    ensures Uncategorized !in Keys(LoadDuas(src))
  {
    if src.Read? {
      var rs := Relabel(src.rows);
      assert LoadDuas(src) == Group(rs);
      GroupKeys(rs);
      if Uncategorized in Chapters(rs) {
        var m :| 0 <= m < |rs| && Chapters(rs)[m] == Uncategorized;
        RelabelAt(src.rows, m);
      }
    }
  }

  /** Every row stored in a loaded index carries, as its chapter, the key of
      the list that holds it. */
  lemma LoadedRowsCarryKey(src: Source)
    ensures forall i, k :: 0 <= i < |LoadDuas(src)| && 0 <= k < |LoadDuas(src)[i].duas| ==>
              LoadDuas(src)[i].duas[k].chapter == LoadDuas(src)[i].name
  {
    if src.Read? {
      var rs := Relabel(src.rows);
      var idx := LoadDuas(src);
      assert idx == Group(rs);
      GroupContents(rs);
      forall i | 0 <= i < |idx|
        ensures forall k :: 0 <= k < |idx[i].duas| ==> idx[i].duas[k].chapter == idx[i].name
      {
        FilterChapter(rs, idx[i].name);
      }
    }
  }

  /** The keys of a loaded index are the resolved chapters of the input, in
      order of first appearance. */
  lemma LoadedKeyOrder(rows: seq<Row>)
    ensures forall c :: c in Keys(LoadDuas(Read(rows))) <==> c in Chapters(Relabel(rows))
    ensures forall i, j :: 0 <= i < j < |LoadDuas(Read(rows))| ==>
              FirstIndex(Relabel(rows), LoadDuas(Read(rows))[i].name)
                < FirstIndex(Relabel(rows), LoadDuas(Read(rows))[j].name)
  {
    GroupKeys(Relabel(rows));
  }

  /** Each list of a loaded index holds exactly the resolved input rows of
      its chapter, in input order, and is never empty. */
  lemma LoadedChapterContents(rows: seq<Row>)
    ensures forall i :: 0 <= i < |LoadDuas(Read(rows))| ==>
              LoadDuas(Read(rows))[i].duas == Filter(Relabel(rows), LoadDuas(Read(rows))[i].name)
    ensures forall i :: 0 <= i < |LoadDuas(Read(rows))| ==> |LoadDuas(Read(rows))[i].duas| > 0
  {
    GroupContents(Relabel(rows));
  }

  /** Loading neither drops nor duplicates a row: the flattened index is a
      permutation of the resolved input, and an unreadable source gives the
      empty index. */
  lemma LoadedKeepsRows(src: Source)
    ensures src.Read? ==> |Flatten(LoadDuas(src))| == |src.rows|
    ensures src.Read? ==> multiset(Flatten(LoadDuas(src))) == multiset(Relabel(src.rows))
    ensures !src.Read? ==> LoadDuas(src) == []
  {
    if src.Read? {
      GroupKeepsRows(Relabel(src.rows));
    }
  }
}
