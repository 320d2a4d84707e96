/**
 The entities of the duas index: one row of duas.csv, one chapter of the index,
 and the index itself, an insertion-ordered mapping from chapter name to the
 chapter's rows. Also the reference definitions the loader and the lookups are
 specified against: the key list, the flattened row list, the rows of one
 chapter, and the first position of a chapter name in a row sequence.
 */
module Duas {

  /** The chapter label the scraper writes for a dua without a chapter of its
      own; the loader files such rows under the chapter seen last. */
  const Uncategorized: string := "Uncategorized"

  /** One row of duas.csv, with the columns the scraper writes. Only `chapter`
      takes part in the index logic; the other columns are carried unchanged. */
  datatype Row = Row(
    chapter: string,
    numberOfDuas: string,
    arabic: string,
    transliteration: string,
    translation: string,
    reference: string)

  /** One key of the index with the list of rows stored under it. */
  datatype Chapter = Chapter(name: string, duas: seq<Row>)

  /** The insertion-ordered dict from chapter name to rows, as its sequence of
      items in insertion order. */
  type Index = seq<Chapter>

  /** The key list, in insertion order (Python's `list(duas.keys())`). */
  function Keys(idx: Index): (ks: seq<string>)
  {
    seq(|idx|, i requires 0 <= i < |idx| => idx[i].name)
  }

  /** A dict never holds the same key twice. */
  predicate WellFormed(idx: Index)
  {
    forall i, j :: 0 <= i < j < |idx| ==> idx[i].name != idx[j].name
  }

  /** All rows of the index, chapters in key order, each chapter's rows in
      list order. */
  function Flatten(idx: Index): (all: seq<Row>)
  {
    if |idx| == 0 then [] else idx[0].duas + Flatten(idx[1..])
  }

  /** The chapter field of every row, in row order. */
  function Chapters(rows: seq<Row>): (cs: seq<string>)
  {
    seq(|rows|, i requires 0 <= i < |rows| => rows[i].chapter)
  }

  /** The rows whose chapter is `c`, in row order. */
  function Filter(rows: seq<Row>, c: string): (selected: seq<Row>)
  {
    if |rows| == 0 then []
    else Filter(rows[..|rows| - 1], c)
         + (if rows[|rows| - 1].chapter == c then [rows[|rows| - 1]] else [])
  }

  /** The position of the first row whose chapter is `c`, or `|rows|` when
      there is none. */
  function FirstIndex(rows: seq<Row>, c: string): (n: nat)
    ensures n <= |rows|
  {
    if |rows| == 0 then 0
    else if rows[0].chapter == c then 0
    else 1 + FirstIndex(rows[1..], c)
  }

  lemma {:induction false} FlattenAppend(a: Index, b: Index)
    ensures Flatten(a + b) == Flatten(a) + Flatten(b)
    decreases |a|
  {
    if |a| == 0 {
      assert a + b == b;
    } else {
      assert (a + b)[1..] == a[1..] + b;
      FlattenAppend(a[1..], b);
    }
  }

  /** Row `j` of chapter `i` sits in the flattened list right after the rows
      of the chapters before `i`. */
  lemma {:induction false} FlattenAt(idx: Index, i: int, j: int)
    requires 0 <= i < |idx| && 0 <= j < |idx[i].duas|
    ensures |Flatten(idx[..i])| + j < |Flatten(idx)|
    ensures Flatten(idx)[|Flatten(idx[..i])| + j] == idx[i].duas[j]
  {
    assert idx == idx[..i] + idx[i..];
    FlattenAppend(idx[..i], idx[i..]);
    assert idx[i..][1..] == idx[i + 1..];
  }

  /** Every position of the flattened list holds a row of some chapter. */
  lemma {:induction false} FlattenMember(idx: Index, n: int)
    requires 0 <= n < |Flatten(idx)|
    ensures exists i, j :: 0 <= i < |idx| && 0 <= j < |idx[i].duas| && Flatten(idx)[n] == idx[i].duas[j]
    decreases |idx|
  {
    if n < |idx[0].duas| {
      assert Flatten(idx)[n] == idx[0].duas[n];
    } else {
      FlattenMember(idx[1..], n - |idx[0].duas|);
      var i, j :| 0 <= i < |idx[1..]| && 0 <= j < |idx[1..][i].duas|
                  && Flatten(idx[1..])[n - |idx[0].duas|] == idx[1..][i].duas[j];
      assert Flatten(idx)[n] == idx[i + 1].duas[j];
    }
  }

  /** The flattened list is empty exactly when every chapter list is. */
  lemma {:induction false} FlattenEmpty(idx: Index)
    ensures |Flatten(idx)| == 0 <==> forall i :: 0 <= i < |idx| ==> |idx[i].duas| == 0
    decreases |idx|
  {
    if |idx| > 0 {
      FlattenEmpty(idx[1..]);
      assert forall i :: 1 <= i < |idx| ==> idx[i] == idx[1..][i - 1];
    }
  }
}
