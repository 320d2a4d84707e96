/**
 Concrete runs of the loader and the lookups on small inputs: the
 carry-forward of `Uncategorized` rows, a chapter that reappears after
 another one, and `Uncategorized` rows before any real chapter.
 */
module Scenarios {
  import opened Duas
  import opened Loader
  import opened Lookup

  function Dua(chapter: string, reference: string): (row: Row)
  {
    Row(chapter, "", "", "", "", reference)
  }

  function MorningEvening(): (rows: seq<Row>)
  {
    [Dua("Morning", "r1"), Dua(Uncategorized, "r2"), Dua("Evening", "r3"), Dua(Uncategorized, "r4")]
  }

  /** Appending a row of an existing chapter extends that chapter's list in
      place. */
  lemma InsertInto(idx: Index, k: int, row: Row)
    requires WellFormed(idx) && 0 <= k < |idx| && idx[k].name == row.chapter
    ensures Insert(idx, row) == idx[k := idx[k].(duas := idx[k].duas + [row])]
  {
    assert Keys(idx)[k] == row.chapter;
  }

  /** Morning, an uncategorized dua, Evening, an uncategorized dua: each
      uncategorized dua joins the chapter just before it. */
  lemma CarryForwardExample()
    ensures LoadDuas(Read(MorningEvening()))
         == [Chapter("Morning", [Dua("Morning", "r1"), Dua("Morning", "r2")]),
             Chapter("Evening", [Dua("Evening", "r3"), Dua("Evening", "r4")])]
  {
    CarryForwardPass();
  }

  lemma CarryForwardPass()
    ensures LoadFrom([], "", MorningEvening())
         == [Chapter("Morning", [Dua("Morning", "r1"), Dua("Morning", "r2")]),
             Chapter("Evening", [Dua("Evening", "r3"), Dua("Evening", "r4")])]
  {
    var r1, r2, r3, r4 := Dua("Morning", "r1"), Dua(Uncategorized, "r2"), Dua("Evening", "r3"), Dua(Uncategorized, "r4");
    var m1, m2 := Chapter("Morning", [r1]), Chapter("Morning", [r1, Dua("Morning", "r2")]);
    var e1 := Chapter("Evening", [r3]);
    var rows := MorningEvening();
    calc {
      LoadFrom([], "", rows);
    == { LoadFromStep([], "", rows); assert rows[1..] == [r2, r3, r4]; }
      LoadFrom([m1], "Morning", [r2, r3, r4]);
    == { LoadFromStep([m1], "Morning", [r2, r3, r4]); assert [r2, r3, r4][1..] == [r3, r4];
         assert ResolveRow("Morning", r2) == Dua("Morning", "r2");
         InsertInto([m1], 0, Dua("Morning", "r2"));
         assert [r1] + [Dua("Morning", "r2")] == [r1, Dua("Morning", "r2")]; }
      LoadFrom([m2], "Morning", [r3, r4]);
    == { LoadFromStep([m2], "Morning", [r3, r4]); assert [r3, r4][1..] == [r4];
         assert Keys([m2]) == ["Morning"]; }
      LoadFrom([m2, e1], "Evening", [r4]);
    == { LoadFromStep([m2, e1], "Evening", [r4]); assert [r4][1..] == [];
         assert ResolveRow("Evening", r4) == Dua("Evening", "r4");
         InsertInto([m2, e1], 1, Dua("Evening", "r4"));
         assert [r3] + [Dua("Evening", "r4")] == [r3, Dua("Evening", "r4")]; }
      LoadFrom([m2, Chapter("Evening", [r3, Dua("Evening", "r4")])], "Evening", []);
    }
  }

  /** Lookups on the index of the previous example: the second dua of the
      second chapter is the resolved fourth row; a third chapter or a third
      dua does not exist. */
  lemma CarryForwardLookups()
    ensures ChapterAt(LoadDuas(Read(MorningEvening())), 0)
         == Found([Dua("Morning", "r1"), Dua("Morning", "r2")])
    ensures ChapterAt(LoadDuas(Read(MorningEvening())), 2) == ChapterNotFound
    ensures EntryAt(LoadDuas(Read(MorningEvening())), 1, 1) == Found(Dua("Evening", "r4"))
    ensures EntryAt(LoadDuas(Read(MorningEvening())), 1, 2) == EntryNotFound
    ensures ChapterAt(LoadDuas(Read(MorningEvening())), -1) == ChapterNotFound
    ensures EntryAt(LoadDuas(Read(MorningEvening())), -1, 0) == ChapterNotFound
  {
    CarryForwardExample();
  }

  /** A chapter that reappears after another one keeps its first position,
      and its later rows join its list. */
  lemma ReappearingChapterExample()
    ensures LoadDuas(Read([Dua("Morning", "r1"), Dua("Evening", "r2"), Dua("Morning", "r3")]))
         == [Chapter("Morning", [Dua("Morning", "r1"), Dua("Morning", "r3")]),
             Chapter("Evening", [Dua("Evening", "r2")])]
  {
    ReappearingChapterPass();
  }

  lemma ReappearingChapterPass()
    ensures LoadFrom([], "", [Dua("Morning", "r1"), Dua("Evening", "r2"), Dua("Morning", "r3")])
         == [Chapter("Morning", [Dua("Morning", "r1"), Dua("Morning", "r3")]),
             Chapter("Evening", [Dua("Evening", "r2")])]
  {
    var r1, r2, r3 := Dua("Morning", "r1"), Dua("Evening", "r2"), Dua("Morning", "r3");
    var m1, e1 := Chapter("Morning", [r1]), Chapter("Evening", [r2]);
    var rows := [r1, r2, r3];
    calc {
      LoadFrom([], "", rows);
    == { LoadFromStep([], "", rows); assert rows[1..] == [r2, r3]; }
      LoadFrom([m1], "Morning", [r2, r3]);
    == { LoadFromStep([m1], "Morning", [r2, r3]); assert [r2, r3][1..] == [r3];
         assert Keys([m1]) == ["Morning"]; }
      LoadFrom([m1, e1], "Evening", [r3]);
    == { LoadFromStep([m1, e1], "Evening", [r3]); assert [r3][1..] == [];
         assert ResolveRow("Evening", r3) == r3;
         InsertInto([m1, e1], 0, r3);
         assert [r1] + [r3] == [r1, r3]; }
      LoadFrom([Chapter("Morning", [r1, r3]), e1], "Morning", []);
    }
  }

  /** `Uncategorized` rows before any real chapter are filed under the empty
      chapter name, which becomes the first key. */
  lemma LeadingUncategorizedExample()
    ensures LoadDuas(Read([Dua(Uncategorized, "r1"), Dua("Morning", "r2")]))
         == [Chapter("", [Dua("", "r1")]), Chapter("Morning", [Dua("Morning", "r2")])]
  {
    var r1, r2 := Dua(Uncategorized, "r1"), Dua("Morning", "r2");
    var u1 := Chapter("", [Dua("", "r1")]);
    calc {
      LoadFrom([], "", [r1, r2]);
    == { LoadFromStep([], "", [r1, r2]); assert [r1, r2][1..] == [r2];
         assert ResolveRow("", r1) == Dua("", "r1"); }
      LoadFrom([u1], "", [r2]);
    == { LoadFromStep([u1], "", [r2]); assert [r2][1..] == [];
         assert Keys([u1]) == [""]; }
      LoadFrom([u1, Chapter("Morning", [r2])], "Morning", []);
    }
  }

  /** An empty CSV and a missing file both leave the service with no data. */
  lemma EmptySourceExample()
    ensures AllDuas(LoadDuas(Read([]))) == NoData
    ensures DuaOfTheDay(LoadDuas(Read([])), 0) == NoData
    ensures AllDuas(LoadDuas(FileNotFound)) == NoData
    ensures DuaOfTheDay(LoadDuas(FileNotFound), 0) == NoData
  {
  }
}
