/** A blob on which the as-written tail rule of `addYearData` (ghcn_update.py) splits a row in two,
    and the corrected rule on the same blob. */
module TailRuleFinding {
  import opened Text
  import opened Reframer
  import opened ObjectStore
  import opened Results
  import opened Schema

  /** A whole day row of a yearly blob (36 characters, eight fields). */
  const DayLine := "US1NYAB0001,20200101,PRCP,5,,,a,0700"
  /** The same row cut after the first two digits of its observation time:
      `US1NYAB0001,20200101,PRCP,5,,,a,07`, written field by field. */
  const CutLine := "US1NYAB0001" + [','] + "20200101" + [','] + "PRCP" + [','] + "5" + [','] + ""
                   + [','] + "" + [','] + "a" + [','] + "07"
  /** Two such rows; with `block_size` 70 the first range ends inside the second row's last field. */
  const TwoDays := DayLine + "\n" + DayLine + "\n"

  lemma {:induction false} CutLineFields()
    ensures |Split(CutLine, ',')| == FieldCount
  {
    var f1 := "US1NYAB0001";
    assert ',' !in f1 by {
      assert forall i :: 0 <= i < |f1| ==> f1[i] != ',';
    }
    SplitNoSep(f1, ',');
    var p2 := f1 + [','] + "20200101";
    SplitAppendPiece(f1, "20200101", ',');
    var p3 := p2 + [','] + "PRCP";
    SplitAppendPiece(p2, "PRCP", ',');
    var p4 := p3 + [','] + "5";
    SplitAppendPiece(p3, "5", ',');
    var p5 := p4 + [','] + "";
    SplitAppendPiece(p4, "", ',');
    var p6 := p5 + [','] + "";
    SplitAppendPiece(p5, "", ',');
    var p7 := p6 + [','] + "a";
    SplitAppendPiece(p6, "a", ',');
    SplitAppendPiece(p7, "07", ',');
  }

  lemma {:induction false} NoNewlines()
    ensures '\n' !in DayLine && '\n' !in CutLine
  {
    DayLineNoNewline();
    assert CutLine == DayLine[..34];
  }

  lemma {:induction false} DayLineNoNewline()
    ensures '\n' !in DayLine
  {
    assert forall i :: 0 <= i < |DayLine| ==> DayLine[i] != '\n';
  }

  lemma {:induction false} FirstChunk()
    ensures RangeGet(S3Object(TwoDays, "", {}), 0, 70) == Some(DayLine + "\n" + CutLine)
    ensures Reframe(DayLine + "\n" + CutLine) == Chunk([DayLine, CutLine], 71)
  {
    assert TwoDays[0..71] == DayLine + "\n" + CutLine;
    FirstSplit();
    CutLineFields();
  }

  lemma {:induction false} FirstSplit()
    ensures Split(DayLine + "\n" + CutLine, '\n') == [DayLine, CutLine]
  {
    NoNewlines();
    TwoPieces(DayLine, CutLine, '\n');
  }

  /** Two pieces without the separator, joined by it, split back into the two. */
  lemma {:induction false} TwoPieces(a: string, b: string, sep: char)
    requires sep !in a && sep !in b
    ensures Split(a + [sep] + b, sep) == [a, b]
  {
    SplitConcat(a, b, sep);
    SplitNoSep(a, sep);
    SplitNoSep(b, sep);
  }

  lemma {:induction false} SecondChunk()
    ensures RangeGet(S3Object(TwoDays, "", {}), 71, 74) == Some("00\n")
    ensures Reframe("00\n") == Chunk(["00"], 3)
  {
    assert TwoDays[71..74] == "00\n";
    SecondSplit();
  }

  lemma {:induction false} SecondSplit()
    ensures Split("00\n", '\n') == ["00", ""]
  {
    var s: string := "00\n";
    assert s == "00" + ['\n'];
    assert '\n' !in "00";
    SplitNoSep("00", '\n');
    SplitSnoc("00", '\n', '\n');
  }

  lemma {:induction false} TwoDaysLines()
    ensures Lines(TwoDays) == [DayLine, DayLine]
  {
    NoNewlines();
    assert TwoDays == DayLine + ['\n'] + (DayLine + ['\n'] + "");
    LinesConcat(DayLine, DayLine + ['\n'] + "");
    LinesConcat(DayLine, "");
    SplitNoSep(DayLine, '\n');
  }

  /** The as-written rule's last GET starts at the end of the blob and emits nothing. */
  lemma {:induction false} EmittedPastEnd()
    ensures Emitted(S3Object(TwoDays, "", {}), 70, 74) == []
  {
  }

  /** The second GET, from offset 71, emits the last two digits of the cut row as a row. */
  lemma {:induction false} EmittedFromSecond()
    ensures Emitted(S3Object(TwoDays, "", {}), 70, 71) == ["00"]
  {
    SecondChunk();
    EmittedPastEnd();
  }

  lemma {:induction false} CutRowCounterexample()
    ensures Emitted(S3Object(TwoDays, "", {}), 70, 0) == [DayLine, CutLine, "00"]
    ensures Lines(TwoDays) == [DayLine, DayLine]
  {
    FirstChunk();
    EmittedFromSecond();
    TwoDaysLines();
  }

  lemma {:induction false} SecondDaySplit()
    ensures Split(DayLine + "\n", '\n') == [DayLine, ""]
  {
    NoNewlines();
    SplitNoSep(DayLine, '\n');
    SplitSnoc(DayLine, '\n', '\n');
  }

  /** The corrected rule's read past the end emits nothing. */
  lemma {:induction false} IntendedPastEnd()
    ensures IntendedEmitted(S3Object(TwoDays, "", {}), 70, 74) == []
  {
  }

  /** The corrected rule's second GET, from the start of the second row, reads it whole. */
  lemma {:induction false} IntendedFromSecond()
    ensures IntendedEmitted(S3Object(TwoDays, "", {}), 70, 37) == [DayLine]
  {
    assert TwoDays[37..74] == DayLine + "\n";
    SecondDaySplit();
    assert IntendedReframe(DayLine + "\n", true) == Chunk([DayLine], 37);
    IntendedPastEnd();
  }

  /** The corrected rule on the same blob reads both rows whole. */
  lemma {:induction false} IntendedOnTwoDays()
    ensures IntendedEmitted(S3Object(TwoDays, "", {}), 70, 0) == [DayLine, DayLine]
  {
    assert TwoDays[0..71] == DayLine + "\n" + CutLine;
    FirstSplit();
    assert IntendedReframe(DayLine + "\n" + CutLine, false) == Chunk([DayLine], 37);
    IntendedFromSecond();
  }
}
