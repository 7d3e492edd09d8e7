/** Turning ranged reads of a yearly CSV blob into text lines: the tail rule of
    `addYearData` (ghcn_update.py) and the stream of lines it yields over a whole blob.
    Also the rule the code evidently intends, with the proof that it yields every line once. */
module Reframer {
  import opened Results
  import opened Text
  import opened Schema
  import opened ObjectStore

  /** What one chunk contributes: the lines it emits and how far the read cursor advances. */
  datatype Chunk = Chunk(rows: seq<string>, consumed: nat)

  /** The tail rule as written: split the chunk on `\n`; when the last piece has fewer than
      eight comma fields it is taken for a cut line, dropped and read again with the next range. */
  function Reframe(text: string): (c: Chunk)
    ensures c.consumed <= |text|
  {
    SplitLast(text, '\n');
    var segs := Split(text, '\n');
    var tail := Last(segs);
    if |Split(tail, ',')| < FieldCount then Chunk(segs[..|segs| - 1], |text| - |tail|)
    else Chunk(segs, |text|)
  }

  /** The rewind in words: a chunk is its emitted lines joined by newlines, followed either by a
      newline and the put-back tail (which has no newline and fewer than eight fields), or by
      nothing, when the last line was kept. */
  lemma {:induction false} ReframeConsumes(text: string)
    ensures var c := Reframe(text); var back := text[c.consumed..];
      && '\n' !in back
      && (c.rows == [] ==> c.consumed == 0)
      && (c.consumed < |text| || c.rows == [] ==> |Split(back, ',')| < FieldCount)
      && (c.rows != [] && c.consumed < |text| ==> text[..c.consumed] == Join(c.rows, '\n') + "\n")
      && (c.consumed == |text| && c.rows != [] ==>
            text == Join(c.rows, '\n') || text == Join(c.rows, '\n') + "\n")
    ensures var segs := Split(text, '\n'); var c := Reframe(text);
      |Split(Last(segs), ',')| < FieldCount ==>
        c.rows == segs[..|segs| - 1] && text[c.consumed..] == Last(segs)
    ensures var segs := Split(text, '\n');
      |Split(Last(segs), ',')| >= FieldCount ==> Reframe(text) == Chunk(segs, |text|)
  {
    var segs := Split(text, '\n');
    if |Split(Last(segs), ',')| < FieldCount {
      DropTail(text);
      assert text[..|text|] == text;
    } else {
      JoinSplit(text, '\n');
      assert text[|text|..] == "";
    }
  }

  /** Putting back the last piece of a chunk: it has no newline, and what precedes it is the
      other pieces, each followed by a newline. */
  lemma DropTail(text: string)
    ensures var segs := Split(text, '\n'); var tail := Last(segs);
      && |tail| <= |text| && text[|text| - |tail|..] == tail && '\n' !in tail
      && (|segs| == 1 ==> |tail| == |text|)
      && (|segs| > 1 ==> text[..|text| - |tail|] == Join(segs[..|segs| - 1], '\n') + "\n")
  {
    SplitLast(text, '\n');
    SplitPieces(text, '\n');
    var segs := Split(text, '\n');
    assert '\n' !in Last(segs);
    if |segs| > 1 {
      FrontJoins(text, |text| - |Last(segs)| - 1, segs[..|segs| - 1]);
    }
  }

  /** Text up to a newline at `k` whose front splits into `front` is `front` joined, then a newline. */
  lemma {:induction false} FrontJoins(text: string, k: nat, front: seq<string>)
    requires k < |text| && text[k] == '\n' && Split(text[..k], '\n') == front
    ensures text[..k + 1] == Join(front, '\n') + "\n"
  {
    JoinSplit(text[..k], '\n');
    assert text[..k + 1] == text[..k] + "\n";
  }

  /** The lines `addYearData` reads from an object, from cursor `start` to where its loop stops:
      the range is `[start, min(start + block_size, length)]`; the loop stops when that is empty,
      when the GET returns nothing, and when a chunk emits no line. */
  function Emitted(obj: S3Object, blockSize: int, start: nat): seq<string>
    requires start <= |obj.body|
    decreases |obj.body| - start
  {
    var finish := Min(start + blockSize, |obj.body|);
    if finish - start <= 0 then []
    else
      match RangeGet(obj, start, finish)
      case None => []
      case Some(text) =>
        var c := Reframe(text);
        if c.rows == [] || c.consumed == 0 then [] else c.rows + Emitted(obj, blockSize, start + c.consumed)
  }

  // ---------------------------------------------------------------------------
  // The intended rule

  /** The rows the tail rule keeps from text that ends the blob: its lines, less an unterminated
      last piece of fewer than eight fields. This is also what one GET of the whole blob yields. */
  function WholeRows(text: string): seq<string>
  {
    Reframe(text).rows
  }

  /** The tail rule the comment "back up to the last \n so we get full text line" describes.
      A chunk that stops short of the end of the blob ends inside a line or just before its
      newline, so its last piece is always put back; a chunk that reaches the end keeps the
      source's test, and puts back a last piece of fewer than eight fields (which the next
      turn reads alone and drops, ending the loop). */
  function IntendedReframe(text: string, atEnd: bool): (c: Chunk)
    ensures c.consumed <= |text|
  {
    SplitLast(text, '\n');
    var segs := Split(text, '\n');
    var tail := Last(segs);
    if atEnd then Reframe(text) else Chunk(segs[..|segs| - 1], |text| - |tail|)
  }

  /** At the end of the blob the intended rule is the source's; before it, the chunk emits
      every piece but the last and puts the last piece back. */
  lemma {:induction false} IntendedReframeShape(text: string, atEnd: bool)
    ensures var c := IntendedReframe(text, atEnd);
      && (atEnd ==> c == Reframe(text))
      && (!atEnd ==> c.rows == Split(text, '\n')[..|Split(text, '\n')| - 1])
      && (!atEnd ==> text[c.consumed..] == Last(Split(text, '\n')))
  {
    SplitLast(text, '\n');
    var segs := Split(text, '\n');
    if !atEnd {
      assert text[|text| - |Last(segs)|..] == Last(segs);
    }
  }

  /** The lines the loop would read under the intended rule. */
  function IntendedEmitted(obj: S3Object, blockSize: int, start: nat): seq<string>
    requires start <= |obj.body|
    decreases |obj.body| - start
  {
    var finish := Min(start + blockSize, |obj.body|);
    if finish - start <= 0 then []
    else
      match RangeGet(obj, start, finish)
      case None => []
      case Some(text) =>
        var c := IntendedReframe(text, start + |text| == |obj.body|);
        if c.rows == [] || c.consumed == 0 then []
        else c.rows + IntendedEmitted(obj, blockSize, start + c.consumed)
  }

  /** No stretch of the blob longer than `blockSize` characters is free of newlines,
      that is, no line is longer than `blockSize`. */
  predicate LinesFit(body: string, blockSize: int)
  {
    forall i, j :: 0 <= i <= j <= |body| && j - i > blockSize ==> '\n' in body[i..j]
  }

  /** The blob ends with a newline, or with a last line of at least eight fields. */
  predicate EndsWithWholeLine(body: string)
  {
    var tail := Last(Split(body, '\n'));
    tail == "" || |Split(tail, ',')| >= FieldCount
  }

  /** Under the intended rule, with no transient failures and no line longer than a block,
      the loop reads the rows of the blob exactly once and in order: every line, when the blob
      ends with a whole line. */
  lemma {:induction false} IntendedEmittedIsLines(obj: S3Object, blockSize: int)
    requires obj.faults == {} && blockSize >= 1 && LinesFit(obj.body, blockSize)
    ensures IntendedEmitted(obj, blockSize, 0) == WholeRows(obj.body)
    ensures EndsWithWholeLine(obj.body) ==> IntendedEmitted(obj, blockSize, 0) == Lines(obj.body)
  {
    IntendedEmittedFrom(obj, blockSize, 0);
    assert obj.body[0..] == obj.body;
    WholeRowsAreLines(obj.body);
  }

  /** The same from any line start. */
  lemma {:induction false} IntendedEmittedFrom(obj: S3Object, blockSize: int, start: nat)
    requires obj.faults == {} && blockSize >= 1 && LinesFit(obj.body, blockSize)
    requires start <= |obj.body| && (start == 0 || obj.body[start - 1] == '\n')
    ensures IntendedEmitted(obj, blockSize, start) == WholeRows(obj.body[start..])
    decreases |obj.body| - start
  {
    var body := obj.body;
    if start == |body| {
      assert body[start..] == "";
      WholeRowsOfEmpty();
    } else if start + blockSize + 1 >= |body| {
      LastChunk(obj, blockSize, start);
    } else {
      assert '\n' in body[start..start + blockSize + 1];
      var next := MidChunk(obj, blockSize, start);
      IntendedEmittedFrom(obj, blockSize, next);
      WholeRowsConcat(body[start..next - 1], body[next..]);
    }
  }

  /** Empty text has no rows. */
  lemma {:induction false} WholeRowsOfEmpty()
    ensures WholeRows("") == []
  {
    assert Split("", ',') == [""];
  }

  /** The rows of `a + "\n" + b`: the pieces of `a` followed by the rows of `b`. */
  lemma {:induction false} WholeRowsConcat(a: string, b: string)
    ensures WholeRows(a + ['\n'] + b) == Split(a, '\n') + WholeRows(b)
  {
    var l := Split(a, '\n');
    var r := Split(b, '\n');
    SplitConcat(a, b, '\n');
    DropLastConcat(l, r);
  }

  /** The rows are the lines, or the lines less a short unterminated last one; they are all
      the lines when the blob ends with a whole line. */
  lemma {:induction false} WholeRowsAreLines(text: string)
    ensures WholeRows(text) <= Lines(text) && |Lines(text)| <= |WholeRows(text)| + 1
    ensures EndsWithWholeLine(text) ==> WholeRows(text) == Lines(text)
    ensures !EndsWithWholeLine(text) ==> WholeRows(text) == Lines(text)[..|Lines(text)| - 1]
  {
    assert Split("", ',') == [""];
  }

  /** Cut at a point where the cut piece has fewer than eight fields, the rows of a blob's prefix
      are a prefix of the blob's rows. */
  lemma {:induction false} WholeRowsPrefix(body: string, p: nat)
    requires p <= |body| && |Split(Last(Split(body[..p], '\n')), ',')| < FieldCount
    ensures WholeRows(body[..p]) <= WholeRows(body)
  {
    var cut := body[..p];
    SplitLast(cut, '\n');
    var segs := Split(cut, '\n');
    ShortLastRows(cut);
    if |segs| > 1 {
      var q := p - |Last(segs)| - 1;
      assert cut[..q] == body[..q] && body[q] == cut[q] == '\n';
      RowsAtNewline(body, q);
    }
  }

  /** A text whose last piece is short keeps every piece but that one. */
  lemma {:induction false} ShortLastRows(text: string)
    requires |Split(Last(Split(text, '\n')), ',')| < FieldCount
    ensures WholeRows(text) == Split(text, '\n')[..|Split(text, '\n')| - 1]
  {
  }

  /** The rows of a text, cut at one of its newlines. */
  lemma {:induction false} RowsAtNewline(body: string, q: nat)
    requires q < |body| && body[q] == '\n'
    ensures WholeRows(body) == Split(body[..q], '\n') + WholeRows(body[q + 1..])
  {
    assert body == body[..q] + ['\n'] + body[q + 1..];
    WholeRowsConcat(body[..q], body[q + 1..]);
  }

  /** From a line start within one block of the end, the loop reads the rows of the rest of the
      blob: one chunk to the end, and, when it puts back a short last piece, one more turn that
      reads that piece alone and stops. */
  lemma {:induction false} LastChunk(obj: S3Object, blockSize: int, start: nat)
    requires obj.faults == {} && blockSize >= 1
    requires start < |obj.body| <= start + blockSize + 1
    ensures IntendedEmitted(obj, blockSize, start) == WholeRows(obj.body[start..])
  {
    var text := LastRead(obj, blockSize, start);
    LastChunkReads(obj, blockSize, start, text);
  }

  /** The last chunk's reframing is all the loop reads from its start. */
  lemma {:induction false} LastChunkReads(obj: S3Object, blockSize: int, start: nat, text: string)
    requires obj.faults == {} && blockSize >= 1
    requires start < |obj.body| && start + |text| == |obj.body| <= start + blockSize + 1
    requires text == obj.body[start..]
    requires RangeGet(obj, start, Min(start + blockSize, |obj.body|)) == Some(text)
    requires IntendedReframe(text, true) == Reframe(text)
    ensures IntendedEmitted(obj, blockSize, start) == Reframe(text).rows
  {
    if Reframe(text).rows != [] {
      LastChunkEmits(obj, blockSize, start, text);
    } else {
      LastChunkEmitsNothing(obj, blockSize, start, text);
    }
  }

  /** A last chunk that keeps no line ends the loop. */
  lemma {:induction false} LastChunkEmitsNothing(obj: S3Object, blockSize: int, start: nat, text: string)
    requires blockSize >= 1
    requires start < |obj.body| && start + |text| == |obj.body| <= start + blockSize + 1
    requires RangeGet(obj, start, Min(start + blockSize, |obj.body|)) == Some(text)
    requires IntendedReframe(text, true).rows == []
    ensures IntendedEmitted(obj, blockSize, start) == []
  {
    var c := IntendedReframe(text, true);
    IntendedUnfold(obj, blockSize, start, text, c.rows, start + c.consumed);
  }

  /** A last chunk that keeps lines is followed by nothing more. */
  lemma {:induction false} LastChunkEmits(obj: S3Object, blockSize: int, start: nat, text: string)
    requires obj.faults == {} && blockSize >= 1
    requires start < |obj.body| && start + |text| == |obj.body| <= start + blockSize + 1
    requires text == obj.body[start..]
    requires RangeGet(obj, start, Min(start + blockSize, |obj.body|)) == Some(text)
    requires IntendedReframe(text, true) == Reframe(text) && Reframe(text).rows != []
    ensures IntendedEmitted(obj, blockSize, start) == Reframe(text).rows
  {
    var c := Reframe(text);
    var next := start + c.consumed;
    assert 0 < c.consumed by { IntendedAdvances(text, true); }
    assert IntendedEmitted(obj, blockSize, next) == [] by { AfterLastChunk(obj, blockSize, start, text); }
    assert Chunk(c.rows, next - start) == IntendedReframe(text, start + |text| == |obj.body|);
    assert start < Min(start + blockSize, |obj.body|) && next <= |obj.body|;
    IntendedUnfoldLast(obj, blockSize, start, text, c.rows, next);
  }

  /** A turn whose chunk is followed by nothing reads just that chunk's lines. */
  lemma {:induction false} IntendedUnfoldLast(obj: S3Object, blockSize: int, start: nat, text: string,
                                              rows: seq<string>, next: nat)
    requires start <= |obj.body| && start < Min(start + blockSize, |obj.body|)
    requires RangeGet(obj, start, Min(start + blockSize, |obj.body|)) == Some(text)
    requires start <= next && Chunk(rows, next - start) == IntendedReframe(text, start + |text| == |obj.body|)
    requires rows != [] ==> next <= |obj.body| && IntendedEmitted(obj, blockSize, next) == []
    ensures IntendedEmitted(obj, blockSize, start) == rows
  {
    IntendedUnfold(obj, blockSize, start, text, rows, next);
    assert rows + [] == rows;
  }

  /** The GET from a cursor within a block of the end returns the rest of the blob. */
  lemma {:induction false} LastRead(obj: S3Object, blockSize: int, start: nat) returns (text: string)
    requires obj.faults == {} && blockSize >= 1
    requires start < |obj.body| <= start + blockSize + 1
    ensures start + |text| == |obj.body| && text == obj.body[start..]
    ensures RangeGet(obj, start, Min(start + blockSize, |obj.body|)) == Some(text)
    ensures IntendedReframe(text, start + |text| == |obj.body|) == Reframe(text)
    ensures WholeRows(obj.body[start..]) == Reframe(text).rows
  {
    text := RangeGet(obj, start, Min(start + blockSize, |obj.body|)).value;
  }

  /** After the last chunk, the loop reads nothing more: it is at the end, or it reads the
      put-back piece alone and stops. */
  lemma {:induction false} AfterLastChunk(obj: S3Object, blockSize: int, start: nat, text: string)
    requires obj.faults == {} && blockSize >= 1
    requires start + |text| == |obj.body| && text == obj.body[start..] && |text| <= blockSize + 1
    requires 0 < Reframe(text).consumed
    ensures IntendedEmitted(obj, blockSize, start + Reframe(text).consumed) == []
  {
    if Reframe(text).consumed == |text| {
      IntendedStops(obj, blockSize, |obj.body|);
    } else {
      PutBackStops(obj, blockSize, start, text);
    }
  }

  /** The piece the last chunk put back is read alone and ends the loop. */
  lemma {:induction false} PutBackStops(obj: S3Object, blockSize: int, start: nat, text: string)
    requires obj.faults == {} && blockSize >= 1
    requires start + |text| == |obj.body| && text == obj.body[start..] && |text| <= blockSize + 1
    requires 0 < Reframe(text).consumed < |text|
    ensures IntendedEmitted(obj, blockSize, start + Reframe(text).consumed) == []
  {
    ReframeConsumes(text);
    var k := Reframe(text).consumed;
    assert obj.body[start + k..] == text[k..];
    ShortTailStops(obj, blockSize, start + k);
  }

  /** A short unterminated last piece, read alone at the end of the blob, ends the loop. */
  lemma {:induction false} ShortTailStops(obj: S3Object, blockSize: int, start: nat)
    requires obj.faults == {} && blockSize >= 1
    requires start < |obj.body| <= start + blockSize
    requires '\n' !in obj.body[start..] && |Split(obj.body[start..], ',')| < FieldCount
    ensures IntendedEmitted(obj, blockSize, start) == []
  {
    var tail := obj.body[start..];
    assert obj.body[start..|obj.body|] == tail;
    assert Min(start + blockSize, |obj.body|) == |obj.body|;
    assert RangeGet(obj, start, |obj.body|) == Some(tail);
    ShortPieceKeepsNothing(tail);
    IntendedUnfold(obj, blockSize, start, tail, [], start);
  }

  /** A short piece without a newline, read at the end of the blob, emits nothing. */
  lemma {:induction false} ShortPieceKeepsNothing(tail: string)
    requires '\n' !in tail && |Split(tail, ',')| < FieldCount
    ensures IntendedReframe(tail, true) == Chunk([], 0)
  {
    SplitNoSep(tail, '\n');
  }

  /** From a line start more than a block from the end, one chunk reads whole lines up to and
      including a newline, and the cursor lands on the next line start. */
  lemma {:induction false} MidChunk(obj: S3Object, blockSize: int, start: nat) returns (next: nat)
    requires obj.faults == {} && blockSize >= 1
    requires start + blockSize + 1 < |obj.body|
    requires '\n' in obj.body[start..start + blockSize + 1]
    ensures start < next <= |obj.body| && obj.body[next - 1] == '\n'
    ensures obj.body[start..] == obj.body[start..next - 1] + ['\n'] + obj.body[next..]
    ensures IntendedEmitted(obj, blockSize, start)
            == Split(obj.body[start..next - 1], '\n') + IntendedEmitted(obj, blockSize, next)
  {
    next := CutChunk(obj.body, start, blockSize + 1);
    SliceAround(obj.body, start, next, '\n');
    MidChunkEmits(obj, blockSize, start, next);
  }

  /** A cut at offset `k` of the chunk `s[lo..lo + len]` seen in `s` itself. */
  lemma {:induction false} SubSlice(s: string, lo: nat, len: nat, k: nat)
    requires k < len && lo + len <= |s|
    ensures s[lo..lo + len][..k] == s[lo..lo + k] && s[lo..lo + len][k] == s[lo + k]
  {
  }

  /** `CutAtLastNewline` for the chunk `s[lo..lo + len]`: the cursor after the cut, in `s`. */
  lemma {:induction false} CutChunk(s: string, lo: nat, len: nat) returns (next: nat)
    requires lo + len <= |s| && '\n' in s[lo..lo + len]
    ensures lo < next <= lo + len && s[next - 1] == '\n'
    ensures IntendedReframe(s[lo..lo + len], false) == Chunk(Split(s[lo..next - 1], '\n'), next - lo)
  {
    var k := CutAtLastNewline(s[lo..lo + len]);
    SubSlice(s, lo, len, k);
    next := lo + k + 1;
  }

  /** A suffix of `s` around the character just before `hi`. */
  lemma {:induction false} SliceAround(s: string, lo: nat, hi: nat, c: char)
    requires lo < hi <= |s| && s[hi - 1] == c
    ensures s[lo..] == s[lo..hi - 1] + [c] + s[hi..]
  {
  }

  /** The lines one chunk emits when the intended rule cuts it before `next`. */
  lemma {:induction false} MidChunkEmits(obj: S3Object, blockSize: int, start: nat, next: nat)
    requires obj.faults == {} && blockSize >= 1 && start + blockSize + 1 < |obj.body|
    requires start < next <= start + blockSize + 1
    requires IntendedReframe(obj.body[start..start + blockSize + 1], false)
             == Chunk(Split(obj.body[start..next - 1], '\n'), next - start)
    ensures IntendedEmitted(obj, blockSize, start)
            == Split(obj.body[start..next - 1], '\n') + IntendedEmitted(obj, blockSize, next)
  {
    var text := obj.body[start..start + blockSize + 1];
    var rows := Split(obj.body[start..next - 1], '\n');
    assert RangeGet(obj, start, Min(start + blockSize, |obj.body|)) == Some(text) by {
      assert Min(start + blockSize, |obj.body|) == start + blockSize;
    }
    assert start + |text| != |obj.body|;
    IntendedUnfold(obj, blockSize, start, text, rows, next);
  }

  /** Where the intended rule cuts a chunk that is not at the end: after its last newline. */
  lemma {:induction false} CutAtLastNewline(text: string) returns (k: nat)
    requires '\n' in text
    ensures k < |text| && text[k] == '\n'
    ensures IntendedReframe(text, false) == Chunk(Split(text[..k], '\n'), k + 1)
  {
    SplitLast(text, '\n');
    var segs := Split(text, '\n');
    k := |text| - |Last(segs)| - 1;
  }

  /** One turn of the loop under the intended rule, from any cursor whose GET returns a chunk. */
  lemma {:induction false} IntendedUnfold(obj: S3Object, blockSize: int, start: nat, text: string,
                                          rows: seq<string>, next: nat)
    requires start <= |obj.body| && start < Min(start + blockSize, |obj.body|)
    requires RangeGet(obj, start, Min(start + blockSize, |obj.body|)) == Some(text)
    requires start <= next && Chunk(rows, next - start) == IntendedReframe(text, start + |text| == |obj.body|)
    ensures rows != [] ==>
        && start < next <= |obj.body|
        && IntendedEmitted(obj, blockSize, start) == rows + IntendedEmitted(obj, blockSize, next)
    ensures rows == [] ==> IntendedEmitted(obj, blockSize, start) == []
  {
    IntendedAdvances(text, start + |text| == |obj.body|);
  }

  /** Nothing is read from an empty range or after a failed GET. */
  lemma {:induction false} IntendedStops(obj: S3Object, blockSize: int, start: nat)
    requires start <= |obj.body|
    ensures Min(start + blockSize, |obj.body|) - start <= 0 ==> IntendedEmitted(obj, blockSize, start) == []
    ensures start < Min(start + blockSize, |obj.body|) && RangeGet(obj, start, Min(start + blockSize, |obj.body|)).None?
            ==> IntendedEmitted(obj, blockSize, start) == []
  {
  }

  /** A chunk that emits a line always moves the cursor forward. */
  lemma {:induction false} IntendedAdvances(text: string, atEnd: bool)
    ensures IntendedReframe(text, atEnd).rows != [] ==> 0 < IntendedReframe(text, atEnd).consumed
  {
    var segs := Split(text, '\n');
    var c := IntendedReframe(text, atEnd);
    SplitLast(text, '\n');
    if |segs| > 1 {
      assert |Last(segs)| < |text|;
    } else if |text| == 0 {
      assert Split("", ',') == [""];
    }
  }

  /** With no transient failures, any two block sizes that every line fits read the same rows. */
  lemma {:induction false} BlockSizeIndependent(obj: S3Object, blockSize: int, blockSize': int)
    requires obj.faults == {} && blockSize >= 1 && blockSize' >= 1
    requires LinesFit(obj.body, blockSize) && LinesFit(obj.body, blockSize')
    ensures IntendedEmitted(obj, blockSize, 0) == IntendedEmitted(obj, blockSize', 0)
  {
    IntendedEmittedIsLines(obj, blockSize);
    IntendedEmittedIsLines(obj, blockSize');
  }
}
