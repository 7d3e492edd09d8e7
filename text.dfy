/** The string operations of Python that the ingestion code relies on:
    `str.split` on one separator, `str.strip`, slicing, `str(int)` and `int(str)`. */
module Text {
  import opened Results

  /** `s.split(sep)`: the pieces between consecutive separators, always at least one. */
  function Split(s: string, sep: char): (r: seq<string>)
    ensures |r| >= 1
    decreases |s|
  {
    if |s| == 0 then [""]
    else
      var init := Split(s[..|s| - 1], sep);
      var c := s[|s| - 1];
      if c == sep then init + [""]
      else init[..|init| - 1] + [init[|init| - 1] + [c]]
  }

  /** No piece of a split holds the separator. */
  lemma {:induction false} SplitPieces(s: string, sep: char)
    ensures forall i :: 0 <= i < |Split(s, sep)| ==> sep !in Split(s, sep)[i]
    decreases |s|
  {
    if |s| > 0 {
      var p := s[..|s| - 1];
      var c := s[|s| - 1];
      assert s == p + [c];
      SplitPieces(p, sep);
      SplitSnoc(p, c, sep);
      if c != sep {
        var init := Split(p, sep);
        var x := Last(init) + [c];
        assert sep !in x by {
          forall j | 0 <= j < |x| ensures x[j] != sep {
            if j < |Last(init)| { assert x[j] == Last(init)[j]; }
          }
        }
      }
    }
  }

  /** `sep.join(parts)`. */
  function Join(parts: seq<string>, sep: char): string
  {
    if |parts| == 0 then ""
    else if |parts| == 1 then parts[0]
    else Join(parts[..|parts| - 1], sep) + [sep] + parts[|parts| - 1]
  }

  /** The last piece of a split. */
  function Last(parts: seq<string>): string
    requires |parts| >= 1
  {
    parts[|parts| - 1]
  }

  /** The pieces `init` with `c` appended to the last one. */
  function ExtendLast(init: seq<string>, c: char): (r: seq<string>)
    requires |init| >= 1
    ensures |r| == |init| && Last(r) == Last(init) + [c] && r[..|r| - 1] == init[..|init| - 1]
  {
    init[..|init| - 1] + [Last(init) + [c]]
  }

  /** One step of `Split`: appending a character to the text. */
  lemma SplitSnoc(p: string, c: char, sep: char)
    ensures Split(p + [c], sep) ==
      if c == sep then Split(p, sep) + [""] else ExtendLast(Split(p, sep), c)
  {
    var s := p + [c];
    assert s[..|s| - 1] == p;
  }

  /** Extending the last piece of `l + r` extends the last piece of `r`. */
  lemma ExtendLastConcat(l: seq<string>, r: seq<string>, c: char)
    requires |r| >= 1
    ensures ExtendLast(l + r, c) == l + ExtendLast(r, c)
  {
    DropLastConcat(l, r);
    assert (l + r[..|r| - 1]) + [Last(r) + [c]] == l + (r[..|r| - 1] + [Last(r) + [c]]);
  }

  /** One step of `Join`: appending a piece. */
  lemma JoinSnoc(parts: seq<string>, x: string, sep: char)
    requires |parts| >= 1
    ensures Join(parts + [x], sep) == Join(parts, sep) + [sep] + x
  {
    var ps := parts + [x];
    assert ps[..|ps| - 1] == parts;
  }

  /** Joining the pieces of a split gives back the string. */
  lemma {:induction false} JoinSplit(s: string, sep: char)
    ensures Join(Split(s, sep), sep) == s
    decreases |s|
  {
    if |s| > 0 {
      var p := s[..|s| - 1];
      var c := s[|s| - 1];
      assert s == p + [c];
      var init := Split(p, sep);
      JoinSplit(p, sep);
      SplitSnoc(p, c, sep);
      if c == sep {
        JoinSnoc(init, "", sep);
      } else {
        JoinExtendLast(init, c, sep);
      }
    }
  }

  /** Extending the last piece extends the join. */
  lemma JoinExtendLast(parts: seq<string>, c: char, sep: char)
    requires |parts| >= 1
    ensures Join(parts[..|parts| - 1] + [Last(parts) + [c]], sep) == Join(parts, sep) + [c]
  {
    var front := parts[..|parts| - 1];
    assert parts == front + [Last(parts)];
    if |front| > 0 {
      JoinSnoc(front, Last(parts), sep);
      JoinSnoc(front, Last(parts) + [c], sep);
    }
  }

  /** A string without the separator splits into itself. */
  lemma {:induction false} SplitNoSep(s: string, sep: char)
    requires sep !in s
    ensures Split(s, sep) == [s]
    decreases |s|
  {
    if |s| > 0 {
      var p := s[..|s| - 1];
      var c := s[|s| - 1];
      assert s == p + [c];
      assert sep !in p by {
        forall i | 0 <= i < |p| ensures p[i] != sep { assert p[i] == s[i]; }
      }
      SplitNoSep(p, sep);
      SplitSnoc(p, c, sep);
    }
  }

  /** Splitting distributes over a separator: the key fact behind re-framing lines. */
  lemma {:induction false} SplitConcat(a: string, b: string, sep: char)
    ensures Split(a + [sep] + b, sep) == Split(a, sep) + Split(b, sep)
    decreases |b|
  {
    if |b| == 0 {
      assert a + [sep] + b == a + [sep];
      SplitSnoc(a, sep, sep);
    } else {
      var q := b[..|b| - 1];
      assert b == q + [b[|b| - 1]];
      SplitConcat(a, q, sep);
      SplitConcatStep(a, q, b[|b| - 1], sep);
    }
  }

  /** One step of `SplitConcat`: one more character after the separator. */
  lemma SplitConcatStep(a: string, q: string, c: char, sep: char)
    requires Split(a + [sep] + q, sep) == Split(a, sep) + Split(q, sep)
    ensures Split(a + [sep] + (q + [c]), sep) == Split(a, sep) + Split(q + [c], sep)
  {
    var aq := a + [sep] + q;
    assert a + [sep] + (q + [c]) == aq + [c];
    if c == sep {
      SplitConcatNewPiece(aq, Split(a, sep), q, sep);
    } else {
      SplitConcatLongerPiece(aq, Split(a, sep), q, c, sep);
    }
  }

  /** A separator after `aq`, whose split is `left` followed by the split of `q`. */
  lemma SplitConcatNewPiece(aq: string, left: seq<string>, q: string, sep: char)
    requires Split(aq, sep) == left + Split(q, sep)
    ensures Split(aq + [sep], sep) == left + Split(q + [sep], sep)
  {
    var init := Split(q, sep);
    SplitSnoc(aq, sep, sep);
    SplitSnoc(q, sep, sep);
    assert Split(aq + [sep], sep) == (left + init) + [""];
    assert Split(q + [sep], sep) == init + [""];
    assert (left + init) + [""] == left + (init + [""]);
  }

  /** Another character after `aq`, whose split is `left` followed by the split of `q`. */
  lemma SplitConcatLongerPiece(aq: string, left: seq<string>, q: string, c: char, sep: char)
    requires c != sep && Split(aq, sep) == left + Split(q, sep)
    ensures Split(aq + [c], sep) == left + Split(q + [c], sep)
  {
    SplitSnoc(aq, c, sep);
    SplitSnoc(q, c, sep);
    ExtendLastConcat(left, Split(q, sep), c);
  }

  /** A separator and a separator-free piece appended to a text add that piece to its split. */
  lemma SplitAppendPiece(a: string, b: string, sep: char)
    requires sep !in b
    ensures Split(a + [sep] + b, sep) == Split(a, sep) + [b]
  {
    SplitConcat(a, b, sep);
    SplitNoSep(b, sep);
  }

  /** The last piece is a suffix; what precedes it (less the separator) splits into the other pieces. */
  lemma SplitLast(s: string, sep: char)
    ensures var r := Split(s, sep); var t := Last(r);
      && |t| <= |s| && s[|s| - |t|..] == t
      && (|r| == 1 <==> sep !in s)
      && (|r| > 1 ==> |t| < |s| && s[|s| - |t| - 1] == sep && Split(s[..|s| - |t| - 1], sep) == r[..|r| - 1])
  {
    SplitTail(s, sep);
    SplitSingle(s, sep);
    SplitFront(s, sep);
  }

  lemma {:induction false} SplitTail(s: string, sep: char)
    ensures var t := Last(Split(s, sep)); |t| <= |s| && s[|s| - |t|..] == t
    decreases |s|
  {
    if |s| > 0 {
      var p := s[..|s| - 1];
      var c := s[|s| - 1];
      assert s == p + [c];
      SplitTail(p, sep);
      SplitSnoc(p, c, sep);
      if c != sep {
        var t := Last(Split(p, sep));
        assert Last(Split(s, sep)) == t + [c];
        assert s[|s| - |t + [c]|..] == p[|p| - |t|..] + [c];
      }
    }
  }

  lemma {:induction false} SplitSingle(s: string, sep: char)
    ensures |Split(s, sep)| == 1 <==> sep !in s
    decreases |s|
  {
    if |s| > 0 {
      var p := s[..|s| - 1];
      var c := s[|s| - 1];
      assert s == p + [c];
      SplitSingle(p, sep);
      SplitSnoc(p, c, sep);
      assert sep in s <==> sep in p || c == sep by {
        if sep in s {
          var i :| 0 <= i < |s| && s[i] == sep;
          if i < |p| { assert p[i] == sep; }
        }
        if sep in p {
          var i :| 0 <= i < |p| && p[i] == sep;
          assert s[i] == sep;
        }
      }
    }
  }

  /** When a split has more than one piece, the last one follows a separator and what precedes
      that separator splits into the other pieces. */
  predicate FrontSplits(s: string, sep: char)
  {
    var r := Split(s, sep); var t := Last(r);
    |r| > 1 ==> |t| < |s| && s[|s| - |t| - 1] == sep && Split(s[..|s| - |t| - 1], sep) == r[..|r| - 1]
  }

  lemma {:induction false} SplitFront(s: string, sep: char)
    ensures FrontSplits(s, sep)
    decreases |s|
  {
    if |s| > 0 {
      if s[|s| - 1] == sep {
        SplitFrontAtSep(s, sep);
      } else {
        SplitFront(s[..|s| - 1], sep);
        SplitFrontExtend(s, sep);
      }
    }
  }

  /** `FrontSplits` for a text ending with the separator. */
  lemma SplitFrontAtSep(s: string, sep: char)
    requires |s| > 0 && s[|s| - 1] == sep
    ensures FrontSplits(s, sep)
  {
    var p := s[..|s| - 1];
    assert s == p + [sep];
    SplitSnoc(p, sep, sep);
    var r := Split(s, sep);
    assert Last(r) == "";
    assert r[..|r| - 1] == Split(p, sep);
  }

  /** `FrontSplits` carried over a last character that is not the separator. */
  lemma SplitFrontExtend(s: string, sep: char)
    requires |s| > 0 && s[|s| - 1] != sep && FrontSplits(s[..|s| - 1], sep)
    ensures FrontSplits(s, sep)
  {
    var p := s[..|s| - 1];
    var c := s[|s| - 1];
    assert s == p + [c];
    SplitSnoc(p, c, sep);
    var r := Split(s, sep);
    var init := Split(p, sep);
    if |r| > 1 {
      var t := Last(init);
      assert Last(r) == t + [c];
      assert r[..|r| - 1] == init[..|init| - 1];
      assert s[..|s| - |t + [c]| - 1] == p[..|p| - |t| - 1];
      assert s[|s| - |t + [c]| - 1] == p[|p| - |t| - 1];
    }
  }

  /** The last piece is no longer than the text. */
  lemma LastPieceFits(s: string, sep: char)
    ensures |Last(Split(s, sep))| <= |s|
  {
    SplitLast(s, sep);
  }

  /** Splitting a join of separator-free pieces gives the pieces back. */
  lemma {:induction false} SplitJoin(parts: seq<string>, sep: char)
    requires |parts| >= 1
    requires forall i :: 0 <= i < |parts| ==> sep !in parts[i]
    ensures Split(Join(parts, sep), sep) == parts
    decreases |parts|
  {
    if |parts| == 1 {
      SplitNoSep(parts[0], sep);
    } else {
      var front := parts[..|parts| - 1];
      assert forall i :: 0 <= i < |front| ==> front[i] == parts[i];
      SplitJoin(front, sep);
      SplitNoSep(Last(parts), sep);
      assert Join(parts, sep) == Join(front, sep) + [sep] + Last(parts);
      SplitConcat(Join(front, sep), Last(parts), sep);
      assert front + [Last(parts)] == parts;
    }
  }

  /** The complete lines of a text: its `\n`-pieces less an empty piece after a final newline. */
  function Lines(s: string): seq<string>
  {
    var r := Split(s, '\n');
    if Last(r) == "" then r[..|r| - 1] else r
  }

  /** Lines of `a + "\n" + b`: the pieces of `a` followed by the lines of `b`. */
  lemma LinesConcat(a: string, b: string)
    ensures Lines(a + ['\n'] + b) == Split(a, '\n') + Lines(b)
  {
    var s := a + ['\n'] + b;
    var l := Split(a, '\n');
    var r := Split(b, '\n');
    SplitConcat(a, b, '\n');
    assert Split(s, '\n') == l + r;
    DropLastConcat(l, r);
  }

  /** The last element and the front of `l + r` for a non-empty `r`. */
  lemma DropLastConcat<T>(l: seq<T>, r: seq<T>)
    requires |r| >= 1
    ensures (l + r)[|l + r| - 1] == r[|r| - 1]
    ensures (l + r)[..|l + r| - 1] == l + r[..|r| - 1]
  {
  }

  // ---------------------------------------------------------------------------
  // Whitespace and slicing

  predicate IsSpace(c: char)
  {
    var k := c as int;
    (9 <= k <= 13) || (28 <= k <= 32) || k == 0x85 || k == 0xA0
  }

  function LeadingSpaces(s: string): (k: nat)
    ensures k <= |s|
    ensures forall i :: 0 <= i < k ==> IsSpace(s[i])
    ensures k < |s| ==> !IsSpace(s[k])
  {
    if |s| == 0 || !IsSpace(s[0]) then 0 else 1 + LeadingSpaces(s[1..])
  }

  function TrailingSpaces(s: string): (k: nat)
    ensures k <= |s|
    ensures forall i :: |s| - k <= i < |s| ==> IsSpace(s[i])
    ensures k < |s| ==> !IsSpace(s[|s| - k - 1])
  {
    if |s| == 0 || !IsSpace(s[|s| - 1]) then 0 else 1 + TrailingSpaces(s[..|s| - 1])
  }

  /** `s.strip()`: `s` less its leading and trailing whitespace. */
  function Strip(s: string): (r: string)
    ensures |r| <= |s|
    ensures r != [] ==> !IsSpace(r[0]) && !IsSpace(r[|r| - 1])
    ensures (forall i :: 0 <= i < |s| ==> !IsSpace(s[i])) ==> r == s
    ensures exists a, b :: && 0 <= a <= b <= |s| && r == s[a..b]
                           && forall i :: 0 <= i < a || b <= i < |s| ==> IsSpace(s[i])
  {
    StripWindow(s);
    var t := s[LeadingSpaces(s)..];
    t[..|t| - TrailingSpaces(t)]
  }

  /** What `Strip` keeps is the window between the leading and the trailing whitespace. */
  lemma StripWindow(s: string)
    ensures var a := LeadingSpaces(s);
      var t := s[a..];
      var b := |s| - TrailingSpaces(t);
      && a <= b <= |s| && t[..|t| - TrailingSpaces(t)] == s[a..b]
      && forall i :: 0 <= i < a || b <= i < |s| ==> IsSpace(s[i])
  {
    var a := LeadingSpaces(s);
    var t := s[a..];
    var k := TrailingSpaces(t);
    var b := |s| - k;
    assert t[..|t| - k] == s[a..b];
    forall i | b <= i < |s|
      ensures IsSpace(s[i])
    {
      assert s[i] == t[i - a];
    }
  }

  /** Python's `s[lo:hi]` for `0 <= lo <= hi`: bounds past the end are clamped. */
  function Slice(s: string, lo: nat, hi: nat): (r: string)
    requires lo <= hi
    ensures |r| == Max(0, Min(hi, |s|) - lo)
    ensures forall i :: 0 <= i < |r| ==> r[i] == s[lo + i]
  {
    if lo >= |s| then "" else s[lo..Min(hi, |s|)]
  }

  /** `s[:n]`: the longest prefix of `s` that has at most `n` characters. */
  function Prefix(s: string, n: nat): (r: string)
    ensures r <= s && |r| == Min(|s|, n)
  {
    s[..Min(|s|, n)]
  }

  // ---------------------------------------------------------------------------
  // Decimal numerals

  predicate IsDigit(c: char) { '0' <= c <= '9' }

  predicate AllDigits(s: string) { forall i :: 0 <= i < |s| ==> IsDigit(s[i]) }

  function DigitValue(c: char): nat requires IsDigit(c) { (c as int - '0' as int) as nat }

  function DigitChar(d: nat): (c: char)
    requires d < 10
    ensures IsDigit(c) && DigitValue(c) == d
  {
    ('0' as int + d) as char
  }

  /** The value of a string of decimal digits (0 for the empty string). */
  function DigitsValue(s: string): nat
    requires AllDigits(s)
  {
    if |s| == 0 then 0 else 10 * DigitsValue(s[..|s| - 1]) + DigitValue(s[|s| - 1])
  }

  /** `str(n)` for a natural number. */
  function NatToString(n: nat): string
  {
    if n < 10 then [DigitChar(n)] else NatToString(n / 10) + [DigitChar(n % 10)]
  }

  /** `str(i)`: a minus sign for negative numbers, then the digits. */
  function IntToString(i: int): string
  {
    if i < 0 then "-" + NatToString(-i) else NatToString(i)
  }

  /** The decimal text of a number reads back as that number. */
  lemma {:induction false} NatToStringDigits(n: nat)
    ensures |NatToString(n)| >= 1 && AllDigits(NatToString(n))
    ensures DigitsValue(NatToString(n)) == n
  {
    if n >= 10 {
      NatToStringDigits(n / 10);
      var s := NatToString(n);
      assert s[..|s| - 1] == NatToString(n / 10);
    }
  }

  /** A numeral body as Python's `int` accepts it: digits, with single underscores between digits. */
  predicate IsNumeral(b: string)
  {
    && |b| >= 1 && IsDigit(b[0]) && IsDigit(b[|b| - 1])
    && (forall i :: 0 <= i < |b| ==> IsDigit(b[i]) || b[i] == '_')
    && (forall i :: 0 <= i < |b| - 1 ==> !(b[i] == '_' && b[i + 1] == '_'))
  }

  function DropUnderscores(b: string): (r: string)
    requires forall i :: 0 <= i < |b| ==> IsDigit(b[i]) || b[i] == '_'
    ensures AllDigits(r)
    ensures AllDigits(b) ==> r == b
  {
    if |b| == 0 then ""
    else (if b[0] == '_' then "" else [b[0]]) + DropUnderscores(b[1..])
  }

  /** Python's `int(s)` on a string: surrounding whitespace, an optional sign, then a numeral;
      `None` where Python raises `ValueError`. */
  function ParseInt(s: string): Option<int>
  {
    ParseSigned(Strip(s))
  }

  /** `int` on text without surrounding whitespace. */
  function ParseSigned(t: string): Option<int>
  {
    if |t| > 0 && t[0] == '-' then
      match ParseNumeral(t[1..]) case Some(n) => Some(-(n as int)) case None => None
    else if |t| > 0 && t[0] == '+' then
      match ParseNumeral(t[1..]) case Some(n) => Some(n as int) case None => None
    else
      match ParseNumeral(t) case Some(n) => Some(n as int) case None => None
  }

  /** The value of an unsigned numeral. */
  function ParseNumeral(b: string): Option<nat>
  {
    if IsNumeral(b) then Some(DigitsValue(DropUnderscores(b))) else None
  }

  /** `int(str(i)) == i`. */
  lemma ParseIntRoundTrip(i: int)
    ensures ParseInt(IntToString(i)) == Some(i)
  {
    NoSpaceInNumber(i);
    var s := IntToString(i);
    assert Strip(s) == s;
    if i < 0 {
      assert s == "-" + NatToString(-i);
      ParseNegative(-i);
    } else {
      assert s == NatToString(i);
      ParsePositive(i);
    }
  }

  /** `int("-" + str(m)) == -m`. */
  lemma ParseNegative(m: nat)
    ensures ParseSigned("-" + NatToString(m)) == Some(-(m as int))
  {
    ParseNumeralNat(m);
    assert ("-" + NatToString(m))[1..] == NatToString(m);
  }

  /** `int(str(m)) == m`: the text starts with a digit, so with no sign. */
  lemma ParsePositive(m: nat)
    ensures ParseSigned(NatToString(m)) == Some(m as int)
  {
    ParseNumeralNat(m);
    NatToStringDigits(m);
    assert IsDigit(NatToString(m)[0]);
  }

  lemma ParseNumeralNat(m: nat)
    ensures ParseNumeral(NatToString(m)) == Some(m)
  {
    NatToStringDigits(m);
    assert DropUnderscores(NatToString(m)) == NatToString(m);
    assert IsNumeral(NatToString(m));
  }

  lemma NoSpaceInNumber(i: int)
    ensures forall k :: 0 <= k < |IntToString(i)| ==> !IsSpace(IntToString(i)[k])
  {
    var m: nat := if i < 0 then -i else i;
    NatToStringDigits(m);
    var d := NatToString(m);
    var s := IntToString(i);
    forall k | 0 <= k < |s| ensures !IsSpace(s[k]) {
      if i < 0 && k > 0 { assert s[k] == d[k - 1]; }
    }
  }

  /** `int` rejects text that holds no digit at all, the empty text among it. */
  lemma ParseIntRejectsNonNumerals(s: string)
    requires forall i :: 0 <= i < |s| ==> !IsDigit(s[i])
    ensures ParseInt(s) == None
  {
    var t := Strip(s);
    assert forall i :: 0 <= i < |t| ==> t[i] == s[LeadingSpaces(s) + i];
  }
}
