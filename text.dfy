/** The Python string operations both scripts rely on, written out on `seq<char>`:
    str.strip, str.split('\n'), the `in` operator on strings, str(int), and the
    hand-written recognisers that stand in for the regex classes `\s`, `\d` and
    the pattern `\d+x\d+`. */
module Text {
  import opened Outcomes

  /** A character that `str.isspace()` and the regex class `\s` accept
      (the ASCII part of Python's whitespace set). */
  predicate IsSpace(c: char)
  {
    c == ' ' || c == '\t' || c == '\n' || c == '\r' || c == '\U{0B}' || c == '\U{0C}'
    || ('\U{1C}' <= c <= '\U{1F}')
  }

  predicate IsDigit(c: char)
  {
    '0' <= c <= '9'
  }

  predicate AllDigits(s: string)
  {
    forall i | 0 <= i < |s| :: IsDigit(s[i])
  }

  predicate AllSpace(s: string)
  {
    forall i | 0 <= i < |s| :: IsSpace(s[i])
  }

  predicate NoSpace(s: string)
  {
    forall i | 0 <= i < |s| :: !IsSpace(s[i])
  }

  // ---------------------------------------------------------------- strip

  /** `s.lstrip()`: only leading whitespace is removed, and all of it. */
  function LStrip(s: string): (r: string)
    ensures |r| <= |s|
  {
    if |s| > 0 && IsSpace(s[0]) then LStrip(s[1..]) else s
  }

  /** What lstrip keeps is a suffix that starts with a visible character,
      and what it drops is all whitespace. */
  lemma {:induction false} LStripSound(s: string)
    ensures var r := LStrip(s);
      && r == s[|s| - |r|..]
      && (forall i | 0 <= i < |s| - |r| :: IsSpace(s[i]))
      && (r == [] || !IsSpace(r[0]))
  {
    if |s| > 0 && IsSpace(s[0]) {
      LStripSound(s[1..]);
    }
  }

  /** `s.rstrip()`: only trailing whitespace is removed, and all of it. */
  function RStrip(s: string): (r: string)
    ensures |r| <= |s|
  {
    if |s| > 0 && IsSpace(s[|s| - 1]) then RStrip(s[..|s| - 1]) else s
  }

  /** What rstrip keeps is a prefix that ends in a visible character, and
      what it drops is all whitespace. */
  lemma {:induction false} RStripSound(s: string)
    ensures var r := RStrip(s);
      && r == s[..|r|]
      && (forall i | |r| <= i < |s| :: IsSpace(s[i]))
      && (r == [] || !IsSpace(r[|r| - 1]))
  {
    if |s| > 0 && IsSpace(s[|s| - 1]) {
      RStripSound(s[..|s| - 1]);
    }
  }

  /** Whitespace appended to a string is removed again by `rstrip()`. */
  lemma {:induction false} RStripTrailing(s: string, ws: string)
    requires AllSpace(ws)
    ensures RStrip(s + ws) == RStrip(s)
    decreases |ws|
  {
    if ws != [] {
      var t := s + ws;
      assert IsSpace(t[|t| - 1]);
      assert t[..|t| - 1] == s + ws[..|ws| - 1];
      RStripTrailing(s, ws[..|ws| - 1]);
    } else {
      assert s + ws == s;
    }
  }

  /** A non-empty string that `rstrip()` leaves as it is. */
  predicate Trimmed(s: string)
  {
    s != [] && !IsSpace(s[|s| - 1])
  }

  /** `s.rstrip().lstrip()`, i.e. `s.strip()`. */
  function Strip(s: string): (r: string)
  {
    LStrip(RStrip(s))
  }

  /** Stripping cuts whitespace, and only whitespace, off both ends: the
      result sits in the middle of `s` between two all-whitespace pieces. */
  lemma StripSound(s: string)
    ensures var r := Strip(s);
      exists k | 0 <= k <= |s| - |r| :: s[k..k + |r|] == r && AllSpace(s[..k]) && AllSpace(s[k + |r|..])
  {
    var t := RStrip(s);
    var r := LStrip(t);
    RStripSound(s);
    LStripSound(t);
    var k := |t| - |r|;
    assert s[k..k + |r|] == r;
    assert s[..k] == t[..k];
    assert s[k + |r|..] == s[|t|..];
  }

  // ---------------------------------------------------------------- lines

  /** `"\n".join(ls)` */
  function JoinLines(ls: seq<string>): string
    requires |ls| >= 1
  {
    if |ls| == 1 then ls[0] else ls[0] + "\n" + JoinLines(ls[1..])
  }

  /** `s.split('\n')`: never empty, and no piece holds a newline. */
  function SplitLines(s: string): (ls: seq<string>)
    ensures |ls| >= 1
    ensures forall k | 0 <= k < |ls| :: '\n' !in ls[k]
  {
    if |s| == 0 then [""]
    else
      var rest := SplitLines(s[1..]);
      if s[0] == '\n' then [""] + rest
      else [[s[0]] + rest[0]] + rest[1..]
  }

  lemma JoinCons(c: char, ls: seq<string>)
    requires |ls| >= 1
    ensures JoinLines([[c] + ls[0]] + ls[1..]) == [c] + JoinLines(ls)
  {
    var ls' := [[c] + ls[0]] + ls[1..];
    assert ls'[1..] == ls[1..];
  }

  /** Joining the pieces of a split gives the text back. */
  lemma {:induction false} JoinSplit(s: string)
    ensures JoinLines(SplitLines(s)) == s
  {
    if |s| > 0 {
      JoinSplit(s[1..]);
      var rest := SplitLines(s[1..]);
      if s[0] == '\n' {
        assert ([""] + rest)[1..] == rest;
      } else {
        JoinCons(s[0], rest);
      }
    }
  }

  lemma {:induction false} SplitPrefix(a: string, s: string)
    requires '\n' !in a
    ensures SplitLines(a + s) == [a + SplitLines(s)[0]] + SplitLines(s)[1..]
  {
    if |a| > 0 {
      SplitPrefix(a[1..], s);
      assert (a + s)[1..] == a[1..] + s;
      assert [a[0]] + (a[1..] + SplitLines(s)[0]) == a + SplitLines(s)[0];
    } else {
      assert a + s == s && a + SplitLines(s)[0] == SplitLines(s)[0];
      assert SplitLines(s) == [SplitLines(s)[0]] + SplitLines(s)[1..];
    }
  }

  /** Splitting newline-free pieces joined by newlines gives the pieces back. */
  lemma {:induction false} SplitJoin(ls: seq<string>)
    requires |ls| >= 1
    requires forall k | 0 <= k < |ls| :: '\n' !in ls[k]
    ensures SplitLines(JoinLines(ls)) == ls
  {
    if |ls| == 1 {
      SplitPrefix(ls[0], "");
      assert ls[0] + "" == ls[0];
    } else {
      var j := JoinLines(ls[1..]);
      SplitJoin(ls[1..]);
      assert ("\n" + j)[1..] == j;
      assert SplitLines("\n" + j) == [""] + ls[1..];
      assert ls[0] + "\n" + j == ls[0] + ("\n" + j);
      SplitPrefix(ls[0], "\n" + j);
      assert ls[0] + "" == ls[0];
    }
  }

  // ---------------------------------------------------------------- substrings

  /** `needle` occurs in `hay` starting at offset `i`. */
  predicate OccursAt(needle: string, hay: string, i: int)
  {
    0 <= i <= |hay| - |needle| && hay[i..i + |needle|] == needle
  }

  /** Python's `needle in hay` on strings. */
  predicate IsSubstring(needle: string, hay: string)
    decreases |hay|
  {
    needle <= hay || (|hay| > 0 && IsSubstring(needle, hay[1..]))
  }

  /** `needle in hay` holds exactly when `needle` occurs at some offset of `hay`. */
  lemma {:induction false} SubstringAt(needle: string, hay: string)
    ensures IsSubstring(needle, hay) <==> exists i :: OccursAt(needle, hay, i)
    decreases |hay|
  {
    if needle <= hay {
      assert OccursAt(needle, hay, 0);
    } else if |hay| > 0 {
      SubstringAt(needle, hay[1..]);
      if IsSubstring(needle, hay[1..]) {
        var i :| OccursAt(needle, hay[1..], i);
        assert hay[i + 1..i + 1 + |needle|] == hay[1..][i..i + |needle|];
        assert OccursAt(needle, hay, i + 1);
      }
      if exists i :: OccursAt(needle, hay, i) {
        var i :| OccursAt(needle, hay, i);
        assert i != 0;
        assert hay[1..][i - 1..i - 1 + |needle|] == hay[i..i + |needle|];
        assert OccursAt(needle, hay[1..], i - 1);
      }
    } else {
      assert |needle| > 0;
    }
  }

  /** Whatever surrounds it, a string contains itself. */
  lemma {:induction false} SubstringOfConcat(a: string, needle: string, b: string)
    ensures IsSubstring(needle, a + needle + b)
  {
    var hay := a + needle + b;
    assert hay[|a|..|a| + |needle|] == needle;
    assert OccursAt(needle, hay, |a|);
    SubstringAt(needle, hay);
  }

  // ---------------------------------------------------------------- tokens

  /** Length of the longest whitespace-free prefix of `s` (the regex `[^\s]*`). */
  function TokenLength(s: string): (n: nat)
    ensures n <= |s|
  {
    if |s| > 0 && !IsSpace(s[0]) then 1 + TokenLength(s[1..]) else 0
  }

  /** The token is whitespace-free and stops at whitespace or at the end. */
  lemma {:induction false} TokenLengthSound(s: string)
    ensures var n := TokenLength(s);
      && (forall i | 0 <= i < n :: !IsSpace(s[i]))
      && (n == |s| || IsSpace(s[n]))
  {
    if |s| > 0 && !IsSpace(s[0]) {
      TokenLengthSound(s[1..]);
    }
  }

  /** A whitespace-free word followed by a space is exactly one token long. */
  lemma {:induction false} TokenLengthOfWord(w: string, rest: string)
    requires NoSpace(w) && |rest| > 0 && rest[0] == ' '
    ensures TokenLength(w + rest) == |w|
  {
    if w != [] {
      assert (w + rest)[1..] == w[1..] + rest;
      TokenLengthOfWord(w[1..], rest);
    } else {
      assert w + rest == rest;
    }
  }

  /** Length of the longest digit prefix of `s` (the regex `\d*`). */
  function DigitRun(s: string): (n: nat)
    ensures n <= |s|
  {
    if |s| > 0 && IsDigit(s[0]) then 1 + DigitRun(s[1..]) else 0
  }

  /** The run is all digits and stops at a non-digit or at the end. */
  lemma {:induction false} DigitRunSound(s: string)
    ensures var n := DigitRun(s);
      && (forall i | 0 <= i < n :: IsDigit(s[i]))
      && (n == |s| || !IsDigit(s[n]))
  {
    if |s| > 0 && IsDigit(s[0]) {
      DigitRunSound(s[1..]);
    }
  }

  /** `r` has the shape WIDTHxHEIGHT: digits, an `x`, digits. */
  ghost predicate IsResolution(r: string)
  {
    exists k | 0 < k < |r| - 1 :: r[k] == 'x' && AllDigits(r[..k]) && AllDigits(r[k + 1..])
  }

  /** The group `(\d+x\d+)` matched at the start of `s` by a greedy regex
      engine, or None when the pattern does not match there. */
  function ResolutionPrefix(s: string): Option<string>
  {
    var w := DigitRun(s);
    if 0 < w < |s| && s[w] == 'x' then
      var h := DigitRun(s[w + 1..]);
      if h > 0 then Some(s[..w + 1 + h]) else None
    else None
  }

  /** What the recogniser returns is a WIDTHxHEIGHT prefix of its input that
      is not followed by a further digit. */
  lemma ResolutionPrefixSound(s: string)
    requires ResolutionPrefix(s).Some?
    ensures var r := ResolutionPrefix(s).value;
      IsResolution(r) && r <= s && (|r| == |s| || !IsDigit(s[|r|]))
  {
    var w := DigitRun(s);
    var h := DigitRun(s[w + 1..]);
    DigitRunSound(s);
    DigitRunSound(s[w + 1..]);
    var r := s[..w + 1 + h];
    var width, height, rest := r[..w], r[w + 1..], s[w + 1..];
    forall i | 0 <= i < w
      ensures IsDigit(width[i])
    {
      assert width[i] == s[i];
    }
    forall i | 0 <= i < h
      ensures IsDigit(height[i])
    {
      assert height[i] == rest[i];
    }
    assert r[w] == 'x';
    assert 0 < w < |r| - 1;
    assert |r| == |s| || s[|r|] == s[w + 1..][h];
  }

  /** Digits, `x`, digits, followed by anything that does not start with a
      digit, is recognised, and the group is exactly the WIDTHxHEIGHT part. */
  lemma ResolutionPrefixComplete(width: string, height: string, tail: string)
    requires |width| > 0 && AllDigits(width)
    requires |height| > 0 && AllDigits(height)
    requires tail == [] || !IsDigit(tail[0])
    ensures ResolutionPrefix(width + "x" + height + tail) == Some(width + "x" + height)
  {
    var s := width + "x" + height + tail;
    var w := DigitRun(s);
    DigitRunSound(s);
    assert s[|width|] == 'x';
    assert forall j | 0 <= j < |width| :: s[j] == width[j];
    assert w == |width|;
    var rest := s[w + 1..];
    assert rest == height + tail;
    var h := DigitRun(rest);
    DigitRunSound(rest);
    assert forall j | 0 <= j < |height| :: rest[j] == height[j];
    assert |height| < |rest| ==> rest[|height|] == tail[0];
    assert h == |height|;
    assert s[..w + 1 + h] == width + "x" + height;
  }

  /** A WIDTHxHEIGHT string holds no whitespace. */
  lemma ResolutionHasNoSpace(r: string)
    requires IsResolution(r)
    ensures NoSpace(r)
  {
    var k :| 0 < k < |r| - 1 && r[k] == 'x' && AllDigits(r[..k]) && AllDigits(r[k + 1..]);
    forall i | 0 <= i < |r|
      ensures !IsSpace(r[i])
    {
      if i < k {
        assert r[..k][i] == r[i];
      } else if i > k {
        assert r[k + 1..][i - k - 1] == r[i];
      }
    }
  }

  /** Two whitespace-free words followed by a space cannot differ when the
      whole strings agree: the first space ends both words. */
  lemma SpaceEndsWord(a: string, x: string, b: string, y: string)
    requires NoSpace(a) && NoSpace(b)
    requires a + " " + x == b + " " + y
    ensures a == b
  {
    var s := a + " " + x;
    assert s == b + " " + y;
    assert forall i | 0 <= i < |a| :: s[i] == a[i];
    assert forall i | 0 <= i < |b| :: s[i] == b[i];
    assert s[|a|] == ' ' && s[|b|] == ' ';
    assert |a| == |b|;
    assert a == s[..|a|];
    assert b == s[..|b|];
  }

  // ---------------------------------------------------------------- numbers

  function DigitChar(d: nat): (c: char)
    requires d < 10
    ensures IsDigit(c) && c as int - '0' as int == d
  {
    ('0' as int + d) as char
  }

  /** `str(n)` for a non-negative int: decimal digits, without leading zero. */
  function NatToString(n: nat): (s: string)
    ensures |s| >= 1 && AllDigits(s)
    ensures s[0] == '0' <==> n == 0
    ensures n == 0 ==> s == "0"
  {
    if n < 10 then [DigitChar(n)] else NatToString(n / 10) + [DigitChar(n % 10)]
  }

  /** The number a string of decimal digits denotes. */
  function DecimalValue(s: string): nat
    requires AllDigits(s)
  {
    if s == [] then 0
    else 10 * DecimalValue(s[..|s| - 1]) + (s[|s| - 1] as int - '0' as int)
  }

  /** `int(str(n)) == n`. */
  lemma {:induction false} DecimalRoundTrip(n: nat)
    ensures DecimalValue(NatToString(n)) == n
  {
    if n >= 10 {
      DecimalRoundTrip(n / 10);
      var s := NatToString(n);
      assert s[..|s| - 1] == NatToString(n / 10);
    }
  }
}
