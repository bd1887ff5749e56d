/**
 * String utilities that the chat code takes from its runtimes:
 * JavaScript `String.prototype.trim` and `split("\n")`, Python `str.strip`
 * and `"".join`.
 */
module Text {
  import opened Sequences

  /** JavaScript WhiteSpace and LineTerminator code points, the set `trim` removes. */
  predicate IsJsSpace(c: char) {
    var n := c as int;
    n == 0x09 || n == 0x0A || n == 0x0B || n == 0x0C || n == 0x0D || n == 0x20
    || n == 0xA0 || n == 0x1680 || (0x2000 <= n <= 0x200A) || n == 0x2028 || n == 0x2029
    || n == 0x202F || n == 0x205F || n == 0x3000 || n == 0xFEFF
  }

  /** Code points for which Python's `str.isspace` holds, the set `str.strip()` removes. */
  predicate IsPySpace(c: char) {
    var n := c as int;
    (0x09 <= n <= 0x0D) || (0x1C <= n <= 0x1F) || n == 0x20 || n == 0x85
    || n == 0xA0 || n == 0x1680 || (0x2000 <= n <= 0x200A) || n == 0x2028 || n == 0x2029
    || n == 0x202F || n == 0x205F || n == 0x3000
  }

  /** Every character of `s` is white space. */
  predicate AllSpace(s: string, isSpace: char -> bool) {
    forall i :: 0 <= i < |s| ==> isSpace(s[i])
  }

  /** `s` without its leading white space. */
  function TrimStart(s: string, isSpace: char -> bool): string {
    if s != [] && isSpace(s[0]) then TrimStart(s[1..], isSpace) else s
  }

  /** TrimStart drops a white-space prefix and stops at the first other character. */
  lemma {:induction false} TrimStartShape(s: string, isSpace: char -> bool)
    ensures var r := TrimStart(s, isSpace);
      && |r| <= |s| && r == s[|s| - |r|..]
      && AllSpace(s[..|s| - |r|], isSpace)
      && (r != [] ==> !isSpace(r[0]))
  {
    if s != [] && isSpace(s[0]) {
      TrimStartShape(s[1..], isSpace);
      var r := TrimStart(s, isSpace);
      assert s[..|s| - |r|] == [s[0]] + s[1..][..|s| - 1 - |r|];
    }
  }

  /** `s` without its trailing white space. */
  function TrimEnd(s: string, isSpace: char -> bool): string {
    if s != [] && isSpace(s[|s| - 1]) then TrimEnd(s[..|s| - 1], isSpace) else s
  }

  /** TrimEnd drops a white-space suffix and stops at the last other character. */
  lemma {:induction false} TrimEndShape(s: string, isSpace: char -> bool)
    ensures var r := TrimEnd(s, isSpace);
      && |r| <= |s| && r == s[..|r|]
      && AllSpace(s[|r|..], isSpace)
      && (r != [] ==> !isSpace(r[|r| - 1]))
  {
    if s != [] && isSpace(s[|s| - 1]) {
      TrimEndShape(s[..|s| - 1], isSpace);
      var r := TrimEnd(s, isSpace);
      assert s[|r|..] == s[..|s| - 1][|r|..] + [s[|s| - 1]];
    }
  }

  /** `s` without leading and trailing white space. */
  function Strip(s: string, isSpace: char -> bool): string {
    TrimEnd(TrimStart(s, isSpace), isSpace)
  }

  /** JavaScript `s.trim()`. */
  function JsTrim(s: string): string {
    Strip(s, IsJsSpace)
  }

  /** Python `s.strip()`. */
  function PyStrip(s: string): string {
    Strip(s, IsPySpace)
  }

  /** The stripped string is a slice of `s` cut only at white space, and it
      neither starts nor ends with white space. */
  lemma StripSlice(s: string, isSpace: char -> bool)
    ensures var r := Strip(s, isSpace);
      exists i, j :: 0 <= i <= j <= |s| && r == s[i..j]
        && AllSpace(s[..i], isSpace) && AllSpace(s[j..], isSpace)
    ensures var r := Strip(s, isSpace);
      r != [] ==> !isSpace(r[0]) && !isSpace(r[|r| - 1])
  {
    var t := TrimStart(s, isSpace);
    var r := TrimEnd(t, isSpace);
    TrimStartShape(s, isSpace);
    TrimEndShape(t, isSpace);
    var i := |s| - |t|;
    var j := i + |r|;
    assert r == s[i..j];
    assert AllSpace(s[j..], isSpace) by {
      assert s[j..] == t[|r|..];
    }
  }

  /** A string strips to nothing exactly when it is all white space. */
  lemma StripEmptyIff(s: string, isSpace: char -> bool)
    ensures Strip(s, isSpace) == [] <==> AllSpace(s, isSpace)
  {
    var t := TrimStart(s, isSpace);
    TrimStartShape(s, isSpace);
    TrimEndShape(t, isSpace);
    if AllSpace(s, isSpace) {
      TrimStartOfBlank(s, isSpace);
    }
    if Strip(s, isSpace) == [] {
      assert t[0..] == t;
      assert t == [];
      assert s[..|s|] == s;
    }
  }

  lemma {:induction false} TrimStartOfBlank(s: string, isSpace: char -> bool)
    requires AllSpace(s, isSpace)
    ensures TrimStart(s, isSpace) == []
  {
    if s != [] {
      TrimStartOfBlank(s[1..], isSpace);
    }
  }

  /** Stripping twice strips nothing more. */
  lemma StripIdempotent(s: string, isSpace: char -> bool)
    ensures Strip(Strip(s, isSpace), isSpace) == Strip(s, isSpace)
  {
    StripSlice(s, isSpace);
    var r := Strip(s, isSpace);
    TrimStartShape(r, isSpace);
    TrimEndShape(r, isSpace);
    if r != [] {
      assert TrimStart(r, isSpace) == r;
      assert TrimEnd(r, isSpace) == r;
    }
  }

  /** A non-empty stripped string is not blank. */
  lemma StrippedNotBlank(s: string, isSpace: char -> bool)
    requires Strip(s, isSpace) != []
    ensures !AllSpace(Strip(s, isSpace), isSpace)
  {
    StripSlice(s, isSpace);
  }

  /** JavaScript `s.split("\n")`: the maximal newline-free pieces between
      newlines, always at least one (the piece after the last newline). */
  function SplitLines(s: string): (parts: seq<string>)
    ensures |parts| >= 1
  {
    if s == [] then [""]
    else
      var rest := SplitLines(s[1..]);
      if s[0] == '\n' then [""] + rest
      else [[s[0]] + rest[0]] + rest[1..]
  }

  /** No piece of a split holds a newline. */
  lemma {:induction false} SplitPiecesHaveNoNewline(s: string)
    ensures forall k :: 0 <= k < |SplitLines(s)| ==> '\n' !in SplitLines(s)[k]
  {
    if s != [] {
      SplitPiecesHaveNoNewline(s[1..]);
      SplitCons(s[0], s[1..]);
      assert [s[0]] + s[1..] == s;
    }
  }

  /** Every piece of a blank string is blank. */
  lemma {:induction false} SplitPiecesOfBlank(s: string, isSpace: char -> bool)
    requires AllSpace(s, isSpace)
    ensures forall k :: 0 <= k < |SplitLines(s)| ==> AllSpace(SplitLines(s)[k], isSpace)
  {
    if s != [] {
      var rest := SplitLines(s[1..]);
      assert AllSpace(s[1..], isSpace) by {
        forall i | 0 <= i < |s[1..]|
          ensures isSpace(s[1..][i])
        {
          assert s[1..][i] == s[i + 1];
        }
      }
      SplitPiecesOfBlank(s[1..], isSpace);
      SplitCons(s[0], s[1..]);
      assert [s[0]] + s[1..] == s;
      if s[0] != '\n' {
        var first := [s[0]] + rest[0];
        assert AllSpace(first, isSpace) by {
          forall i | 0 <= i < |first|
            ensures isSpace(first[i])
          {
            if i > 0 {
              assert first[i] == rest[0][i - 1];
            }
          }
        }
      }
    }
  }

  /** Each part followed by a newline, all concatenated. */
  function Terminated(parts: seq<string>): string {
    if parts == [] then "" else parts[0] + "\n" + Terminated(parts[1..])
  }

  /** Python `"".join(parts)`, the concatenation of the parts in order. */
  function Concat(parts: seq<string>): string {
    if parts == [] then "" else Concat(Init(parts)) + Last(parts)
  }

  /** Rejoining the pieces of a split restores the string: every piece but
      the last was followed by a newline. */
  lemma {:induction false} SplitRejoins(s: string)
    ensures Terminated(Init(SplitLines(s))) + Last(SplitLines(s)) == s
  {
    if s != [] {
      SplitRejoins(s[1..]);
      SplitCons(s[0], s[1..]);
      RejoinStep(s[0], SplitLines(s[1..]));
      assert [s[0]] + s[1..] == s;
    }
  }

  /** The inductive step of SplitRejoins, on the pieces alone. */
  lemma RejoinStep(c: char, rest: seq<string>)
    requires rest != []
    ensures var parts := if c == '\n' then [""] + rest else [[c] + rest[0]] + rest[1..];
      Terminated(Init(parts)) + Last(parts) == [c] + (Terminated(Init(rest)) + Last(rest))
  {
    if c == '\n' {
      var parts := [""] + rest;
      assert Init(parts) == [""] + Init(rest);
      assert Init(parts)[1..] == Init(rest);
    } else if |rest| > 1 {
      var parts := [[c] + rest[0]] + rest[1..];
      assert Init(parts) == [[c] + rest[0]] + Init(rest)[1..];
      assert Init(parts)[1..] == Init(rest)[1..];
      assert Init(rest)[0] == rest[0];
    }
  }

  /** A string without a newline is its own single piece. */
  lemma {:induction false} SplitNoNewline(s: string)
    requires '\n' !in s
    ensures SplitLines(s) == [s]
  {
    if s != [] {
      assert '\n' !in s[1..];
      SplitNoNewline(s[1..]);
      assert [s[0]] + s[1..] == s;
    }
  }

  /** How splitting sees one more leading character. */
  lemma SplitCons(c: char, s: string)
    ensures SplitLines([c] + s)
         == if c == '\n' then [""] + SplitLines(s)
            else [[c] + SplitLines(s)[0]] + SplitLines(s)[1..]
  {
    assert ([c] + s)[1..] == s;
  }

  /** Splitting a concatenation: the complete pieces of `x`, then the pieces
      of the unterminated tail of `x` continued by `y`. */
  lemma {:induction false} SplitAppend(x: string, y: string)
    ensures SplitLines(x + y)
         == Init(SplitLines(x)) + SplitLines(Last(SplitLines(x)) + y)
  {
    if x == [] {
      assert x + y == y;
    } else {
      SplitAppend(x[1..], y);
      SplitAppendStep(x[0], x[1..], y);
      assert [x[0]] + x[1..] == x;
    }
  }

  /** Splitting `w + a` and then the leftover tail followed by `b` yields
      the complete pieces and the leftover of splitting `w + (a + b)`. */
  lemma SplitCarry(w: string, a: string, b: string)
    ensures var tail := Last(SplitLines(w + a));
      && Init(SplitLines(w + (a + b))) == Init(SplitLines(w + a)) + Init(SplitLines(tail + b))
      && Last(SplitLines(w + (a + b))) == Last(SplitLines(tail + b))
  {
    var x := w + a;
    var p := SplitLines(x);
    var q := SplitLines(Last(p) + b);
    assert SplitLines(w + (a + b)) == Init(p) + q by {
      SplitAppend(x, b);
      assert x + b == w + (a + b);
    }
    InitLastAppend(Init(p), q);
  }

  /** The inductive step of SplitAppend: one more leading character. */
  lemma SplitAppendStep(c: char, x: string, y: string)
    requires SplitLines(x + y) == Init(SplitLines(x)) + SplitLines(Last(SplitLines(x)) + y)
    ensures SplitLines([c] + x + y)
         == Init(SplitLines([c] + x)) + SplitLines(Last(SplitLines([c] + x)) + y)
  {
    assert [c] + x + y == [c] + (x + y);
    SplitCons(c, x);
    SplitCons(c, x + y);
    if c == '\n' {
      SplitAppendNewline(x, y);
    } else if |SplitLines(x)| == 1 {
      SplitAppendShort(c, x, y);
    } else {
      SplitAppendLong(c, x, y);
    }
  }

  lemma SplitAppendNewline(x: string, y: string)
    requires SplitLines(x + y) == Init(SplitLines(x)) + SplitLines(Last(SplitLines(x)) + y)
    ensures [""] + SplitLines(x + y)
         == Init([""] + SplitLines(x)) + SplitLines(Last([""] + SplitLines(x)) + y)
  {
    ConsPiece("", SplitLines(x), SplitLines(Last(SplitLines(x)) + y));
  }

  /** Putting a piece in front commutes with appending after the last but one. */
  lemma ConsPiece(e: string, p: seq<string>, q: seq<string>)
    requires p != []
    ensures [e] + (Init(p) + q) == Init([e] + p) + q
    ensures Last([e] + p) == Last(p)
  {
    assert Init([e] + p) == [e] + Init(p);
  }

  lemma SplitAppendShort(c: char, x: string, y: string)
    requires c != '\n' && |SplitLines(x)| == 1
    requires SplitLines(x + y) == Init(SplitLines(x)) + SplitLines(Last(SplitLines(x)) + y)
    ensures [[c] + SplitLines(x + y)[0]] + SplitLines(x + y)[1..]
         == SplitLines([c] + SplitLines(x)[0] + y)
  {
    var p := SplitLines(x);
    assert Init(p) == [] && Last(p) == p[0];
    var q := SplitLines(p[0] + y);
    assert SplitLines(x + y) == q;
    assert [c] + p[0] + y == [c] + (p[0] + y);
    SplitCons(c, p[0] + y);
  }

  lemma SplitAppendLong(c: char, x: string, y: string)
    requires c != '\n' && |SplitLines(x)| > 1
    requires SplitLines(x + y) == Init(SplitLines(x)) + SplitLines(Last(SplitLines(x)) + y)
    ensures [[c] + SplitLines(x + y)[0]] + SplitLines(x + y)[1..]
         == Init([[c] + SplitLines(x)[0]] + SplitLines(x)[1..])
            + SplitLines(Last(SplitLines(x)) + y)
  {
    ExtendFirst([c], SplitLines(x), SplitLines(Last(SplitLines(x)) + y));
  }

  /** Prefixing the first piece commutes with appending after the last but one. */
  lemma ExtendFirst(pre: string, p: seq<string>, q: seq<string>)
    requires |p| > 1
    ensures [pre + (Init(p) + q)[0]] + (Init(p) + q)[1..]
         == Init([pre + p[0]] + p[1..]) + q
  {
    assert Init([pre + p[0]] + p[1..]) == [pre + p[0]] + Init(p)[1..];
    assert (Init(p) + q)[0] == p[0];
    assert (Init(p) + q)[1..] == Init(p)[1..] + q;
  }

  /** A newline-free piece followed by a newline splits off as one piece. */
  lemma {:induction false} SplitLeadingLine(e: string, y: string)
    requires '\n' !in e
    ensures SplitLines(e + "\n" + y) == [e] + SplitLines(y)
  {
    if e == [] {
      SplitCons('\n', y);
      assert e + "\n" + y == ['\n'] + y;
    } else {
      assert '\n' !in e[1..];
      SplitLeadingLine(e[1..], y);
      assert e + "\n" + y == [e[0]] + (e[1..] + "\n" + y);
      SplitCons(e[0], e[1..] + "\n" + y);
      assert [e[0]] + e[1..] == e;
    }
  }

  /** Splitting newline-terminated pieces gives the pieces back, followed by
      the empty piece after the final newline. */
  lemma {:induction false} SplitTerminated(parts: seq<string>)
    requires forall k :: 0 <= k < |parts| ==> '\n' !in parts[k]
    ensures SplitLines(Terminated(parts)) == parts + [""]
  {
    if parts != [] {
      SplitTerminated(parts[1..]);
      SplitLeadingLine(parts[0], Terminated(parts[1..]));
      assert [parts[0]] + parts[1..] == parts;
    }
  }

  /** `"".join` of two parts. */
  lemma ConcatPair(a: string, b: string)
    ensures Concat([a, b]) == a + b
  {
    assert Init([a, b]) == [a] && Last([a, b]) == b;
    assert Init([a]) == [] && Last([a]) == a;
    assert Concat([a]) == Concat([]) + a == a;
  }

  /** `"".join` distributes over concatenation of the part lists. */
  lemma {:induction false} ConcatAppend(a: seq<string>, b: seq<string>)
    ensures Concat(a + b) == Concat(a) + Concat(b)
  {
    if b != [] {
      ConcatAppend(a, Init(b));
      assert Init(a + b) == a + Init(b);
    } else {
      assert a + b == a;
    }
  }
}
