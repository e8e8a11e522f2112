/**
 * The string primitives the rewrite engines rely on, modelled on Rust's `str` methods:
 * `split('\n')`, `trim_end()`, `ends_with('\n')`, `lines()`, and the UTF-8 length
 * of a string (Rust strings are indexed by byte, Dafny strings by character).
 */
module Text {

  /** Rust's `char::is_whitespace`: the Unicode White_Space property. */
  predicate IsWhitespace(c: char) {
    var n := c as int;
    (0x09 <= n <= 0x0D) || n == 0x20 || n == 0x85 || n == 0xA0 || n == 0x1680
    || (0x2000 <= n <= 0x200A) || n == 0x2028 || n == 0x2029 || n == 0x202F
    || n == 0x205F || n == 0x3000
  }

  /** `str::split('\n')`: the pieces between line feeds. There is always at least one piece. */
  function Split(s: string): (lines: seq<string>)
    ensures |lines| >= 1
    ensures forall k :: 0 <= k < |lines| ==> '\n' !in lines[k]
  {
    if s == [] then [[]]
    else
      var rest := Split(s[1..]);
      if s[0] == '\n' then [[]] + rest
      else [[s[0]] + rest[0]] + rest[1..]
  }

  /** The pieces glued back together with a line feed between consecutive pieces. */
  function Join(lines: seq<string>): string
    decreases |lines|
  {
    if |lines| == 0 then []
    else if |lines| == 1 then lines[0]
    else lines[0] + "\n" + Join(lines[1..])
  }

  /** Splitting and joining again gives back the original text. */
  lemma {:induction false} JoinSplit(s: string)
    ensures Join(Split(s)) == s
  {
    if s != [] {
      JoinSplit(s[1..]);
      var rest := Split(s[1..]);
      if s[0] != '\n' && |rest| > 1 {
        assert Join(rest) == rest[0] + "\n" + Join(rest[1..]);
        assert [s[0]] + s[1..] == s;
      }
    }
  }

  /** A prefix without line feeds is glued onto the first piece. */
  lemma {:induction false} SplitPrefix(a: string, t: string)
    requires '\n' !in a
    ensures Split(a + t) == [a + Split(t)[0]] + Split(t)[1..]
  {
    if a != [] {
      assert (a + t)[0] == a[0];
      assert (a + t)[1..] == a[1..] + t;
      SplitPrefix(a[1..], t);
      assert [a[0]] + (a[1..] + Split(t)[0]) == a + Split(t)[0];
    } else {
      assert a + t == t && a + Split(t)[0] == Split(t)[0];
      assert Split(t) == [Split(t)[0]] + Split(t)[1..];
    }
  }

  /** A piece without line feeds followed by a line feed is one piece of its own. */
  lemma SplitLine(a: string, t: string)
    requires '\n' !in a
    ensures Split(a + "\n" + t) == [a] + Split(t)
  {
    var nt := "\n" + t;
    assert a + "\n" + t == a + nt;
    SplitPrefix(a, nt);
    assert nt[0] == '\n' && nt[1..] == t;
    assert Split(nt) == [[]] + Split(t);
    assert a + [] == a;
  }

  /** Joining pieces that hold no line feed and splitting again gives back the pieces. */
  lemma {:induction false} SplitJoin(lines: seq<string>)
    requires |lines| >= 1
    requires forall k :: 0 <= k < |lines| ==> '\n' !in lines[k]
    ensures Split(Join(lines)) == lines
  {
    if |lines| == 1 {
      SplitPrefix(lines[0], []);
      assert lines[0] + [] == lines[0];
    } else {
      SplitJoin(lines[1..]);
      var t := "\n" + Join(lines[1..]);
      assert lines[0] + "\n" + Join(lines[1..]) == lines[0] + t;
      SplitPrefix(lines[0], t);
      assert t[0] == '\n' && t[1..] == Join(lines[1..]);
      assert Split(t) == [[]] + lines[1..];
      assert lines[0] + [] == lines[0];
    }
  }

  /** `str::trim_end()`: the longest prefix that does not end in white space. */
  function TrimEnd(s: string): (r: string)
    ensures r <= s
    ensures r == [] || !IsWhitespace(r[|r| - 1])
    ensures forall k :: |r| <= k < |s| ==> IsWhitespace(s[k])
    decreases |s|
  {
    if s != [] && IsWhitespace(s[|s| - 1]) then TrimEnd(s[..|s| - 1]) else s
  }

  /** `str::ends_with('\n')`. */
  predicate EndsWithNewline(s: string) {
    |s| > 0 && s[|s| - 1] == '\n'
  }

  /** The line feeds of `s`, in order, and nothing else. */
  function Breaks(s: string): (r: string)
    ensures |r| <= |s|
    ensures '\n' !in s ==> r == []
  {
    if s == [] then []
    else (if s[0] == '\n' then "\n" else "") + Breaks(s[1..])
  }

  /** What `Breaks` keeps is line feeds only, one for each line feed of `s`. */
  lemma {:induction false} BreaksAreLineFeeds(s: string)
    ensures forall k :: 0 <= k < |Breaks(s)| ==> Breaks(s)[k] == '\n'
    ensures |Breaks(s)| == multiset(s)['\n']
  {
    if s != [] {
      var tail := Breaks(s[1..]);
      BreaksAreLineFeeds(s[1..]);
      var head: string := if s[0] == '\n' then "\n" else "";
      assert Breaks(s) == head + tail;
      assert forall k :: 0 <= k < |tail| ==> (head + tail)[|head| + k] == tail[k];
      assert s == [s[0]] + s[1..];
      assert multiset(s) == multiset{s[0]} + multiset(s[1..]);
    }
  }

  lemma {:induction false} BreaksConcat(a: string, b: string)
    ensures Breaks(a + b) == Breaks(a) + Breaks(b)
  {
    if a != [] {
      assert (a + b)[0] == a[0] && (a + b)[1..] == a[1..] + b;
      BreaksConcat(a[1..], b);
    } else {
      assert a + b == b;
    }
  }

  /** The number of bytes UTF-8 uses to encode `c`. */
  function Utf8Len(c: char): (n: nat)
    ensures 1 <= n <= 4
  {
    var v := c as int;
    if v < 0x80 then 1 else if v < 0x800 then 2 else if v < 0x1_0000 then 3 else 4
  }

  /** `str::len()`: the length in bytes of the UTF-8 encoding of `s`. */
  function ByteLen(s: string): nat {
    if s == [] then 0 else Utf8Len(s[0]) + ByteLen(s[1..])
  }

  lemma {:induction false} ByteLenConcat(a: string, b: string)
    ensures ByteLen(a + b) == ByteLen(a) + ByteLen(b)
  {
    if a != [] {
      assert (a + b)[0] == a[0] && (a + b)[1..] == a[1..] + b;
      ByteLenConcat(a[1..], b);
    } else {
      assert a + b == b;
    }
  }

  /** Removes one trailing carriage return. */
  function StripCr(line: string): string {
    if |line| > 0 && line[|line| - 1] == '\r' then line[..|line| - 1] else line
  }

  /**
   * `str::lines()`: the pieces ended by a line feed (with a carriage return just before the
   * line feed removed) and, when the text does not end with a line feed, the unterminated last
   * piece. The empty text has no lines.
   */
  function RustLines(s: string): (ls: seq<string>)
    ensures forall k :: 0 <= k < |ls| ==> '\n' !in ls[k]
  {
    var p := Split(s);
    var n := |p| - 1;
    var terminated := seq(n, k requires 0 <= k < n => StripCr(p[k]));
    if p[n] == [] then terminated else terminated + [p[n]]
  }

  /** The last piece of `split('\n')` is empty exactly when the text is empty or ends with a line feed. */
  lemma {:induction false} SplitLastEmpty(s: string)
    ensures Split(s)[|Split(s)| - 1] == [] <==> (s == [] || EndsWithNewline(s))
  {
    if s != [] {
      var t := s[1..];
      var rest := Split(t);
      SplitLastEmpty(t);
      if s[0] == '\n' {
        assert Split(s) == [[]] + rest;
        if t != [] {
          assert s[|s| - 1] == t[|t| - 1];
        }
      } else if |rest| > 1 {
        assert Split(s)[|Split(s)| - 1] == rest[|rest| - 1];
        assert t != [];
        assert s[|s| - 1] == t[|t| - 1];
      } else {
        JoinSplit(t);
        assert t == rest[0];
        if |s| > 1 {
          assert s[|s| - 1] == t[|t| - 1];
        }
      }
    }
  }

  /** A character missing from the text is missing from every piece of `split('\n')`. */
  lemma {:induction false} SplitWithout(s: string, c: char)
    requires c !in s
    ensures forall k :: 0 <= k < |Split(s)| ==> c !in Split(s)[k]
  {
    if s != [] {
      var t := s[1..];
      assert forall i :: 0 <= i < |t| ==> t[i] == s[i + 1];
      SplitWithout(t, c);
      var rest := Split(t);
      var p := Split(s);
      if s[0] == '\n' {
        assert forall k :: 1 <= k < |p| ==> p[k] == rest[k - 1];
      } else {
        assert p[0] == [s[0]] + rest[0];
        assert forall k :: 1 <= k < |p| ==> p[k] == rest[k];
      }
    }
  }

  /** The lines, piece by piece: each terminated piece without its `\r`, then a non-empty last piece. */
  lemma RustLinesPieces(s: string)
    ensures |RustLines(s)| == if Split(s)[|Split(s)| - 1] == [] then |Split(s)| - 1 else |Split(s)|
    ensures forall k :: 0 <= k < |Split(s)| - 1 ==> RustLines(s)[k] == StripCr(Split(s)[k])
    ensures Split(s)[|Split(s)| - 1] != [] ==> RustLines(s)[|Split(s)| - 1] == Split(s)[|Split(s)| - 1]
  {
  }

  /** Stripping takes away one trailing `\r` when there is one, and nothing else. */
  lemma StripCrCases(line: string)
    ensures line == StripCr(line) + "\r" <==> |line| > 0 && line[|line| - 1] == '\r'
    ensures line == StripCr(line) || line == StripCr(line) + "\r"
  {
    if |line| > 0 && line[|line| - 1] == '\r' {
      assert line == line[..|line| - 1] + "\r";
    }
  }

  /** A line without a carriage return is left as it is. */
  lemma StripCrWithout(line: string)
    requires '\r' !in line
    ensures StripCr(line) == line
  {
    if |line| > 0 {
      assert line[|line| - 1] in line;
    }
  }

  /**
   * `lines()` drops a carriage return only where it stands just before a line feed: there is one
   * line per terminated piece of `split('\n')`, plus the last piece when it is not empty; a
   * terminated piece is its line, or its line and one `\r` exactly when it ends in `\r`; and an
   * unterminated last piece is kept whole.
   */
  lemma RustLinesCarriageReturn(s: string, k: nat)
    requires k < |RustLines(s)|
    ensures |RustLines(s)| == if s == [] || EndsWithNewline(s) then |Split(s)| - 1 else |Split(s)|
    ensures k < |Split(s)| - 1 ==>
              (Split(s)[k] == RustLines(s)[k] + "\r" <==>
                 |Split(s)[k]| > 0 && Split(s)[k][|Split(s)[k]| - 1] == '\r')
    ensures k < |Split(s)| - 1 ==>
              Split(s)[k] == RustLines(s)[k] || Split(s)[k] == RustLines(s)[k] + "\r"
    ensures k == |Split(s)| - 1 ==> RustLines(s)[k] == Split(s)[k]
  {
    SplitLastEmpty(s);
    RustLinesPieces(s);
    var p := Split(s);
    if k < |p| - 1 {
      StripCrCases(p[k]);
    }
  }
}
