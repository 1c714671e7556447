/** The two string operations the header parser relies on: `str::split` on a
    single character and `str::trim`, both over ASCII text. */
module Str {

  /** The ASCII characters for which Rust's `char::is_whitespace` holds:
      tab, line feed, vertical tab, form feed, carriage return and space. */
  predicate IsWhitespace(c: char) {
    c == ' ' || '\t' <= c <= '\r'
  }

  /** Drops the leading whitespace (`str::trim_start`). */
  function TrimStart(s: string): (r: string)
    ensures |r| <= |s|
    ensures r == [] || !IsWhitespace(r[0])
  {
    if s != [] && IsWhitespace(s[0]) then TrimStart(s[1..]) else s
  }

  /** Drops the trailing whitespace (`str::trim_end`). */
  function TrimEnd(s: string): (r: string)
    ensures |r| <= |s|
    ensures r == [] || (r[0] == s[0] && !IsWhitespace(r[|r| - 1]))
  {
    if s != [] && IsWhitespace(s[|s| - 1]) then TrimEnd(s[..|s| - 1]) else s
  }

  /** `str::trim`: the text between the leading and the trailing whitespace. */
  function Trim(s: string): (r: string)
    ensures r == [] || (!IsWhitespace(r[0]) && !IsWhitespace(r[|r| - 1]))
  {
    TrimEnd(TrimStart(s))
  }

  /** `TrimStart` keeps a suffix, and everything it removes is whitespace. */
  lemma {:induction false} TrimStartMeaning(s: string)
    ensures var r := TrimStart(s);
      && r == s[|s| - |r|..]
      && (forall k :: 0 <= k < |s| - |r| ==> IsWhitespace(s[k]))
  {
    if s != [] && IsWhitespace(s[0]) {
      TrimStartMeaning(s[1..]);
      var r := TrimStart(s[1..]);
      assert TrimStart(s) == r;
      assert s[1..][|s| - 1 - |r|..] == s[|s| - |r|..];
      forall k | 0 <= k < |s| - |r| ensures IsWhitespace(s[k]) {
        if k > 0 {
          assert s[k] == s[1..][k - 1];
        }
      }
    }
  }

  /** `TrimEnd` keeps a prefix, and everything it removes is whitespace. */
  lemma {:induction false} TrimEndMeaning(s: string)
    ensures var r := TrimEnd(s);
      && r == s[..|r|]
      && (forall k :: |r| <= k < |s| ==> IsWhitespace(s[k]))
  {
    if s != [] && IsWhitespace(s[|s| - 1]) {
      TrimEndMeaning(s[..|s| - 1]);
    }
  }

  /** `Trim` keeps a contiguous part of the text, starting after the leading
      whitespace, and everything it drops on either side is whitespace. */
  lemma {:induction false} TrimMeaning(s: string)
    ensures var r := Trim(s); var a := |s| - |TrimStart(s)|;
      && 0 <= a && a + |r| <= |s| && r == s[a..a + |r|]
      && (forall k :: 0 <= k < a ==> IsWhitespace(s[k]))
      && (forall k :: a + |r| <= k < |s| ==> IsWhitespace(s[k]))
  {
    TrimStartMeaning(s);
    var t := TrimStart(s);
    TrimEndMeaning(t);
    var a := |s| - |t|;
    var r := Trim(s);
    assert r == t[..|r|] && t == s[a..];
    assert r == s[a..a + |r|];
    forall k | a + |r| <= k < |s| ensures IsWhitespace(s[k]) {
      assert s[k] == t[k - a];
    }
  }

  /** Text without surrounding whitespace is its own trim. */
  lemma TrimKeepsTrimmed(s: string)
    requires s == [] || (!IsWhitespace(s[0]) && !IsWhitespace(s[|s| - 1]))
    ensures Trim(s) == s
  {
  }

  /** Index of the first `c` in `s`, or `|s|` when there is none. */
  function FirstIndex(s: string, c: char): (i: nat)
    ensures i <= |s|
    ensures i < |s| ==> s[i] == c
    ensures forall k :: 0 <= k < i ==> s[k] != c
  {
    if s == [] || s[0] == c then 0 else 1 + FirstIndex(s[1..], c)
  }

  /** `FirstIndex` finds an occurrence exactly when there is one. */
  lemma {:induction false} FirstIndexFound(s: string, c: char)
    ensures FirstIndex(s, c) < |s| <==> c in s
  {
    if c in s {
      var k :| 0 <= k < |s| && s[k] == c;
      assert FirstIndex(s, c) <= k;
    }
  }

  /** `str::split(c)`: the pieces of `s` between occurrences of `c`. There is
      always at least one piece (the empty text splits into one empty piece),
      and no piece contains `c`. */
  function Split(s: string, c: char): (parts: seq<string>)
    ensures |parts| >= 1
  {
    if s == [] then [[]]
    else
      var rest := Split(s[1..], c);
      if s[0] == c then [[]] + rest
      else [[s[0]] + rest[0]] + rest[1..]
  }

  /** There is more than one piece exactly when the separator occurs. */
  lemma {:induction false} SplitCount(s: string, c: char)
    ensures |Split(s, c)| >= 2 <==> c in s
  {
    if s != [] {
      SplitCount(s[1..], c);
      assert c in s <==> s[0] == c || c in s[1..];
    }
  }

  /** No piece contains the separator. */
  lemma {:induction false} SplitPiecesLackSeparator(s: string, c: char)
    ensures forall k :: 0 <= k < |Split(s, c)| ==> c !in Split(s, c)[k]
  {
    if s != [] {
      SplitPiecesLackSeparator(s[1..], c);
      var rest := Split(s[1..], c);
      if s[0] != c {
        assert c !in [s[0]] + rest[0];
      }
    }
  }

  /** The pieces glued back together with `c` between neighbours. */
  function Join(parts: seq<string>, c: char): string
    requires |parts| >= 1
  {
    if |parts| == 1 then parts[0] else parts[0] + [c] + Join(parts[1..], c)
  }

  /** Splitting loses nothing: joining the pieces gives back the text. */
  lemma {:induction false} JoinSplit(s: string, c: char)
    ensures Join(Split(s, c), c) == s
  {
    if s != [] {
      var rest := Split(s[1..], c);
      JoinSplit(s[1..], c);
      if s[0] == c {
        assert ([[]] + rest)[1..] == rest;
      } else if |rest| > 1 {
        var parts := [[s[0]] + rest[0]] + rest[1..];
        assert parts[1..] == rest[1..];
        calc {
          Join(parts, c);
          ([s[0]] + rest[0]) + [c] + Join(rest[1..], c);
          [s[0]] + (rest[0] + [c] + Join(rest[1..], c));
          [s[0]] + s[1..];
        }
      }
    }
  }

  /** A text without `c` is one piece. */
  lemma {:induction false} SplitWithout(s: string, c: char)
    requires c !in s
    ensures Split(s, c) == [s]
  {
    if s != [] {
      SplitWithout(s[1..], c);
      assert [s[0]] + s[1..] == s;
    }
  }

  /** Splitting `a`, `c`, `t` with `a` free of `c` gives `a` first and then the pieces of `t`. */
  lemma {:induction false} SplitAfter(a: string, t: string, c: char)
    requires c !in a
    ensures Split(a + [c] + t, c) == [a] + Split(t, c)
  {
    if a == [] {
      assert a + [c] + t == [c] + t;
      assert ([c] + t)[1..] == t;
    } else {
      assert (a + [c] + t)[1..] == a[1..] + [c] + t;
      SplitAfter(a[1..], t, c);
      assert [a[0]] + a[1..] == a;
    }
  }

  /** Splitting undoes joining when no piece contains the separator. */
  lemma {:induction false} SplitJoin(parts: seq<string>, c: char)
    requires |parts| >= 1
    requires forall k :: 0 <= k < |parts| ==> c !in parts[k]
    ensures Split(Join(parts, c), c) == parts
  {
    if |parts| == 1 {
      SplitWithout(parts[0], c);
    } else {
      SplitJoin(parts[1..], c);
      SplitAfter(parts[0], Join(parts[1..], c), c);
    }
  }

  /** The first piece is the text before the first `c`. */
  lemma {:induction false} SplitFirstPiece(s: string, c: char)
    ensures Split(s, c)[0] == s[..FirstIndex(s, c)]
  {
    if s != [] && s[0] != c {
      SplitFirstPiece(s[1..], c);
      assert s[..FirstIndex(s, c)] == [s[0]] + s[1..][..FirstIndex(s[1..], c)];
    }
  }

  /** The first piece is the text before the first `c`; the remaining pieces
      are those of the text after it. */
  lemma {:induction false} SplitAtFirst(s: string, c: char)
    ensures var i := FirstIndex(s, c);
      && Split(s, c)[0] == s[..i]
      && (i == |s| ==> Split(s, c) == [s])
      && (i < |s| ==> Split(s, c)[1..] == Split(s[i + 1..], c))
      && (i < |s| ==> |Split(s, c)| >= 2 && Split(s, c)[1] == Split(s[i + 1..], c)[0])
  {
    var i := FirstIndex(s, c);
    if i == |s| {
      SplitWithout(s, c);
    } else {
      assert s == s[..i] + [c] + s[i + 1..];
      SplitAfter(s[..i], s[i + 1..], c);
      assert Split(s, c)[1] == ([s[..i]] + Split(s[i + 1..], c))[1];
    }
  }
}
