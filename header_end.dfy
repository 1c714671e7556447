/** The frame-boundary scanner (`get_header_end`, src/io.rs:25-34): the end of
    the header block is the second byte of the first blank line, `\n\n`. */
module HeaderEnd {
  import opened Base

  /** Position `i` holds the second line feed of a `\n\n` pair. */
  predicate IsTerminator(s: seq<byte>, i: int) {
    1 <= i < |s| && s[i - 1] == NL && s[i] == NL
  }

  /** The first terminator at position `i` or later. */
  function FindFrom(s: seq<byte>, i: nat): (r: Option<nat>)
    ensures r.Some? ==> i <= r.value && IsTerminator(s, r.value)
    ensures r.Some? ==> forall j :: i <= j < r.value ==> !IsTerminator(s, j)
    ensures r.None? ==> forall j :: i <= j < |s| ==> !IsTerminator(s, j)
    decreases |s| - i
  {
    if i >= |s| then None
    else if IsTerminator(s, i) then Some(i)
    else FindFrom(s, i + 1)
  }

  /** The header end of a buffer: the least terminator position, if any. */
  function Find(s: seq<byte>): (r: Option<nat>)
    ensures r.Some? <==> exists j :: IsTerminator(s, j)
    ensures r.Some? ==> IsTerminator(s, r.value) && forall j :: 0 <= j < r.value ==> !IsTerminator(s, j)
  {
    FindFrom(s, 1)
  }

  /** The least terminator is the header end. */
  lemma FindLeast(s: seq<byte>, i: nat)
    requires IsTerminator(s, i)
    requires forall j :: 0 <= j < i ==> !IsTerminator(s, j)
    ensures Find(s) == Some(i)
  {
    var r := Find(s);
    assert r.Some?;
    assert !(r.value < i) && !(i < r.value);
  }

  /** The scanning loop of the source: visits every index, and returns just
      after the first line feed that the next byte repeats. */
  method GetHeaderEnd(src: seq<byte>) returns (r: Option<nat>)
    ensures r == Find(src)
  {
    for index := 0 to |src|
      invariant forall j :: 0 <= j <= index ==> !IsTerminator(src, j)
    {
      if src[index] == NL && index + 1 < |src| && src[index + 1] == NL {
        FindLeast(src, index + 1);
        return Some(index + 1);
      }
    }
    return None;
  }

  /** Only the bytes up to the terminator matter: appending bytes does not move
      a header end that is already there. */
  lemma FindExtend(p: seq<byte>, q: seq<byte>)
    requires Find(p).Some?
    ensures Find(p + q) == Find(p)
  {
    var i := Find(p).value;
    assert IsTerminator(p + q, i);
    forall j | 0 <= j < i ensures !IsTerminator(p + q, j) {
      assert !IsTerminator(p, j);
    }
    FindLeast(p + q, i);
  }

  /** A buffer with a header end splits into the header block, the two line
      feeds and the rest, and the block itself holds no `\n\n`. */
  lemma FindSplitsBuffer(s: seq<byte>, i: nat)
    requires Find(s) == Some(i)
    ensures s == s[..i - 1] + [NL, NL] + s[i + 1..]
    ensures var block := s[..i - 1]; forall j :: 0 <= j < |block| ==> !IsTerminator(block, j)
  {
    assert s == s[..i - 1] + [NL, NL] + s[i + 1..];
    var block := s[..i - 1];
    forall j | 0 <= j < |block| ensures !IsTerminator(block, j) {
      assert !IsTerminator(s, j);
    }
  }
}
