/** The header parser (`parse_header`, src/io.rs:40-53): the header block is
    read as text, split into lines on `\n`, and each line into a key and a
    value on `:`. */
module Header {
  import opened Base
  import opened Str

  type Headers = map<string, string>

  /** One header line: the trimmed text before the first ':' is the key and
      the trimmed text between the first and the second ':' is the value.
      A line without ':' has no second piece, which the source unwraps. */
  function ParseLine(line: string): (r: Option<(string, string)>)
    ensures r.None? <==> ':' !in line
  {
    SplitCount(line, ':');
    var parts := Split(line, ':');
    if |parts| < 2 then None else Some((Trim(parts[0]), Trim(parts[1])))
  }

  /** What a well-formed line means, stated without `Split`: the key is the
      text before the first ':' and the value the text up to the next ':'
      (or the end), both trimmed, and whatever follows a second ':' is
      dropped. (A line without ':' is malformed: `ParseLine`'s contract.) */
  lemma {:induction false} ParseLineMeaning(line: string)
    ensures ':' in line ==>
      var i := FirstIndex(line, ':');
      var j := i + 1 + FirstIndex(line[i + 1..], ':');
      ParseLine(line) == Some((Trim(line[..i]), Trim(line[i + 1..j])))
  {
    FirstIndexFound(line, ':');
    var i := FirstIndex(line, ':');
    if i < |line| {
      FirstTwoPieces(line, ':');
      var j := i + 1 + FirstIndex(line[i + 1..], ':');
      LineOfPieces(line, line[..i], line[i + 1..j]);
    }
  }

  /** A line whose first two pieces are known parses to them, trimmed. */
  lemma {:induction false} LineOfPieces(line: string, key: string, val: string)
    requires |Split(line, ':')| >= 2 && Split(line, ':')[0] == key && Split(line, ':')[1] == val
    ensures ParseLine(line) == Some((Trim(key), Trim(val)))
  {
  }

  /** With a `c` in `s`, the first two pieces are the text before the first
      `c` and the text between it and the next `c`. */
  lemma {:induction false} FirstTwoPieces(s: string, c: char)
    requires FirstIndex(s, c) < |s|
    ensures var i := FirstIndex(s, c);
      var j := i + 1 + FirstIndex(s[i + 1..], c);
      |Split(s, c)| >= 2 && Split(s, c)[0] == s[..i] && Split(s, c)[1] == s[i + 1..j]
  {
    var i := FirstIndex(s, c);
    var after := s[i + 1..];
    var i' := FirstIndex(after, c);
    assert Split(s, c) == [s[..i]] + Split(after, c) by {
      assert s == s[..i] + [c] + after;
      SplitAfter(s[..i], after, c);
    }
    SplitFirstPiece(after, c);
    SliceOfSuffix(s, i + 1, i');
  }

  lemma SliceOfSuffix(s: string, a: nat, n: nat)
    requires a + n <= |s|
    ensures s[a..][..n] == s[a..a + n]
  {
  }

  /** The map that inserting the lines, left to right, into `acc` produces,
      or the error of the first malformed line. */
  function Insert(lines: seq<string>, acc: Headers): (r: Result<Headers, DecodeError>)
    ensures r.Err? ==> r.error == MalformedHeader
    ensures r.Ok? ==> acc.Keys <= r.value.Keys
  {
    if lines == [] then Ok(acc)
    else match ParseLine(lines[0])
      case None => Err(MalformedHeader)
      case Some(kv) => Insert(lines[1..], acc[kv.0 := kv.1])
  }

  /** The lines of a header block. */
  function Lines(block: seq<byte>): (lines: seq<string>)
    ensures |lines| >= 1 && Join(lines, '\n') == Text(block)
    ensures forall k :: 0 <= k < |lines| ==> '\n' !in lines[k]
  {
    JoinSplit(Text(block), '\n');
    SplitPiecesLackSeparator(Text(block), '\n');
    Split(Text(block), '\n')
  }

  /** The header map of a block: the lines inserted into an empty map. */
  function Parse(block: seq<byte>): (r: Result<Headers, DecodeError>)
    ensures r.Err? <==> exists k :: 0 <= k < |Lines(block)| && ':' !in Lines(block)[k]
    ensures r.Err? ==> r.error == MalformedHeader
  {
    InsertFailsIffMalformed(Lines(block), map[]);
    Insert(Lines(block), map[])
  }

  /** Key of a well-formed line. */
  function KeyOf(line: string): string
    requires ParseLine(line).Some?
  {
    ParseLine(line).value.0
  }

  /** Inserting fails exactly when some line is malformed. */
  lemma {:induction false} InsertFailsIffMalformed(lines: seq<string>, acc: Headers)
    ensures Insert(lines, acc).Err? <==> exists j :: 0 <= j < |lines| && ParseLine(lines[j]).None?
    ensures Insert(lines, acc).Err? ==> Insert(lines, acc).error == MalformedHeader
  {
    if lines != [] {
      var kv := ParseLine(lines[0]);
      if kv.Some? {
        InsertFailsIffMalformed(lines[1..], acc[kv.value.0 := kv.value.1]);
        if exists j :: 0 <= j < |lines| && ParseLine(lines[j]).None? {
          var j :| 0 <= j < |lines| && ParseLine(lines[j]).None?;
          assert lines[1..][j - 1] == lines[j];
        }
      }
    }
  }

  /** A later line wins: the value of a key is that of the last line with it. */
  lemma {:induction false} InsertLastWins(lines: seq<string>, acc: Headers, j: nat)
    requires Insert(lines, acc).Ok?
    requires j < |lines| && ParseLine(lines[j]).Some?
    requires forall k :: j < k < |lines| ==> ParseLine(lines[k]).Some? && KeyOf(lines[k]) != KeyOf(lines[j])
    ensures var m := Insert(lines, acc).value;
      KeyOf(lines[j]) in m && m[KeyOf(lines[j])] == ParseLine(lines[j]).value.1
  {
    var kv := ParseLine(lines[0]).value;
    if j == 0 {
      InsertKeeps(lines[1..], acc[kv.0 := kv.1], kv.0);
    } else {
      forall k | j - 1 < k < |lines| - 1
        ensures ParseLine(lines[1..][k]).Some? && KeyOf(lines[1..][k]) != KeyOf(lines[1..][j - 1])
      {
        assert lines[1..][k] == lines[k + 1];
      }
      InsertLastWins(lines[1..], acc[kv.0 := kv.1], j - 1);
    }
  }

  /** A key that no line carries keeps the value it had in `acc`, or stays absent. */
  lemma {:induction false} InsertKeeps(lines: seq<string>, acc: Headers, key: string)
    requires Insert(lines, acc).Ok?
    requires forall k :: 0 <= k < |lines| && ParseLine(lines[k]).Some? ==> KeyOf(lines[k]) != key
    ensures var m := Insert(lines, acc).value;
      (key in m <==> key in acc) && (key in acc ==> m[key] == acc[key])
  {
    if lines != [] {
      var kv := ParseLine(lines[0]).value;
      assert KeyOf(lines[0]) == kv.0;
      forall k | 0 <= k < |lines| - 1 && ParseLine(lines[1..][k]).Some?
        ensures KeyOf(lines[1..][k]) != key
      {
        assert lines[1..][k] == lines[k + 1];
      }
      InsertKeeps(lines[1..], acc[kv.0 := kv.1], key);
    }
  }

  /** Every key of the result comes from `acc` or from some line. */
  lemma {:induction false} InsertKeysFromLines(lines: seq<string>, acc: Headers, key: string)
    requires Insert(lines, acc).Ok?
    requires key in Insert(lines, acc).value
    ensures key in acc || exists k :: 0 <= k < |lines| && ParseLine(lines[k]).Some? && KeyOf(lines[k]) == key
  {
    if lines != [] {
      var kv := ParseLine(lines[0]).value;
      InsertKeysFromLines(lines[1..], acc[kv.0 := kv.1], key);
      if key !in acc && key != kv.0 {
        var k :| 0 <= k < |lines| - 1 && ParseLine(lines[1..][k]).Some? && KeyOf(lines[1..][k]) == key;
        assert lines[1..][k] == lines[k + 1];
      } else if key !in acc {
        assert KeyOf(lines[0]) == key;
      }
    }
  }

  /** The loop of the source: splits the block into lines and inserts each
      line's key and value into a fresh map, failing on the first line
      without ':'. */
  method ParseHeader(src: seq<byte>) returns (r: Result<Headers, DecodeError>)
    ensures r == Parse(src)
  {
    var data := Text(src);
    var lines := Split(data, '\n');
    var hash: Headers := map[];
    for n := 0 to |lines|
      invariant Insert(lines[n..], hash) == Parse(src)
    {
      assert lines[n..][1..] == lines[n + 1..];
      var keyValue := Split(lines[n], ':');
      if |keyValue| < 2 {
        return Err(MalformedHeader);
      }
      var key := Trim(keyValue[0]);
      var val := Trim(keyValue[1]);
      hash := hash[key := val];
    }
    assert lines[|lines|..] == [];
    return Ok(hash);
  }

  /** An empty header block, or one whose first byte is a line feed, starts
      with an empty line, and an empty line has no ':'. */
  lemma {:induction false} EmptyFirstLineIsMalformed(block: seq<byte>)
    requires block == [] || block[0] == NL
    ensures Parse(block) == Err(MalformedHeader)
  {
    var lines := Lines(block);
    SplitAtFirst(Text(block), '\n');
    assert lines[0] == [];
    assert ParseLine(lines[0]).None?;
  }
}
