/** Loading and saving text in apps/tedit/tedit.cpp. */
module TextFile {
  import opened Bits
  import opened Common
  import opened Utf8
  import opened Utf8Decoding
  import opened Utf8Forms

  /** The lines from byte i on, with the characters already on the current line. */
  function Parsed(bytes: seq<nat>, i: nat, line: seq<nat>): (lines: seq<seq<nat>>)
    ensures |lines| > 0
    decreases |bytes| - i
  {
    if i >= |bytes| then [line]
    else if bytes[i] == NEWLINE then [line] + Parsed(bytes, i + 1, [])
    else
      var d := Decoded(bytes, i);
      Parsed(bytes, i + d.1, line + d.0)
  }

  function LineBytes(line: seq<nat>): seq<nat> {
    if line == [] then [] else Encoded(line[0]) + LineBytes(line[1..])
  }

  /** The lines' bytes with a newline between them. */
  function Text(data: seq<seq<nat>>): seq<nat> {
    if data == [] then []
    else if |data| == 1 then LineBytes(data[0])
    else LineBytes(data[0]) + ([NEWLINE] + Text(data[1..]))
  }

  predicate Encodable(data: seq<seq<nat>>) {
    forall i, j :: 0 <= i < |data| && 0 <= j < |data[i]| ==> data[i][j] < 0x11_0000
  }

  /** How many newlines a line holds. */
  function Newlines(line: seq<nat>): nat {
    if line == [] then 0 else (if line[0] == NEWLINE then 1 else 0) + Newlines(line[1..])
  }

  function AllNewlines(data: seq<seq<nat>>): nat {
    if data == [] then 0 else Newlines(data[0]) + AllNewlines(data[1..])
  }

  lemma AtParts(bytes: seq<nat>, i: nat, a: seq<nat>, b: seq<nat>)
    requires At(bytes, i, a + b)
    ensures At(bytes, i, a) && At(bytes, i + |a|, b)
  {
    var s := bytes[i..i + |a + b|];
    assert bytes[i..i + |a|] == s[..|a|];
    assert bytes[i + |a|..i + |a| + |b|] == s[|a|..];
  }

  /** A line without newlines is read back behind the characters before it. */
  lemma {:induction false} LineParsed(bytes: seq<nat>, i: nat, line: seq<nat>, rest: seq<nat>)
    requires At(bytes, i, LineBytes(rest)) && Newlines(rest) == 0
    requires forall k :: 0 <= k < |rest| ==> rest[k] < 0x11_0000
    ensures Parsed(bytes, i, line) == Parsed(bytes, i + |LineBytes(rest)|, line + rest)
    decreases |rest|
  {
    hide Encoded, Decoded, At;
    if rest == [] {
      assert line + rest == line;
    } else {
      AtParts(bytes, i, Encoded(rest[0]), LineBytes(rest[1..]));
      DecodesEncoded(bytes, i, rest[0]);
      LineParsed(bytes, i + |Encoded(rest[0])|, line + [rest[0]], rest[1..]);
      assert line + [rest[0]] + rest[1..] == line + rest;
    }
  }

  lemma AtInside(bytes: seq<nat>, i: nat, part: seq<nat>)
    requires At(bytes, i, part)
    ensures i + |part| <= |bytes|
    ensures part != [] ==> bytes[i] == part[0]
  {
    if part != [] {
      assert bytes[i..i + |part|][0] == bytes[i];
    }
  }

  lemma AroundByte(bytes: seq<nat>, i: nat, a: seq<nat>, x: nat, b: seq<nat>)
    requires At(bytes, i, a + ([x] + b))
    ensures At(bytes, i, a) && i + |a| < |bytes| && bytes[i + |a|] == x && At(bytes, i + |a| + 1, b)
  {
    hide At;
    AtParts(bytes, i, a, [x] + b);
    AtParts(bytes, i + |a|, [x], b);
    AtInside(bytes, i + |a|, [x]);
  }

  /** A text of several lines: the first, a newline, and the rest. */
  lemma TextAt(bytes: seq<nat>, i: nat, data: seq<seq<nat>>)
    requires |data| > 1 && At(bytes, i, Text(data))
    ensures var j := i + |LineBytes(data[0])|;
      && At(bytes, i, LineBytes(data[0])) && j < |bytes| && bytes[j] == NEWLINE
      && At(bytes, j + 1, Text(data[1..])) && |Text(data)| == |LineBytes(data[0])| + 1 + |Text(data[1..])|
  {
    hide LineBytes, At;
    TextParts(data);
    AroundByte(bytes, i, LineBytes(data[0]), NEWLINE, Text(data[1..]));
  }

  lemma TextParts(data: seq<seq<nat>>)
    requires data != []
    ensures |data| == 1 ==> Text(data) == LineBytes(data[0])
    ensures |data| > 1 ==> Text(data) == LineBytes(data[0]) + ([NEWLINE] + Text(data[1..]))
  {
    hide LineBytes;
  }

  lemma FirstLine(data: seq<seq<nat>>)
    requires data != [] && Encodable(data)
    ensures Encodable(data[1..]) && forall k :: 0 <= k < |data[0]| ==> data[0][k] < 0x11_0000
    ensures AllNewlines(data) == Newlines(data[0]) + AllNewlines(data[1..])
  {
    hide Newlines;
    forall i, j | 0 <= i < |data[1..]| && 0 <= j < |data[1..][i]|
      ensures data[1..][i][j] < 0x11_0000
    {
      assert data[1..][i] == data[i + 1];
    }
  }

  lemma NoLines()
    ensures AllNewlines([]) == 0 && Text([]) == []
  {
  }

  lemma ParsedEnds(bytes: seq<nat>, i: nat, line: seq<nat>)
    ensures i >= |bytes| ==> Parsed(bytes, i, line) == [line]
    ensures i < |bytes| && bytes[i] == NEWLINE ==> Parsed(bytes, i, line) == [line] + Parsed(bytes, i + 1, [])
  {
  }

  lemma {:induction false} TextParsed(bytes: seq<nat>, i: nat, data: seq<seq<nat>>)
    requires data != [] && Encodable(data) && AllNewlines(data) == 0
    requires At(bytes, i, Text(data)) && i + |Text(data)| == |bytes|
    ensures Parsed(bytes, i, []) == data
    decreases |data|
  {
    hide Parsed, At, LineBytes, Text, Encodable, AllNewlines, Newlines;
    TextParts(data);
    FirstLine(data);
    assert [] + data[0] == data[0];
    ParsedEnds(bytes, i + |LineBytes(data[0])|, data[0]);
    if |data| == 1 {
      LineParsed(bytes, i, [], data[0]);
      assert data == [data[0]];
    } else {
      TextAt(bytes, i, data);
      LineParsed(bytes, i, [], data[0]);
      TextParsed(bytes, i + |LineBytes(data[0])| + 1, data[1..]);
      assert data == [data[0]] + data[1..];
    }
  }

  // ---- Counting lines

  lemma {:induction false} CountIgnoresLine(bytes: seq<nat>, i: nat, line: seq<nat>, other: seq<nat>)
    ensures |Parsed(bytes, i, line)| == |Parsed(bytes, i, other)|
    decreases |bytes| - i
  {
    if i < |bytes| && bytes[i] != NEWLINE {
      var d := Decoded(bytes, i);
      CountIgnoresLine(bytes, i + d.1, line + d.0, other + d.0);
    }
  }

  lemma {:induction false} LineCount(bytes: seq<nat>, i: nat, rest: seq<nat>)
    requires At(bytes, i, LineBytes(rest)) && forall k :: 0 <= k < |rest| ==> rest[k] < 0x11_0000
    ensures |Parsed(bytes, i, [])| == Newlines(rest) + |Parsed(bytes, i + |LineBytes(rest)|, [])|
    decreases |rest|
  {
    hide Encoded, Decoded, At;
    if rest != [] {
      AtParts(bytes, i, Encoded(rest[0]), LineBytes(rest[1..]));
      DecodesEncoded(bytes, i, rest[0]);
      LineCount(bytes, i + |Encoded(rest[0])|, rest[1..]);
      CountIgnoresLine(bytes, i + |Encoded(rest[0])|, [] + [rest[0]], []);
    }
  }

  /** Loading what was saved counts every newline character as a line end. */
  lemma {:induction false} TextCount(bytes: seq<nat>, i: nat, data: seq<seq<nat>>)
    requires data != [] && Encodable(data) && At(bytes, i, Text(data)) && i + |Text(data)| == |bytes|
    ensures |Parsed(bytes, i, [])| == |data| + AllNewlines(data)
    decreases |data|
  {
    hide Parsed, At, LineBytes, Text, Encodable, AllNewlines, Newlines;
    TextParts(data);
    FirstLine(data);
    ParsedEnds(bytes, i + |LineBytes(data[0])|, []);
    NoLines();
    if |data| == 1 {
      assert data[1..] == [];
      LineCount(bytes, i, data[0]);
    } else {
      TextAt(bytes, i, data);
      LineCount(bytes, i, data[0]);
      TextCount(bytes, i + |LineBytes(data[0])| + 1, data[1..]);
    }
  }

  /** Saving and loading gives the same lines exactly when there is a line and no line holds
      a newline character. */
  lemma SavedLoads(data: seq<seq<nat>>)
    requires Encodable(data)
    ensures Parsed(Text(data), 0, []) == data <==> data != [] && AllNewlines(data) == 0
  {
    if data != [] {
      assert Text(data)[0..0 + |Text(data)|] == Text(data);
      TextCount(Text(data), 0, data);
      if AllNewlines(data) == 0 {
        TextParsed(Text(data), 0, data);
      }
    }
  }

  /** Two lines, and the file they are saved to and loaded from. */
  lemma TwoLinesExample()
    ensures Text([[97], [98]]) == [97, 10, 98] && Parsed([97, 10, 98], 0, []) == [[97], [98]]
  {
    hide Parsed, AllNewlines;
    var data: seq<seq<nat>> := [[97], [98]];
    assert LineBytes([97]) == [97] && LineBytes([98]) == [98];
    assert data[1..] == [[98]];
    assert Text(data) == [97, 10, 98];
    NoNewlines(data);
    SavedLoads(data);
  }

  lemma {:induction false} NoNewlines(data: seq<seq<nat>>)
    ensures AllNewlines(data) == 0 <==> forall i, j :: 0 <= i < |data| && 0 <= j < |data[i]| ==> data[i][j] != NEWLINE
  {
    if data != [] {
      NoNewlineInLine(data[0]);
      NoNewlines(data[1..]);
      if AllNewlines(data) == 0 {
        forall i, j | 0 <= i < |data| && 0 <= j < |data[i]|
          ensures data[i][j] != NEWLINE
        {
          if i > 0 {
            assert data[1..][i - 1][j] != NEWLINE;
          }
        }
      } else if AllNewlines(data[1..]) != 0 {
        var i, j :| 0 <= i < |data[1..]| && 0 <= j < |data[1..][i]| && data[1..][i][j] == NEWLINE;
        assert data[i + 1][j] == NEWLINE;
      } else {
        var j :| 0 <= j < |data[0]| && data[0][j] == NEWLINE;
        assert data[0][j] == NEWLINE;
      }
    }
  }

  lemma {:induction false} NoNewlineInLine(line: seq<nat>)
    ensures Newlines(line) == 0 <==> forall j :: 0 <= j < |line| ==> line[j] != NEWLINE
  {
    if line != [] {
      NoNewlineInLine(line[1..]);
      if Newlines(line) == 0 {
        forall j | 0 <= j < |line|
          ensures line[j] != NEWLINE
        {
          if j > 0 {
            assert line[1..][j - 1] != NEWLINE;
          }
        }
      } else if Newlines(line[1..]) != 0 {
        var j :| 0 <= j < |line[1..]| && line[1..][j] == NEWLINE;
        assert line[j + 1] == NEWLINE;
      } else {
        assert line[0] == NEWLINE;
      }
    }
  }

  // ---- Loading, then saving

  predicate CodePoints(cs: seq<nat>) {
    forall k :: 0 <= k < |cs| ==> cs[k] < 0x11_0000
  }

  /** The bytes are encodings, as SaveFile writes them, one behind the other. */
  ghost predicate Encodings(bytes: seq<nat>) {
    exists cs :: CodePoints(cs) && bytes == LineBytes(cs)
  }

  /** The lines as one text. */
  function Joined(data: seq<seq<nat>>): seq<nat>
    requires data != []
  {
    if |data| == 1 then data[0] else data[0] + [NEWLINE] + Joined(data[1..])
  }

  /** A text cut at its newlines. */
  function Split(cs: seq<nat>): (data: seq<seq<nat>>)
    ensures data != []
  {
    if cs == [] then [[]]
    else if cs[0] == NEWLINE then [[]] + Split(cs[1..])
    else [[cs[0]] + Split(cs[1..])[0]] + Split(cs[1..])[1..]
  }

  lemma {:induction false} BytesSum(a: seq<nat>, b: seq<nat>)
    ensures LineBytes(a + b) == LineBytes(a) + LineBytes(b)
  {
    hide Encoded;
    if a == [] {
      assert a + b == b;
    } else {
      BytesSum(a[1..], b);
      assert (a + b)[1..] == a[1..] + b;
      assert Encoded(a[0]) + (LineBytes(a[1..]) + LineBytes(b)) == (Encoded(a[0]) + LineBytes(a[1..])) + LineBytes(b);
    }
  }

  lemma NewlineByte()
    ensures LineBytes([NEWLINE]) == [NEWLINE]
  {
  }

  /** What is saved is the encoding of the joined lines. */
  lemma {:induction false} TextJoined(data: seq<seq<nat>>)
    requires data != []
    ensures Text(data) == LineBytes(Joined(data))
  {
    hide LineBytes, Text;
    TextParts(data);
    if |data| > 1 {
      TextJoined(data[1..]);
      NewlineByte();
      BytesSum(data[0] + [NEWLINE], Joined(data[1..]));
      BytesSum(data[0], [NEWLINE]);
      assert LineBytes(data[0]) + ([NEWLINE] + Text(data[1..])) == LineBytes(data[0]) + [NEWLINE] + Text(data[1..]);
    }
  }

  lemma {:induction false} JoinedCodes(data: seq<seq<nat>>)
    requires data != [] && Encodable(data)
    ensures CodePoints(Joined(data))
  {
    hide AllNewlines, Newlines;
    FirstLine(data);
    if |data| > 1 {
      JoinedCodes(data[1..]);
    }
  }

  predicate Unbroken(data: seq<seq<nat>>) {
    forall i, j :: 0 <= i < |data| && 0 <= j < |data[i]| ==> data[i][j] != NEWLINE
  }

  /** Cutting at the newlines and joining again; no line keeps one. */
  lemma {:induction false} SplitJoins(cs: seq<nat>)
    ensures Joined(Split(cs)) == cs && Unbroken(Split(cs))
    ensures CodePoints(cs) ==> Encodable(Split(cs))
  {
    if cs != [] {
      hide Encodable, Joined, Unbroken, CodePoints;
      SplitJoins(cs[1..]);
      RestOfCodes(cs);
      if cs[0] == NEWLINE {
        SplitEmpty(Split(cs[1..]));
      } else {
        JoinedFirst(cs[0], Split(cs[1..]));
        SplitFirst(cs[0], Split(cs[1..]));
      }
    }
  }

  lemma RestOfCodes(cs: seq<nat>)
    requires cs != []
    ensures CodePoints(cs) ==> CodePoints(cs[1..]) && cs[0] < 0x11_0000
  {
  }

  lemma SplitEmpty(r: seq<seq<nat>>)
    requires r != []
    ensures Joined([[]] + r) == [NEWLINE] + Joined(r)
    ensures Unbroken(r) ==> Unbroken([[]] + r)
    ensures Encodable(r) ==> Encodable([[]] + r)
  {
    assert ([[]] + r)[1..] == r;
  }

  lemma SplitFirst(c: nat, r: seq<seq<nat>>)
    requires r != []
    ensures Unbroken(r) && c != NEWLINE ==> Unbroken([[c] + r[0]] + r[1..])
    ensures Encodable(r) && c < 0x11_0000 ==> Encodable([[c] + r[0]] + r[1..])
  {
    assert ([[c] + r[0]] + r[1..])[1..] == r[1..];
  }

  lemma JoinedFirst(c: nat, r: seq<seq<nat>>)
    requires r != []
    ensures Joined([[c] + r[0]] + r[1..]) == [c] + Joined(r)
  {
    assert ([[c] + r[0]] + r[1..])[1..] == r[1..];
  }

  /** Bytes are encodings if and only if they are well-formed. */
  lemma {:induction false} FormsAreEncodings(bytes: seq<nat>)
    ensures WellFormed(bytes) <==> Encodings(bytes)
    decreases |bytes|
  {
    hide LineBytes, CodePoints, FormLength, Character, Encoded;
    if bytes == [] {
      NoBytes();
    } else {
      if WellFormed(bytes) {
        var n, c := FormLength(bytes), Character(bytes);
        FormEncoded(bytes);
        FormsAreEncodings(bytes[n..]);
        var cs :| CodePoints(cs) && bytes[n..] == LineBytes(cs);
        MoreBytes(c, cs);
        assert bytes == bytes[..n] + bytes[n..];
      }
      if Encodings(bytes) {
        var cs :| CodePoints(cs) && bytes == LineBytes(cs);
        NoBytes();
        FirstBytes(cs);
        EncodedForm(cs[0], LineBytes(cs[1..]));
        FormsAreEncodings(bytes[FormLength(bytes)..]);
      }
    }
  }

  lemma NoBytes()
    ensures LineBytes([]) == [] && CodePoints([])
  {
  }

  lemma MoreBytes(c: nat, cs: seq<nat>)
    requires c < 0x11_0000 && CodePoints(cs)
    ensures CodePoints([c] + cs) && LineBytes([c] + cs) == Encoded(c) + LineBytes(cs)
  {
    hide Encoded;
    assert ([c] + cs)[1..] == cs;
  }

  lemma FirstBytes(cs: seq<nat>)
    requires CodePoints(cs) && cs != []
    ensures cs[0] < 0x11_0000 && CodePoints(cs[1..]) && LineBytes(cs) == Encoded(cs[0]) + LineBytes(cs[1..])
    ensures LineBytes(cs)[|Encoded(cs[0])|..] == LineBytes(cs[1..])
  {
    hide Encoded;
  }

  /** Loading bytes and saving the lines gives the same bytes if and only if these are
      well-formed: no stray byte, nothing cut off, overlong or too large. */
  lemma LoadedSaves(bytes: seq<nat>)
    ensures var data := Parsed(bytes, 0, []);
      Encodable(data) && Text(data) == bytes <==> WellFormed(bytes)
  {
    hide Parsed, LineBytes, Text, Encodable, CodePoints, AllNewlines, Split, Joined, WellFormed;
    var data := Parsed(bytes, 0, []);
    FormsAreEncodings(bytes);
    if Encodable(data) && Text(data) == bytes {
      TextJoined(data);
      JoinedCodes(data);
    }
    if Encodings(bytes) {
      var cs :| CodePoints(cs) && bytes == LineBytes(cs);
      SplitJoins(cs);
      TextJoined(Split(cs));
      NoNewlines(Split(cs));
      SavedLoads(Split(cs));
    }
  }

  /** From byte i on, every character is whole and none is past the last code point. */
  predicate Legible(bytes: seq<nat>, i: nat)
    decreases |bytes| - i
  {
    i >= |bytes|
    || (if bytes[i] == NEWLINE then Legible(bytes, i + 1)
        else Whole(bytes, i) && Number(bytes, i) < 0x11_0000 && Legible(bytes, i + Called(bytes[i])))
  }

  /** What was loaded can be saved if and only if no byte had to be marked: a mark is past the
      last code point. Overlong forms are legible; they are saved shorter. */
  lemma {:induction false} LoadedEncodable(bytes: seq<nat>, i: nat, line: seq<nat>)
    requires Bytes(bytes)
    ensures Encodable(Parsed(bytes, i, line)) <==> CodePoints(line) && Legible(bytes, i)
    decreases |bytes| - i
  {
    hide Decoded, Encodable, CodePoints, Whole, Number, Bytes;
    if i >= |bytes| {
      OneMoreLine(line, []);
    } else if bytes[i] == NEWLINE {
      LoadedEncodable(bytes, i + 1, []);
      OneMoreLine(line, Parsed(bytes, i + 1, []));
    } else {
      var d := Decoded(bytes, i);
      DecodedIs(bytes, i);
      LoadedEncodable(bytes, i + d.1, line + d.0);
      MoreCodes(line, d.0);
      if Whole(bytes, i) {
        OneCode(Number(bytes, i));
      } else {
        NoCodes(bytes[i..Stop(bytes, i, Called(bytes[i]))]);
      }
    }
  }

  lemma OneMoreLine(line: seq<nat>, data: seq<seq<nat>>)
    ensures CodePoints([]) && Encodable([]) && (Encodable([line]) <==> CodePoints(line))
    ensures Encodable([line] + data) <==> CodePoints(line) && Encodable(data)
  {
    if Encodable([line] + data) {
      assert ([line] + data)[0] == line;
      FirstLine([line] + data);
      assert ([line] + data)[1..] == data;
    }
    if Encodable([line]) {
      assert [line][0] == line;
    }
  }

  lemma OneCode(c: nat)
    ensures CodePoints([c]) <==> c < 0x11_0000
  {
    if CodePoints([c]) {
      assert [c][0] < 0x11_0000;
    }
  }

  lemma NoCodes(s: seq<nat>)
    requires s != []
    ensures !CodePoints(Marks(s))
  {
    assert Marks(s)[0] >= 0x11_0000;
  }

  lemma MoreCodes(line: seq<nat>, more: seq<nat>)
    ensures CodePoints(line + more) <==> CodePoints(line) && CodePoints(more)
  {
    if CodePoints(line + more) {
      forall k | 0 <= k < |more|
        ensures more[k] < 0x11_0000
      {
        assert (line + more)[|line| + k] == more[k];
      }
      assert line == (line + more)[..|line|];
    }
  }

  // ---- The program

  /** Reads the file byte by byte; the result is the lines of Parsed. A file that cannot be
      opened is one empty line. */
  method LoadFile(source: Option<seq<nat>>) returns (res: seq<seq<nat>>)
    ensures source.None? ==> res == [[]]
    ensures source.Some? ==> res == Parsed(source.value, 0, [])
  {
    hide And, Or, Shl;
    res := [];
    if source.None? {
      return [[]];
    }
    var file := source.value;
    var line: seq<nat> := [];
    var i := 0;
    while i < |file|
      invariant res + Parsed(file, i, line) == Parsed(file, 0, [])
      decreases |file| - i
    {
      var c := file[i];
      if c == NEWLINE {
        assert res + ([line] + Parsed(file, i + 1, [])) == res + [line] + Parsed(file, i + 1, []);
        res := res + [line];
        line := [];
        i := i + 1;
        continue;
      }
      ghost var d := Decoded(file, i);
      ghost var before := line;
      if c < 0x80 {
        line := line + [c];
        i := i + 1;
      } else if And(c, 0xe0) == 0xc0 {
        var c2 := Getc(file, i + 1);
        if Follows(c2) {
          line := line + [Two(c, c2)];
        } else {
          line := line + Marked([c, c2]);
        }
        i := i + 2;
      } else if And(c, 0xf0) == 0xe0 {
        var c2, c3 := Getc(file, i + 1), Getc(file, i + 2);
        if Follows(c2) && Follows(c3) {
          line := line + [Three(c, c2, c3)];
        } else {
          line := line + Marked([c, c2, c3]);
        }
        i := i + 3;
      } else if And(c, 0xf8) == 0xf0 {
        var c2, c3, c4 := Getc(file, i + 1), Getc(file, i + 2), Getc(file, i + 3);
        if Follows(c2) && Follows(c3) && Follows(c4) {
          line := line + [Four(c, c2, c3, c4)];
        } else {
          line := line + Marked([c, c2, c3, c4]);
        }
        i := i + 4;
      } else {
        line := line + Marked([c]);
        i := i + 1;
      }
      assert line == before + d.0;
    }
    res := res + [line];
  }

  lemma RestOfText(data: seq<seq<nat>>, i: nat)
    requires i < |data|
    ensures Text(data[i..]) == LineBytes(data[i]) + ((if i + 1 < |data| then [NEWLINE] else []) + Text(data[i + 1..]))
  {
    hide LineBytes;
    assert data[i..][1..] == data[i + 1..];
    TextParts(data[i..]);
  }

  /** Writes one line behind what the file holds. */
  method SaveLine(start: seq<nat>, line: seq<nat>) returns (ok: bool, file: seq<nat>)
    ensures ok <==> forall k :: 0 <= k < |line| ==> line[k] < 0x11_0000
    ensures ok ==> file == start + LineBytes(line)
  {
    hide Encoded;
    file := start;
    var j := 0;
    assert line[0..] == line;
    while j < |line|
      invariant j <= |line| && forall k :: 0 <= k < j ==> line[k] < 0x11_0000
      invariant file + LineBytes(line[j..]) == start + LineBytes(line)
    {
      if line[j] >= 0x11_0000 {
        return false, file;
      }
      assert line[j..][1..] == line[j + 1..];
      assert file + (Encoded(line[j]) + LineBytes(line[j + 1..])) == file + Encoded(line[j]) + LineBytes(line[j + 1..]);
      file := file + Encoded(line[j]);
      j := j + 1;
    }
    ok := true;
  }

  /** Writes the lines; fails exactly when some value is not a code point. */
  method SaveFile(data: seq<seq<nat>>) returns (ok: bool, file: seq<nat>)
    ensures ok <==> Encodable(data)
    ensures ok ==> file == Text(data)
  {
    hide Text, LineBytes;
    file := [];
    var i := 0;
    assert data[0..] == data;
    while i < |data|
      invariant i <= |data| && forall k, j :: 0 <= k < i && 0 <= j < |data[k]| ==> data[k][j] < 0x11_0000
      invariant file + (if 0 < i < |data| then [NEWLINE] else []) + Text(data[i..]) == Text(data)
    {
      if i > 0 {
        file := file + [NEWLINE];
      }
      ok, file := SaveLine(file, data[i]);
      if !ok {
        return false, file;
      }
      RestOfText(data, i);
      i := i + 1;
    }
    NoLines();
    assert data[i..] == [];
    ok := true;
  }

  /** Save, then load. */
  method SaveAndLoad(data: seq<seq<nat>>) returns (ok: bool, lines: seq<seq<nat>>)
    ensures ok <==> Encodable(data)
    ensures ok ==> (lines == data <==> data != [] && AllNewlines(data) == 0)
  {
    var file;
    ok, file := SaveFile(data);
    lines := [];
    if ok {
      lines := LoadFile(Some(file));
      SavedLoads(data);
    }
  }

  /** Load, then save. */
  method LoadAndSave(file: seq<nat>) returns (ok: bool, saved: seq<nat>)
    ensures ok && saved == file <==> WellFormed(file)
    ensures Bytes(file) ==> (ok <==> Legible(file, 0))
  {
    hide WellFormed, Legible, CodePoints, Encodable;
    if Bytes(file) {
      LoadedEncodable(file, 0, []);
      NoBytes();
    }
    var lines := LoadFile(Some(file));
    ok, saved := SaveFile(lines);
    LoadedSaves(file);
  }
}
