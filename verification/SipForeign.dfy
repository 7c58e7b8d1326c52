// Messages as other programs may write them: header fields in any place, any letter case of
// Content-Length, and any white space around names and values.
module SipForeign {
  import opened Prelude
  import opened SipText

  /** Blank, tab, line feed, vertical tab, form feed, carriage return. */
  ghost predicate Spaces(s: seq<byte>) {
    forall i :: 0 <= i < |s| ==> s[i] in {32, 9, 10, 11, 12, 13}
  }

  /** The same and the four separators of ASCII. */
  ghost predicate Blanks(s: seq<byte>) {
    forall i :: 0 <= i < |s| ==> s[i] in {32, 9, 10, 11, 12, 13, 28, 29, 30, 31}
  }

  /** Starts and ends with something else. */
  ghost predicate Bare(s: seq<byte>) {
    s == [] || (!Blanks([s[0]]) && !Blanks([s[|s| - 1]]))
  }

  // ----- header fields -----

  lemma BlankIsBlank(b: byte)
    ensures Blanks([b]) <==> BlankByte(b)
  {
    assert [b][0] == b;
  }

  lemma {:induction false} LeftIsStripped(before: seq<byte>, s: seq<byte>)
    requires Blanks(before) && (s == [] || !BlankByte(s[0]))
    ensures StripLeft(before + s) == s
  {
    if before == [] {
      assert before + s == s;
    } else {
      BlankIsBlank(before[0]);
      assert (before + s)[1..] == before[1..] + s;
      LeftIsStripped(before[1..], s);
    }
  }

  lemma {:induction false} RightIsStripped(s: seq<byte>, behind: seq<byte>)
    requires Blanks(behind) && (s == [] || !BlankByte(s[|s| - 1]))
    ensures StripRight(s + behind) == s
  {
    if behind == [] {
      assert s + behind == s;
    } else {
      var last := |behind| - 1;
      BlankIsBlank(behind[last]);
      assert (s + behind)[..|s + behind| - 1] == s + behind[..last];
      RightIsStripped(s, behind[..last]);
    }
  }

  /** White space on both sides goes, and nothing else does. */
  lemma StrippedExactly(before: seq<byte>, s: seq<byte>, behind: seq<byte>)
    requires Blanks(before) && Blanks(behind) && Bare(s)
    ensures StripBytes(before + s + behind) == s
  {
    if s == [] {
      assert Blanks(before + behind);
      LeftIsStripped(before + behind, []);
      assert before + s + behind == before + behind + [];
    } else {
      BlankIsBlank(s[0]);
      BlankIsBlank(s[|s| - 1]);
      LeftIsStripped(before, s + behind);
      assert before + s + behind == before + (s + behind);
      RightIsStripped(s, behind);
    }
  }

  /** One header line: name and value are found whatever white space stands around them. */
  lemma FieldReads(w1: seq<byte>, name: seq<byte>, w2: seq<byte>, w3: seq<byte>, value: seq<byte>, w4: seq<byte>)
    requires Blanks(w1) && Blanks(w2) && Blanks(w3) && Blanks(w4) && Bare(name) && Bare(value) && 58 !in name
    ensures ParseHeaders([w1 + name + w2 + ([58] + (w3 + value + w4))]) == [(name, value)]
  {
    hide FindBytes, StripBytes;
    var (left, right) := (w1 + name + w2, w3 + value + w4);
    var line := left + ([58] + right);
    FindSkips(COLON, left, COLON + right);
    FindHere(COLON, right);
    assert line[..|left|] == left && line[|left| + 1..] == right;
    StrippedExactly(w1, name, w2);
    StrippedExactly(w3, value, w4);
    assert [line][1..] == [];
  }

  /** A line without a colon is no header. */
  lemma NoField(line: seq<byte>)
    requires 58 !in line
    ensures ParseHeaders([line]) == []
  {
    FindSkips(COLON, line, []);
    assert line + [] == line && [line][1..] == [];
    hide StripBytes;
  }

  // ----- Content-Length -----

  // "content-length:"
  const KEY: seq<byte> := [99, 111, 110, 116, 101, 110, 116, 45, 108, 101, 110, 103, 116, 104, 58]

  /** The key in any letter case. */
  ghost predicate LengthKey(key: seq<byte>) {
    && |key| == 15
    && forall i :: 0 <= i < 15 ==> key[i] == KEY[i] || (97 <= KEY[i] <= 122 && key[i] == KEY[i] - 32)
  }

  lemma KeyIsFound(key: seq<byte>, rest: seq<byte>)
    requires LengthKey(key)
    ensures KeyAt(key + rest) && (key + rest)[15..] == rest
  {
    assert (key + rest)[..15] == key;
    forall i | 0 <= i < 15 ensures LowerByte(key[i]) == KEY[i] {
      assert KEY[i] in {45, 58} || 97 <= KEY[i] <= 122;
    }
    assert LowerBytes(key) == KEY == LENGTH_KEY;
  }

  lemma {:induction false} SpacesAreSkipped(spaces: seq<byte>, s: seq<byte>)
    requires Spaces(spaces) && (s == [] || !SpaceByte(s[0]))
    ensures SkipSpace(spaces + s) == s
  {
    if spaces == [] {
      assert spaces + s == s;
    } else {
      assert (spaces + s)[1..] == spaces[1..] + s;
      SpacesAreSkipped(spaces[1..], s);
    }
  }

  lemma {:induction false} DigitsAreTaken(d: seq<byte>, rest: seq<byte>)
    requires forall i :: 0 <= i < |d| ==> DigitByte(d[i])
    requires rest == [] || !(48 <= rest[0] <= 57)
    ensures DigitPrefix(d + rest) == d
  {
    if d == [] {
      assert d + rest == rest;
    } else {
      assert (d + rest)[1..] == d[1..] + rest;
      DigitsAreTaken(d[1..], rest);
    }
  }

  /** The digits behind the key count, up to the first byte that is none. */
  lemma LengthReads(key: seq<byte>, spaces: seq<byte>, n: nat, rest: seq<byte>)
    requires LengthKey(key) && Spaces(spaces) && (rest == [] || !(48 <= rest[0] <= 57))
    ensures LengthAt(key + (spaces + (Dec(n) + rest))) == Some(n)
  {
    NatOfDec(n);
    assert DigitByte(Dec(n)[0]) && (Dec(n) + rest)[0] == Dec(n)[0];
    hide KeyAt, SkipSpace, DigitPrefix, NatOf, Dec, LengthKey, Spaces;
    KeyIsFound(key, spaces + (Dec(n) + rest));
    SpacesAreSkipped(spaces, Dec(n) + rest);
    DigitsAreTaken(Dec(n), rest);
  }

  /** A key without digits behind it is passed over. */
  lemma NoDigitsNoLength(key: seq<byte>, spaces: seq<byte>, rest: seq<byte>)
    requires LengthKey(key) && Spaces(spaces)
    requires rest == [] || !(48 <= rest[0] <= 57 || 9 <= rest[0] <= 13 || rest[0] == 32)
    ensures LengthAt(key + (spaces + rest)) == None
  {
    KeyIsFound(key, spaces + rest);
    SpacesAreSkipped(spaces, rest);
    hide KeyAt, SkipSpace;
  }

  function Terminated(lines: seq<seq<byte>>): seq<byte> {
    if lines == [] then [] else lines[0] + (CRLF + Terminated(lines[1..]))
  }

  /** Behind any lines that do not hold the key, and with anything behind it, the length is found. */
  lemma {:induction false} LengthAmongFields(lines: seq<seq<byte>>, key: seq<byte>, spaces: seq<byte>, n: nat,
                                             rest: seq<byte>)
    requires forall i :: 0 <= i < |lines| ==> PlainLine(lines[i])
    requires LengthKey(key) && Spaces(spaces) && (rest == [] || !(48 <= rest[0] <= 57))
    ensures ContentLength(Terminated(lines) + (key + (spaces + (Dec(n) + rest)))) == n
    ensures SearchLength(Terminated(lines) + (key + (spaces + (Dec(n) + rest)))) == Some(n)
  {
    var tail := key + (spaces + (Dec(n) + rest));
    if lines == [] {
      LengthReads(key, spaces, n, rest);
      assert Terminated(lines) + tail == tail;
      hide LengthAt;
    } else {
      assert Terminated(lines) + tail == lines[0] + (CRLF + (Terminated(lines[1..]) + tail));
      LengthAmongFields(lines[1..], key, spaces, n, rest);
      SearchSkipsLine(lines[0], Terminated(lines[1..]) + tail);
      hide SearchLength;
    }
  }
}
