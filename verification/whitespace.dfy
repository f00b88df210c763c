/**
 * An independent statement of Python's whitespace: the 29 characters for
 * which `str.isspace()` is true, listed by code point, checked against the
 * range-based `Text.IsSpace` that `strip()` uses.
 */
module PythonWhitespace {
  import opened Text

  /** Python's whitespace, character by character: the table behind `str.isspace()`, 29 entries. */
  const Whitespace: seq<char> := [
    '\t', '\n', '\U{b}', '\U{c}', '\r', '\U{1c}', '\U{1d}', '\U{1e}',
    '\U{1f}', ' ', '\U{85}', '\U{a0}', '\U{1680}', '\U{2000}', '\U{2001}', '\U{2002}',
    '\U{2003}', '\U{2004}', '\U{2005}', '\U{2006}', '\U{2007}', '\U{2008}', '\U{2009}', '\U{200a}',
    '\U{2028}', '\U{2029}', '\U{202f}', '\U{205f}', '\U{3000}'
  ]

  /** `IsSpace` holds exactly for the 29 listed characters, which are listed in increasing order, so all different. */
  lemma IsSpaceIsListed(c: char)
    ensures IsSpace(c) <==> c in Whitespace
    ensures |Whitespace| == 29
    ensures forall k :: 0 <= k < |Whitespace| - 1 ==> Whitespace[k] < Whitespace[k + 1]
  {
    ListedAreSpace();
    if IsSpace(c) {
      SpaceIsListed(c);
    }
    WhitespaceAscending();
  }

  lemma ListedAreSpace()
    ensures forall k :: 0 <= k < |Whitespace| ==> IsSpace(Whitespace[k])
  {
  }

  lemma SpaceIsListed(c: char)
    requires IsSpace(c)
    ensures c in Whitespace
  {
    var k :=
      if '\t' <= c <= '\r' then c as int - 9
      else if '\U{1c}' <= c <= '\U{1f}' then c as int - 0x1c + 5
      else if c == ' ' then 9
      else if c == '\U{85}' then 10
      else if c == '\U{a0}' then 11
      else if c == '\U{1680}' then 12
      else if '\U{2000}' <= c <= '\U{200a}' then c as int - 0x2000 + 13
      else if c == '\U{2028}' then 24
      else if c == '\U{2029}' then 25
      else if c == '\U{202f}' then 26
      else if c == '\U{205f}' then 27
      else 28;
    assert Whitespace[k] == c;
  }

  /** The table is in increasing order, so no character is listed twice. */
  lemma WhitespaceAscending()
    ensures forall k :: 0 <= k < |Whitespace| - 1 ==> Whitespace[k] < Whitespace[k + 1]
  {
    AscendingFirst();
    AscendingSecond();
    AscendingThird();
    AscendingFourth();
  }

  lemma AscendingFirst()
    ensures forall k :: 0 <= k < 7 ==> Whitespace[k] < Whitespace[k + 1]
  {
    var W := Whitespace;
    assert W[0] < W[1];
    assert W[1] < W[2];
    assert W[2] < W[3];
    assert W[3] < W[4];
    assert W[4] < W[5];
    assert W[5] < W[6];
    assert W[6] < W[7];
  }

  lemma AscendingSecond()
    ensures forall k :: 7 <= k < 14 ==> Whitespace[k] < Whitespace[k + 1]
  {
    var W := Whitespace;
    assert W[7] < W[8];
    assert W[8] < W[9];
    assert W[9] < W[10];
    assert W[10] < W[11];
    assert W[11] < W[12];
    assert W[12] < W[13];
    assert W[13] < W[14];
  }

  lemma AscendingThird()
    ensures forall k :: 14 <= k < 21 ==> Whitespace[k] < Whitespace[k + 1]
  {
    var W := Whitespace;
    assert W[14] < W[15];
    assert W[15] < W[16];
    assert W[16] < W[17];
    assert W[17] < W[18];
    assert W[18] < W[19];
    assert W[19] < W[20];
    assert W[20] < W[21];
  }

  lemma AscendingFourth()
    ensures forall k :: 21 <= k < 28 ==> Whitespace[k] < Whitespace[k + 1]
  {
    var W := Whitespace;
    assert W[21] < W[22];
    assert W[22] < W[23];
    assert W[23] < W[24];
    assert W[24] < W[25];
    assert W[25] < W[26];
    assert W[26] < W[27];
    assert W[27] < W[28];
  }
}
