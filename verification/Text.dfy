// The parts of Rust's str and char that the modelled code relies on.
module Text {
  import opened Prelude

  predicate IsAsciiDigit(c: char)
  {
    '0' <= c <= '9'
  }

  predicate IsAsciiAlphanumeric(c: char)
  {
    IsAsciiDigit(c) || 'a' <= c <= 'z' || 'A' <= c <= 'Z'
  }

  // char::is_control: the Unicode category Cc.
  predicate IsControl(c: char)
  {
    c < ' ' || '\U{7F}' <= c <= '\U{9F}'
  }

  // char::is_whitespace: the Unicode property White_Space.
  predicate IsWhitespace(c: char)
  {
    || '\U{09}' <= c <= '\U{0D}'
    || c in {' ', '\U{85}', '\U{A0}', '\U{1680}', '\U{2028}', '\U{2029}', '\U{202F}', '\U{205F}', '\U{3000}'}
    || '\U{2000}' <= c <= '\U{200A}'
  }

  function Utf8Width(c: char): (n: nat)
    ensures 1 <= n <= 4
    ensures n == 1 <==> c <= '\U{7F}'
  {
    if c <= '\U{7F}' then 1
    else if c <= '\U{7FF}' then 2
    else if c <= '\U{FFFF}' then 3
    else 4
  }

  // str::len: the number of UTF-8 bytes.
  function ByteLength(s: string): (n: nat)
    ensures n >= |s|
    ensures n == |s| <==> forall i | 0 <= i < |s| :: s[i] <= '\U{7F}'
  {
    if s == [] then 0 else
      assert forall i | 0 < i < |s| :: s[i] == s[1..][i - 1];
      Utf8Width(s[0]) + ByteLength(s[1..])
  }

  predicate OccursAt(s: string, sub: string, i: int)
  {
    0 <= i <= |s| - |sub| && s[i..i + |sub|] == sub
  }

  predicate Contains(s: string, sub: string)
  {
    exists i | 0 <= i <= |s| :: OccursAt(s, sub, i)
  }

  function TrimStart(s: string): (r: string)
    ensures |r| <= |s| && r == s[|s| - |r|..]
    ensures r != [] ==> !IsWhitespace(r[0])
    ensures forall i | 0 <= i < |s| - |r| :: IsWhitespace(s[i])
  {
    if s != [] && IsWhitespace(s[0]) then
      var r := TrimStart(s[1..]);
      assert s[|s| - |r|..] == s[1..][|s| - 1 - |r|..];
      assert forall i | 0 < i < |s| - |r| :: s[i] == s[1..][i - 1];
      r
    else s
  }

  function TrimEnd(s: string): (r: string)
    ensures |r| <= |s| && r == s[..|r|]
    ensures r != [] ==> !IsWhitespace(r[|r| - 1])
    ensures forall i | |r| <= i < |s| :: IsWhitespace(s[i])
  {
    if s != [] && IsWhitespace(s[|s| - 1]) then TrimEnd(s[..|s| - 1]) else s
  }

  // str::trim
  function Trim(s: string): (r: string)
    ensures r != [] ==> !IsWhitespace(r[0]) && !IsWhitespace(r[|r| - 1])
  {
    TrimEnd(TrimStart(s))
  }

  function ToAsciiLower(c: char): char
  {
    if 'A' <= c <= 'Z' then (c as int + 32) as char else c
  }

  // str::to_ascii_lowercase
  function ToAsciiLowercase(s: string): string
  {
    seq(|s|, i requires 0 <= i < |s| => ToAsciiLower(s[i]))
  }

  // str::eq_ignore_ascii_case
  predicate EqIgnoreAsciiCase(a: string, b: string)
  {
    |a| == |b| && forall i | 0 <= i < |a| :: ToAsciiLower(a[i]) == ToAsciiLower(b[i])
  }

  // The same letter, or the upper and the lower case of one ASCII letter.
  predicate SameLetter(c: char, d: char)
  {
    || c == d
    || ('A' <= c <= 'Z' && d as int - c as int == 'a' as int - 'A' as int)
    || ('A' <= d <= 'Z' && c as int - d as int == 'a' as int - 'A' as int)
  }

  predicate SameLetters(a: string, b: string)
  {
    |a| == |b| && forall i | 0 <= i < |a| :: SameLetter(a[i], b[i])
  }

  lemma LowerCaseTellsLetters(c: char, d: char)
    ensures ToAsciiLower(c) == ToAsciiLower(d) <==> SameLetter(c, d)
  {
  }

  // Case-insensitive equality holds exactly letter by letter.
  lemma EqIgnoreAsciiCaseIff(a: string, b: string)
    ensures EqIgnoreAsciiCase(a, b) <==> SameLetters(a, b)
  {
    hide ToAsciiLower, SameLetter;
    if |a| == |b| {
      forall i | 0 <= i < |a| ensures ToAsciiLower(a[i]) == ToAsciiLower(b[i]) <==> SameLetter(a[i], b[i]) {
        LowerCaseTellsLetters(a[i], b[i]);
      }
    }
  }

  predicate Blank(s: string)
  {
    forall i | 0 <= i < |s| :: IsWhitespace(s[i])
  }

  // Trimming takes blanks off both ends and nothing else, and takes off all of them.
  lemma TrimIsBetweenBlanks(s: string)
    ensures exists before, after ::
      && s == before + Trim(s) + after && Blank(before) && Blank(after)
    ensures Trim(s) != "" ==> !IsWhitespace(Trim(s)[0]) && !IsWhitespace(Trim(s)[|Trim(s)| - 1])
  {
    hide IsWhitespace, TrimStart, TrimEnd;
    var front := TrimStart(s);
    var n, m := |s| - |front|, |TrimEnd(front)|;
    var before, after := s[..n], front[m..];
    SplitsAt(s, n);
    SplitsAt(front, m);
    BlankSlice(s, 0, n);
    BlankSlice(front, m, |front|);
    assert s == before + Trim(s) + after;
    assert s[0..n] == before && front[m..|front|] == after;
  }

  lemma SplitsAt(s: string, n: nat)
    requires n <= |s|
    ensures s == s[..n] + s[n..]
  {
  }

  lemma BlankSlice(s: string, lo: nat, hi: nat)
    requires lo <= hi <= |s| && forall i | lo <= i < hi :: IsWhitespace(s[i])
    ensures Blank(s[lo..hi])
  {
    hide IsWhitespace;
  }
}
