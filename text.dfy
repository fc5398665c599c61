/** String helpers the components use: JavaScript's `String.prototype.trim` and
    the `sliceStringByChars` truncation that Task.js and DoneTasks.js both define. */
module Text {

  /** The characters `trim` removes: JavaScript's WhiteSpace and LineTerminator
      code points (section 12.2 and 12.3 of ECMA-262). */
  predicate IsJsSpace(c: char)
  {
    c == '\t' || c == '\n' || c == '\U{000B}' || c == '\U{000C}' || c == '\r' || c == ' '
    || c == '\U{00A0}' || c == '\U{1680}' || ('\U{2000}' <= c <= '\U{200A}')
    || c == '\U{2028}' || c == '\U{2029}' || c == '\U{202F}' || c == '\U{205F}'
    || c == '\U{3000}' || c == '\U{FEFF}'
  }

  /** Empty or made only of spaces. */
  predicate IsBlank(s: string)
  {
    forall i :: 0 <= i < |s| ==> IsJsSpace(s[i])
  }

  /** Index of the first character that is not a space (|s| when there is none). */
  function ContentStart(s: string): (i: nat)
    ensures i <= |s|
    ensures IsBlank(s[..i])
    ensures i < |s| ==> !IsJsSpace(s[i])
  {
    if s != [] && IsJsSpace(s[0]) then
      var k := ContentStart(s[1..]);
      assert s[..k + 1] == [s[0]] + s[1..][..k];
      k + 1
    else 0
  }

  /** One past the last character that is not a space (0 when there is none). */
  function ContentEnd(s: string): (j: nat)
    ensures j <= |s|
    ensures IsBlank(s[j..])
    ensures j > 0 ==> !IsJsSpace(s[j - 1])
  {
    if s != [] && IsJsSpace(s[|s| - 1]) then
      var k := ContentEnd(s[..|s| - 1]);
      assert s[k..] == s[..|s| - 1][k..] + [s[|s| - 1]];
      k
    else |s|
  }

  /** `s.trim()`: leading spaces are cut, then trailing ones. */
  function Trim(s: string): string
  {
    var t := s[ContentStart(s)..];
    t[..ContentEnd(t)]
  }

  /** What trimming promises: the result is a slice of `s` with only spaces cut
      away on either side, it starts and ends with a non-space, and it is empty
      exactly when `s` is blank. */
  lemma TrimSpec(s: string)
    ensures var r := Trim(s);
      && (r == [] <==> IsBlank(s))
      && (r != [] ==> !IsJsSpace(r[0]) && !IsJsSpace(r[|r| - 1]))
      && exists i, j :: 0 <= i <= j <= |s| && r == s[i..j] && IsBlank(s[..i]) && IsBlank(s[j..])
  {
    var i := ContentStart(s);
    var t := s[i..];
    var j := ContentEnd(t);
    var r := Trim(s);
    assert r == s[i..i + j];
    assert s[i + j..] == t[j..];
    if r == [] {
      assert j == 0;
    }
    if r != [] {
      assert r[0] == t[0];
      if i == |s| {
        assert false;
      }
    }
  }

  lemma TrimEmptyIffBlank(s: string)
    ensures Trim(s) == [] <==> IsBlank(s)
  {
    TrimSpec(s);
  }

  /** Trimming twice is trimming once. */
  lemma TrimIdempotent(s: string)
    ensures Trim(Trim(s)) == Trim(s)
  {
    var r := Trim(s);
    TrimSpec(s);
    if r != [] {
      assert ContentStart(r) == 0;
      assert ContentEnd(r) == |r|;
      assert r[0..] == r;
    } else {
      assert Trim(r) == [];
    }
  }

  /** `sliceStringByChars(str, n)`: longer strings are cut to `n` characters and marked with "...". */
  function SliceByChars(s: string, n: nat): string
  {
    if |s| > n then s[..n] + "..." else s
  }

  /** The truncation keeps the first `n` characters (or all of a short string),
      never yields more than `n` + 3 characters, and leaves a short string alone. */
  lemma SliceByCharsSpec(s: string, n: nat)
    ensures var r := SliceByChars(s, n);
      && |r| <= n + 3
      && (|s| <= n ==> r == s)
      && (|s| > n ==> |r| == n + 3 && r[..n] == s[..n] && r[n..] == "...")
  {
  }

  /** A truncated string does not get truncated again. */
  lemma SliceByCharsIdempotent(s: string, n: nat)
    ensures SliceByChars(SliceByChars(s, n), n) == SliceByChars(s, n)
  {
    var r := SliceByChars(s, n);
    if |s| > n {
      assert r[..n] == s[..n];
    }
  }
}
