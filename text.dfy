/** The two Python string methods the submission rule relies on:
    `str.strip()` without arguments and `str.isdigit()`. */
module Text {

  /** The characters Python's `str.isspace()` accepts, and therefore the
      characters `str.strip()` removes from both ends of a string. */
  predicate IsSpace(c: char) {
    var n := c as int;
    || (0x09 <= n <= 0x0D)      // tab, line feed, vertical tab, form feed, carriage return
    || (0x1C <= n <= 0x1F)      // file, group, record and unit separators
    || n == 0x20                // space
    || n == 0x85                // next line
    || n == 0xA0                // no-break space
    || n == 0x1680              // ogham space mark
    || (0x2000 <= n <= 0x200A)  // en quad .. hair space
    || n == 0x2028 || n == 0x2029
    || n == 0x202F || n == 0x205F || n == 0x3000
  }

  /** A decimal digit; only the ASCII digits are modelled. */
  predicate IsAsciiDigit(c: char) {
    '0' <= c <= '9'
  }

  /** Every character of `s` is whitespace (true of the empty string). */
  predicate Blank(s: string) {
    forall i :: 0 <= i < |s| ==> IsSpace(s[i])
  }

  /** `s` with its leading whitespace removed. */
  function TrimStart(s: string): string {
    if s != [] && IsSpace(s[0]) then TrimStart(s[1..]) else s
  }

  /** `s` with its trailing whitespace removed. */
  function TrimEnd(s: string): string {
    if s != [] && IsSpace(s[|s| - 1]) then TrimEnd(s[..|s| - 1]) else s
  }

  /** `TrimStart` cuts a whitespace-only prefix and stops at the first
      character that is not whitespace. */
  lemma {:induction false} TrimStartSpec(s: string)
    ensures var r := TrimStart(s);
            && |r| <= |s| && r == s[|s| - |r|..]
            && Blank(s[..|s| - |r|])
            && (r == [] || !IsSpace(r[0]))
  {
    if s != [] && IsSpace(s[0]) {
      TrimStartSpec(s[1..]);
      var r := TrimStart(s[1..]);
      assert s[..|s| - |r|] == [s[0]] + s[1..][..|s| - 1 - |r|];
    }
  }

  /** `TrimEnd` cuts a whitespace-only suffix and stops at the last
      character that is not whitespace. */
  lemma {:induction false} TrimEndSpec(s: string)
    ensures var r := TrimEnd(s);
            && |r| <= |s| && r == s[..|r|]
            && Blank(s[|r|..])
            && (r == [] || !IsSpace(r[|r| - 1]))
  {
    if s != [] && IsSpace(s[|s| - 1]) {
      var t := s[..|s| - 1];
      TrimEndSpec(t);
      var r := TrimEnd(t);
      assert s[|r|..] == t[|r|..] + [s[|s| - 1]];
    }
  }

  /** Python's `s.strip()`: whitespace cut from both ends. */
  function Strip(s: string): string {
    TrimEnd(TrimStart(s))
  }

  /** What `Strip` keeps is an infix of `s` that neither starts nor ends with
      whitespace, and what it cuts on either side is whitespace only. */
  lemma StripSpec(s: string) returns (k: nat)
    ensures var r := Strip(s);
            && k + |r| <= |s| && r == s[k..k + |r|]
            && Blank(s[..k]) && Blank(s[k + |r|..])
            && (r == [] || (!IsSpace(r[0]) && !IsSpace(r[|r| - 1])))
  {
    var t := TrimStart(s);
    TrimStartSpec(s);
    TrimEndSpec(t);
    var r := TrimEnd(t);
    k := |s| - |t|;
    assert r == s[k..k + |r|];
    assert s[k + |r|..] == t[|r|..];
  }

  lemma BlankConcat(a: string, b: string)
    requires Blank(a) && Blank(b)
    ensures Blank(a + b)
  {
    forall i | 0 <= i < |a + b| ensures IsSpace((a + b)[i]) {
      if i < |a| { assert (a + b)[i] == a[i]; } else { assert (a + b)[i] == b[i - |a|]; }
    }
  }

  /** A field is empty after stripping exactly when it was whitespace only. */
  lemma StripEmptyIffBlank(s: string)
    ensures Strip(s) == [] <==> Blank(s)
  {
    var r := Strip(s);
    var k := StripSpec(s);
    if r == [] {
      assert s == s[..k] + s[k..];
      BlankConcat(s[..k], s[k..]);
    } else {
      assert r[0] == s[k];
    }
  }

  /** A string with no whitespace at either end strips to itself. */
  lemma StripUntouched(s: string)
    requires s == [] || (!IsSpace(s[0]) && !IsSpace(s[|s| - 1]))
    ensures Strip(s) == s
  {
    assert TrimStart(s) == s;
    assert TrimEnd(s) == s;
  }

  /** Stripping twice is stripping once. */
  lemma StripIdempotent(s: string)
    ensures Strip(Strip(s)) == Strip(s)
  {
    var k := StripSpec(s);
    StripUntouched(Strip(s));
  }

  /** Python's `s.isdigit()`: `s` is non-empty and made of digits only. */
  function IsDigitString(s: string): (b: bool)
    ensures b <==> s != [] && forall i :: 0 <= i < |s| ==> IsAsciiDigit(s[i])
  {
    s != [] && IsAsciiDigit(s[0]) && (|s| == 1 || IsDigitString(s[1..]))
  }
}
