/** Python string operations used by the console prompts: `str.strip()` with no
    argument and the lowering used by the yes/no prompt. */
module Text {

  /** Python's `str.isspace` set: the characters `str.strip()` removes. */
  predicate IsSpace(c: char)
  {
    || c == ' '
    || ('\t' <= c <= '\r')
    || ('\U{1C}' <= c <= '\U{1F}')
    || c == '\U{85}' || c == '\U{A0}' || c == '\U{1680}'
    || ('\U{2000}' <= c <= '\U{200A}')
    || c == '\U{2028}' || c == '\U{2029}' || c == '\U{202F}'
    || c == '\U{205F}' || c == '\U{3000}'
  }

  ghost predicate AllSpace(s: string)
  {
    forall i :: 0 <= i < |s| ==> IsSpace(s[i])
  }

  /** Removes the leading whitespace (see TrimLeftSpec). */
  function TrimLeft(s: string): string
  {
    if s != [] && IsSpace(s[0]) then TrimLeft(s[1..]) else s
  }

  /** Removes the trailing whitespace (see TrimRightSpec). */
  function TrimRight(s: string): string
  {
    if s != [] && IsSpace(s[|s| - 1]) then TrimRight(s[..|s| - 1]) else s
  }

  /** `s.strip()` (see StripSpec). */
  function Strip(s: string): string
  {
    TrimRight(TrimLeft(s))
  }

  /** TrimLeft keeps the longest suffix of `s` that does not start with
      whitespace; everything it cuts off is whitespace. */
  lemma {:induction false} TrimLeftSpec(s: string)
    ensures |TrimLeft(s)| <= |s| && TrimLeft(s) == s[|s| - |TrimLeft(s)|..]
    ensures AllSpace(s[..|s| - |TrimLeft(s)|])
    ensures TrimLeft(s) == [] || !IsSpace(TrimLeft(s)[0])
  {
    if s != [] && IsSpace(s[0]) {
      TrimLeftSpec(s[1..]);
      var k := |s[1..]| - |TrimLeft(s[1..])|;
      assert s[..k + 1] == [s[0]] + s[1..][..k];
    }
  }

  /** TrimRight keeps the longest prefix of `s` that does not end with
      whitespace; everything it cuts off is whitespace. */
  lemma {:induction false} TrimRightSpec(s: string)
    ensures |TrimRight(s)| <= |s| && TrimRight(s) == s[..|TrimRight(s)|]
    ensures AllSpace(s[|TrimRight(s)|..])
    ensures TrimRight(s) == [] || !IsSpace(TrimRight(s)[|TrimRight(s)| - 1])
  {
    if s != [] && IsSpace(s[|s| - 1]) {
      var t := s[..|s| - 1];
      TrimRightSpec(t);
      var r := TrimRight(t);
      assert s[|r|..] == t[|r|..] + [s[|s| - 1]];
      assert r == t[..|r|] == s[..|r|];
    }
  }

  /** `s.strip()` is the piece of `s` left between its leading and its
      trailing whitespace; it neither starts nor ends with whitespace. */
  lemma StripSpec(s: string)
    ensures var r, a := Strip(s), |s| - |TrimLeft(s)|;
      && 0 <= a && a + |r| <= |s| && r == s[a..a + |r|]
      && AllSpace(s[..a]) && AllSpace(s[a + |r|..])
      && (r == [] || (!IsSpace(r[0]) && !IsSpace(r[|r| - 1])))
  {
    var t := TrimLeft(s);
    TrimLeftSpec(s);
    TrimRightSpec(t);
    var r, a := Strip(s), |s| - |t|;
    assert r == t[..|r|];
    assert t == s[a..];
    assert s[a + |r|..] == t[|r|..];
  }

  /** Stripping twice is stripping once. */
  lemma StripIdempotent(s: string)
    ensures Strip(Strip(s)) == Strip(s)
  {
    var r := Strip(s);
    StripSpec(s);
    assert TrimLeft(r) == r;
    assert TrimRight(r) == r;
  }

  /** A label is empty after `strip()` exactly when it is made only of whitespace. */
  lemma StripEmptyIff(s: string)
    ensures Strip(s) == [] <==> AllSpace(s)
  {
    var t := TrimLeft(s);
    TrimLeftSpec(s);
    TrimRightSpec(t);
    if Strip(s) == [] {
      assert AllSpace(t[0..]);
    } else {
      var r := Strip(s);
      assert r == t[..|r|];
      assert r[0] == t[0] == s[|s| - |t|];
    }
  }

  /** The lowering of the yes/no prompt. Only `A`..`Z` are mapped. */
  function LowerChar(c: char): char
  {
    if 'A' <= c <= 'Z' then (c as int + 32) as char else c
  }

  function Lower(s: string): (r: string)
    ensures |r| == |s|
    ensures forall i :: 0 <= i < |s| ==> r[i] == LowerChar(s[i])
  {
    if s == [] then [] else [LowerChar(s[0])] + Lower(s[1..])
  }

  lemma LowerCharIs(c: char, lower: char)
    requires 'a' <= lower <= 'z'
    ensures LowerChar(c) == lower <==> c == lower || c as int == lower as int - 32
  {
  }

  /** A reply lowers to "yes" exactly when it is three characters spelling
      y, e, s in any mix of cases; no whitespace is tolerated. */
  lemma {:induction false} LowerIsYes(s: string)
    ensures Lower(s) == "yes" <==>
      |s| == 3 && (s[0] == 'y' || s[0] == 'Y') && (s[1] == 'e' || s[1] == 'E')
      && (s[2] == 's' || s[2] == 'S')
  {
    LowerCharsAre(s, "yes");
  }

  lemma {:induction false} LowerIsNo(s: string)
    ensures Lower(s) == "no" <==>
      |s| == 2 && (s[0] == 'n' || s[0] == 'N') && (s[1] == 'o' || s[1] == 'O')
  {
    LowerCharsAre(s, "no");
  }

  /** `Lower(s)` equals a lower-case word exactly when each character of `s`
      is that word's letter or its upper-case form. */
  lemma {:induction false} LowerCharsAre(s: string, word: string)
    requires forall i :: 0 <= i < |word| ==> 'a' <= word[i] <= 'z'
    ensures Lower(s) == word <==>
      |s| == |word| && forall i :: 0 <= i < |s| ==>
        s[i] == word[i] || s[i] as int == word[i] as int - 32
  {
    forall i | 0 <= i < |s| && i < |word| {
      LowerCharIs(s[i], word[i]);
    }
    if |s| == |word| && forall i :: 0 <= i < |s| ==> LowerChar(s[i]) == word[i] {
      assert Lower(s) == word;
    }
  }
}
