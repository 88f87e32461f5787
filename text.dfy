/** The string operations of the Rust standard library that the storage
    layer and the command line rely on: `contains`, `trim` and `lines`. */
module Text {

  /** `str::contains` with a string pattern: `pat` occurs in `s` at some
      offset (case-sensitive; the empty pattern occurs everywhere). */
  predicate Contains(s: string, pat: string)
    decreases |s|
  {
    pat <= s || (s != [] && Contains(s[1..], pat))
  }

  /** `pat` starts at offset `i` of `s`. */
  predicate OccursAt(s: string, pat: string, i: nat) {
    i + |pat| <= |s| && s[i..i + |pat|] == pat
  }

  lemma {:induction false} ContainsIff(s: string, pat: string)
    ensures Contains(s, pat) <==> exists i: nat :: OccursAt(s, pat, i)
    decreases |s|
  {
    if pat <= s {
      assert OccursAt(s, pat, 0);
    } else if s != [] {
      ContainsIff(s[1..], pat);
      forall j: nat | OccursAt(s[1..], pat, j)
        ensures OccursAt(s, pat, j + 1)
      {
        assert s[j + 1..j + 1 + |pat|] == s[1..][j..j + |pat|];
      }
      forall i: nat | 0 < i && OccursAt(s, pat, i)
        ensures OccursAt(s[1..], pat, i - 1)
      {
        assert s[1..][i - 1..i - 1 + |pat|] == s[i..i + |pat|];
      }
      assert !OccursAt(s, pat, 0);
    }
  }

  /** Unicode White_Space, the set `char::is_whitespace` tests. */
  predicate IsWhitespace(c: char)
    ensures c == ' ' || c == '\t' || c == '\n' || c == '\r' ==> IsWhitespace(c)
    ensures IsWhitespace(c) ==> !('!' <= c <= '~')
  {
    || ('\t' <= c <= '\r')
    || c == ' '
    || c == '\U{85}'
    || c == '\U{A0}'
    || c == '\U{1680}'
    || ('\U{2000}' <= c <= '\U{200A}')
    || c == '\U{2028}'
    || c == '\U{2029}'
    || c == '\U{202F}'
    || c == '\U{205F}'
    || c == '\U{3000}'
  }

  predicate AllWhitespace(s: string) {
    forall i :: 0 <= i < |s| ==> IsWhitespace(s[i])
  }

  /** `str::trim_start`: the suffix left after dropping leading white space. */
  function TrimStart(s: string): (r: string)
    ensures |r| <= |s| && r == s[|s| - |r|..]
    ensures AllWhitespace(s[..|s| - |r|])
    ensures r == [] || !IsWhitespace(r[0])
    decreases |s|
  {
    if s != [] && IsWhitespace(s[0]) then
      var r := TrimStart(s[1..]);
      assert s[..|s| - |r|] == [s[0]] + s[1..][..|s[1..]| - |r|];
      r
    else s
  }

  /** `str::trim_end`: the prefix left after dropping trailing white space. */
  function TrimEnd(s: string): (r: string)
    ensures |r| <= |s| && r == s[..|r|]
    ensures AllWhitespace(s[|r|..])
    ensures r == [] || !IsWhitespace(r[|r| - 1])
    decreases |s|
  {
    if s != [] && IsWhitespace(s[|s| - 1]) then
      var r := TrimEnd(s[..|s| - 1]);
      assert s[|r|..] == s[..|s| - 1][|r|..] + [s[|s| - 1]];
      r
    else s
  }

  /** `r` is the part of `s` that starts at offset `a`, with only white
      space before and after it. */
  predicate IsMiddle(s: string, r: string, a: int) {
    0 <= a <= |s| - |r| && r == s[a..a + |r|] && AllWhitespace(s[..a]) && AllWhitespace(s[a + |r|..])
  }

  /** `str::trim`: white space dropped at both ends, nowhere else. */
  function Trim(s: string): (r: string)
    ensures |r| <= |s|
    ensures r == [] || (!IsWhitespace(r[0]) && !IsWhitespace(r[|r| - 1]))
    ensures exists a :: IsMiddle(s, r, a)
  {
    var t := TrimStart(s);
    var r := TrimEnd(t);
    MiddleOf(s, t, r);
    r
  }

  /** A prefix of a suffix is a middle part; when only white space was cut
      off on each side, it is a middle part in the sense of `IsMiddle`. */
  lemma MiddleOf(s: string, t: string, r: string)
    requires |t| <= |s| && t == s[|s| - |t|..] && AllWhitespace(s[..|s| - |t|])
    requires |r| <= |t| && r == t[..|r|] && AllWhitespace(t[|r|..])
    ensures IsMiddle(s, r, |s| - |t|)
  {
    assert s[|s| - |t| + |r|..] == t[|r|..];
  }

  /** Text that already starts and ends with a non-white-space character,
      followed by any white space (a line read from the terminal with its
      newline), trims to itself. */
  lemma TrimPadded(s: string, pad: string)
    requires s == [] || (!IsWhitespace(s[0]) && !IsWhitespace(s[|s| - 1]))
    requires AllWhitespace(pad)
    ensures Trim(s + pad) == s
  {
    if s == [] {
      assert s + pad == pad;
      TrimAllWhitespace(pad);
    } else {
      assert TrimStart(s + pad) == s + pad;
      TrimEndPadded(s, pad);
    }
  }

  lemma {:induction false} TrimAllWhitespace(s: string)
    requires AllWhitespace(s)
    ensures TrimStart(s) == []
    ensures Trim(s) == []
    decreases |s|
  {
    if s != [] {
      TrimAllWhitespace(s[1..]);
    }
  }

  lemma {:induction false} TrimEndPadded(s: string, pad: string)
    requires s != [] && !IsWhitespace(s[|s| - 1])
    requires AllWhitespace(pad)
    ensures TrimEnd(s + pad) == s
    decreases |pad|
  {
    if pad == [] {
      assert s + pad == s;
    } else {
      assert (s + pad)[..|s + pad| - 1] == s + pad[..|pad| - 1];
      TrimEndPadded(s, pad[..|pad| - 1]);
    }
  }

  /** Index of the first '\n', or |s| when there is none. */
  function NewlineIndex(s: string): (k: nat)
    ensures k <= |s|
    ensures k < |s| ==> s[k] == '\n'
    ensures forall i :: 0 <= i < k ==> s[i] != '\n'
    decreases |s|
  {
    if s == [] || s[0] == '\n' then 0 else 1 + NewlineIndex(s[1..])
  }

  /** A line ended by "\r\n" loses the '\r' as well. */
  function StripCr(line: string): string {
    if |line| > 0 && line[|line| - 1] == '\r' then line[..|line| - 1] else line
  }

  /** `str::lines`: pieces split after each '\n', each without its '\n' and
      then without one '\r' before it; a final piece without '\n' is kept
      as it is, and a final '\n' does not start an empty line. */
  function Lines(s: string): (ls: seq<string>)
    ensures s == [] <==> ls == []
    decreases |s|
  {
    if s == [] then []
    else
      var k := NewlineIndex(s);
      if k == |s| then [s] else [StripCr(s[..k])] + Lines(s[k + 1..])
  }

  /** A line without '\n' that does not end in '\r', followed by '\n',
      is the first line, and the rest of the text holds the others. */
  lemma LinesCons(line: string, rest: string)
    requires forall i :: 0 <= i < |line| ==> line[i] != '\n'
    requires line == [] || line[|line| - 1] != '\r'
    ensures Lines(line + "\n" + rest) == [line] + Lines(rest)
  {
    var s := line + "\n" + rest;
    assert s[|line|] == '\n';
    assert NewlineIndex(s) == |line| by {
      NewlineIndexAt(s, |line|);
    }
    assert s[..|line|] == line;
    assert s[|line| + 1..] == rest;
  }

  /** A line without '\n' followed by "\r\n" is the first line, without
      the '\r', and the rest of the text holds the others. */
  lemma LinesCrLf(line: string, rest: string)
    requires forall i :: 0 <= i < |line| ==> line[i] != '\n'
    ensures Lines(line + "\r\n" + rest) == [line] + Lines(rest)
  {
    var s := line + "\r\n" + rest;
    assert s[|line| + 1] == '\n';
    assert NewlineIndex(s) == |line| + 1 by {
      NewlineIndexAt(s, |line| + 1);
    }
    assert s[..|line| + 1] == line + "\r";
    assert s[|line| + 2..] == rest;
  }

  lemma {:induction false} NewlineIndexAt(s: string, k: nat)
    requires k < |s| && s[k] == '\n'
    requires forall i :: 0 <= i < k ==> s[i] != '\n'
    ensures NewlineIndex(s) == k
    decreases k
  {
    if k > 0 {
      NewlineIndexAt(s[1..], k - 1);
    }
  }

  /** Text without any '\n' is a single line, kept as it is. */
  lemma LinesSingle(line: string)
    requires line != []
    requires forall i :: 0 <= i < |line| ==> line[i] != '\n'
    ensures Lines(line) == [line]
  {
  }
}
