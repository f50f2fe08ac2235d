/** String operations the parser takes from Python's `str` and `re`: stripping,
    splitting on a space, substring search, and the few regular expressions it
    uses, each written out as a predicate or a scan over the characters. */
module Text {

  // ---------------------------------------------------------------------------
  // Whitespace and stripping

  /** The characters `str.isspace()` accepts: they are what `str.strip()` removes. */
  predicate IsSpace(c: char) {
    c == ' ' || ('\t' <= c <= '\r') || ('\U{001C}' <= c <= '\U{001F}')
    || c == '\U{0085}' || c == '\U{00A0}' || c == '\U{1680}' || ('\U{2000}' <= c <= '\U{200A}')
    || c == '\U{2028}' || c == '\U{2029}' || c == '\U{202F}' || c == '\U{205F}' || c == '\U{3000}'
  }

  /** `s.lstrip()`: s without its leading whitespace. */
  function TrimStart(s: string): (r: string)
    ensures |r| <= |s| && r == s[|s| - |r|..]
    ensures forall k :: 0 <= k < |s| - |r| ==> IsSpace(s[k])
    ensures r == [] || !IsSpace(r[0])
  {
    if s != [] && IsSpace(s[0]) then TrimStart(s[1..]) else s
  }

  /** `s.rstrip()`: s without its trailing whitespace. */
  function TrimEnd(s: string): (r: string)
    ensures |r| <= |s| && r == s[..|r|]
    ensures forall k :: |r| <= k < |s| ==> IsSpace(s[k])
    ensures r == [] || !IsSpace(r[|r| - 1])
  {
    if s != [] && IsSpace(s[|s| - 1]) then TrimEnd(s[..|s| - 1]) else s
  }

  /** `s.strip()`: the slice of s left once its leading and trailing whitespace is
      removed; what remains neither starts nor ends with whitespace. */
  function Strip(s: string): (r: string)
    ensures |r| <= |s|
    ensures r == [] || (!IsSpace(r[0]) && !IsSpace(r[|r| - 1]))
  {
    var t := TrimStart(s);
    var r := TrimEnd(t);
    assert r != [] ==> r[0] == t[0];
    r
  }

  /** The stripped text is a slice of s with only whitespace before and after it. */
  lemma StripIsSlice(s: string)
    ensures exists a :: StripsTo(s, a, Strip(s))
  {
    var t := TrimStart(s);
    var a := |s| - |t|;
    StripSlice(s, t, TrimEnd(t), a);
    assert StripsTo(s, a, Strip(s));
  }

  /** Every character of s is whitespace. */
  predicate AllSpace(s: string) {
    s == [] || (IsSpace(s[0]) && AllSpace(s[1..]))
  }

  lemma {:induction false} AllSpaceIff(s: string)
    ensures AllSpace(s) <==> forall k :: 0 <= k < |s| ==> IsSpace(s[k])
  {
    if s != [] {
      AllSpaceIff(s[1..]);
      assert forall k :: 1 <= k < |s| ==> s[k] == s[1..][k - 1];
    }
  }

  /** r is s[a..a + |r|], and everything before and after that slice is whitespace. */
  predicate StripsTo(s: string, a: int, r: string) {
    0 <= a && a + |r| <= |s| && r == s[a..a + |r|] && AllSpace(s[..a]) && AllSpace(s[a + |r|..])
  }

  lemma StripSlice(s: string, t: string, r: string, a: int)
    requires 0 <= a <= |s| && t == s[a..] && forall k :: 0 <= k < a ==> IsSpace(s[k])
    requires |r| <= |t| && r == t[..|r|] && forall k :: |r| <= k < |t| ==> IsSpace(t[k])
    ensures StripsTo(s, a, r)
  {
    assert r == s[a..a + |r|];
    SpaceSlice(s, 0, a);
    SpaceSlice(t, |r|, |t|);
    assert s[a + |r|..] == t[|r|..];
    assert s[0..a] == s[..a] && t[|r|..|t|] == t[|r|..];
  }

  /** A slice made only of whitespace characters is all whitespace. */
  lemma SpaceSlice(s: string, lo: int, hi: int)
    requires 0 <= lo <= hi <= |s| && forall k :: lo <= k < hi ==> IsSpace(s[k])
    ensures AllSpace(s[lo..hi])
  {
    var p := s[lo..hi];
    forall k | 0 <= k < |p| ensures IsSpace(p[k]) {
      assert p[k] == s[lo + k];
    }
    AllSpaceIff(p);
  }

  /** `s.rstrip('\n')`: s without its trailing newlines. */
  function TrimNewlines(s: string): (r: string)
    ensures |r| <= |s| && r == s[..|r|]
    ensures forall k :: |r| <= k < |s| ==> s[k] == '\n'
    ensures r == [] || r[|r| - 1] != '\n'
  {
    if s != [] && s[|s| - 1] == '\n' then TrimNewlines(s[..|s| - 1]) else s
  }

  // ---------------------------------------------------------------------------
  // Substrings and splitting

  /** `sub in s`. */
  predicate Contains(s: string, sub: string)
    decreases |s|
  {
    sub <= s || (s != [] && Contains(s[1..], sub))
  }

  lemma {:induction false} ContainsSuffix(s: string, k: nat, sub: string)
    requires k <= |s| && Contains(s[k..], sub)
    ensures Contains(s, sub)
  {
    if k > 0 {
      assert s[1..][k - 1..] == s[k..];
      ContainsSuffix(s[1..], k - 1, sub);
    }
  }

  /** `s.split(' ')`: the pieces between single spaces; two adjacent spaces give an
      empty piece, and a string without spaces is one piece. */
  function SplitSpace(s: string): (r: seq<string>)
    ensures |r| >= 1
    ensures forall i :: 0 <= i < |r| ==> ' ' !in r[i]
  {
    if s == [] then [""]
    else
      var rest := SplitSpace(s[1..]);
      if s[0] == ' ' then [""] + rest
      else
        assert forall i :: 1 <= i < |rest| ==> rest[1..][i - 1] == rest[i];
        [[s[0]] + rest[0]] + rest[1..]
  }

  /** `' '.join(pieces)`. */
  function JoinSpace(pieces: seq<string>): string {
    if pieces == [] then ""
    else if |pieces| == 1 then pieces[0]
    else pieces[0] + " " + JoinSpace(pieces[1..])
  }

  /** Joining the pieces of a split gives back the string. */
  lemma {:induction false} JoinSplit(s: string)
    ensures JoinSpace(SplitSpace(s)) == s
  {
    if s != [] {
      var rest := SplitSpace(s[1..]);
      JoinSplit(s[1..]);
      if s[0] == ' ' {
        assert JoinSpace([""] + rest) == "" + " " + JoinSpace(rest);
      } else if |rest| == 1 {
        assert [s[0]] + rest[0] == [s[0]] + s[1..];
      } else {
        var p := [[s[0]] + rest[0]] + rest[1..];
        assert p[1..] == rest[1..];
        assert JoinSpace(p) == [s[0]] + rest[0] + " " + JoinSpace(rest[1..]);
        assert JoinSpace(rest) == rest[0] + " " + JoinSpace(rest[1..]);
      }
    }
  }

  lemma {:induction false} SplitPrefix(p: string, t: string)
    requires ' ' !in p
    ensures SplitSpace(p + " " + t) == [p] + SplitSpace(t)
  {
    if p == [] {
      assert p + " " + t == " " + t;
      assert (" " + t)[1..] == t;
    } else {
      assert (p + " " + t)[1..] == p[1..] + " " + t;
      assert ' ' !in p[1..] by { assert forall i :: 0 <= i < |p| - 1 ==> p[1..][i] == p[i + 1]; }
      SplitPrefix(p[1..], t);
      assert [p[0]] + p[1..] == p;
    }
  }

  lemma {:induction false} SplitNoSpace(p: string)
    requires ' ' !in p
    ensures SplitSpace(p) == [p]
  {
    if p != [] {
      assert ' ' !in p[1..] by { assert forall i :: 0 <= i < |p| - 1 ==> p[1..][i] == p[i + 1]; }
      SplitNoSpace(p[1..]);
      assert [p[0]] + p[1..] == p;
    }
  }

  /** Splitting a join of space-free pieces gives back the pieces. */
  lemma {:induction false} SplitJoin(pieces: seq<string>)
    requires |pieces| >= 1
    requires forall i :: 0 <= i < |pieces| ==> ' ' !in pieces[i]
    ensures SplitSpace(JoinSpace(pieces)) == pieces
  {
    if |pieces| == 1 {
      SplitNoSpace(pieces[0]);
    } else {
      SplitJoin(pieces[1..]);
      SplitPrefix(pieces[0], JoinSpace(pieces[1..]));
    }
  }

  /** `token in s.split(' ')`. */
  predicate HasToken(s: string, token: string) {
    token in SplitSpace(s)
  }

  // ---------------------------------------------------------------------------
  // Digits and the `heading(\d)` pattern

  predicate IsDigit(c: char) {
    '0' <= c <= '9'
  }

  function DigitValue(c: char): (n: nat)
    requires IsDigit(c)
    ensures n <= 9
  {
    (c as int) - ('0' as int)
  }

  /** `c * n`: n copies of c. */
  function Repeat(c: char, n: nat): (r: string)
    ensures |r| == n && forall i :: 0 <= i < n ==> r[i] == c
  {
    if n == 0 then "" else [c] + Repeat(c, n - 1)
  }

  /** `re.findall(r'heading(\d)', s)`: the digit after each occurrence of `heading`
      followed by a digit, scanning left to right. */
  function HeadingDigits(s: string): (r: seq<char>)
    ensures forall i :: 0 <= i < |r| ==> IsDigit(r[i]) && Contains(s, "heading" + [r[i]])
    decreases |s|
  {
    if |s| >= 8 && s[..7] == "heading" && IsDigit(s[7]) then
      var rest := HeadingDigits(s[8..]);
      assert "heading" + [s[7]] <= s by { assert s[..8] == "heading" + [s[7]]; }
      forall i | 0 <= i < |rest| ensures Contains(s, "heading" + [rest[i]]) {
        ContainsSuffix(s, 8, "heading" + [rest[i]]);
      }
      [s[7]] + rest
    else if s == [] then []
    else HeadingDigits(s[1..])
  }

  /** A class string without `heading` in it names no heading level. */
  lemma {:induction false} NoHeadingDigits(s: string)
    requires !Contains(s, "heading")
    ensures HeadingDigits(s) == []
  {
    if s != [] {
      NoHeadingDigits(s[1..]);
    }
  }

  /** `heading` followed by a digit occurs at position i of s. */
  predicate HeadingAt(s: string, i: int) {
    0 <= i && i + 8 <= |s| && s[i..i + 7] == "heading" && IsDigit(s[i + 7])
  }

  /** The occurrences in s[k..] are those in s from k on, shifted by k. */
  lemma HeadingAtDrop(s: string, k: nat, i: int)
    requires k <= |s| && 0 <= i
    ensures HeadingAt(s[k..], i) <==> HeadingAt(s, i + k)
  {
    if 0 <= i && i + 8 <= |s| - k {
      assert s[k..][i..i + 7] == s[i + k..i + k + 7];
      assert s[k..][i + 7] == s[i + k + 7];
    }
  }

  /** The scan finds no digit exactly when `heading<d>` occurs nowhere; otherwise the
      first digit it finds is that of the first occurrence, and the scan resumes
      right after it. */
  lemma {:induction false} HeadingFirst(s: string)
    ensures HeadingDigits(s) == [] <==> forall i :: !HeadingAt(s, i)
    ensures HeadingDigits(s) != [] ==>
      exists i :: HeadingAt(s, i) && (forall j :: 0 <= j < i ==> !HeadingAt(s, j))
                  && HeadingDigits(s) == [s[i + 7]] + HeadingDigits(s[i + 8..])
    decreases |s|
  {
    if |s| >= 8 && s[..7] == "heading" && IsDigit(s[7]) {
      assert s[0..7] == s[..7];
      assert HeadingAt(s, 0);
    } else if s == [] {
    } else {
      assert !HeadingAt(s, 0) by { if |s| >= 8 { assert s[0..7] == s[..7]; } }
      HeadingFirst(s[1..]);
      forall i | 0 <= i ensures HeadingAt(s[1..], i) <==> HeadingAt(s, i + 1) {
        HeadingAtDrop(s, 1, i);
      }
      if HeadingDigits(s) == [] {
        forall i ensures !HeadingAt(s, i) {
          if i > 0 { assert !HeadingAt(s[1..], i - 1); }
        }
      } else {
        var i :| HeadingAt(s[1..], i) && (forall j :: 0 <= j < i ==> !HeadingAt(s[1..], j))
                 && HeadingDigits(s[1..]) == [s[1..][i + 7]] + HeadingDigits(s[1..][i + 8..]);
        assert s[1..][i + 8..] == s[i + 9..];
        forall j | 0 <= j < i + 1 ensures !HeadingAt(s, j) {
          if j > 0 { assert !HeadingAt(s[1..], j - 1); }
        }
        assert HeadingAt(s, i + 1);
      }
    }
  }

  /** Occurrences of `heading<d>` cannot overlap: none of the eight characters
      after the first is an `h`. */
  lemma HeadingApart(s: string, i: int, j: int)
    requires HeadingAt(s, i) && i < j < i + 8
    ensures !HeadingAt(s, j)
  {
    assert s[j] != 'h' by {
      if j < i + 7 { assert s[j] == s[i..i + 7][j - i]; }
    }
    if j + 8 <= |s| {
      assert s[j..j + 7][0] == s[j];
    }
  }

  /** The scan finds exactly one digit exactly when `heading<d>` occurs exactly once,
      and that digit is the one of the occurrence. */
  lemma HeadingOne(s: string)
    ensures |HeadingDigits(s)| == 1 <==> exists i :: OneHeadingAt(s, i)
    ensures forall i :: OneHeadingAt(s, i) ==> HeadingDigits(s) == [s[i + 7]]
  {
    HeadingFirst(s);
    if HeadingDigits(s) != [] {
      var i :| HeadingAt(s, i) && (forall j :: 0 <= j < i ==> !HeadingAt(s, j))
               && HeadingDigits(s) == [s[i + 7]] + HeadingDigits(s[i + 8..]);
      HeadingFirst(s[i + 8..]);
      HeadingOnlyAfter(s, i, s[i + 8..]);
      assert |HeadingDigits(s)| == 1 <==> OneHeadingAt(s, i);
      forall i' | OneHeadingAt(s, i') ensures i' == i {
        assert HeadingAt(s, i);
      }
    }
  }

  /** After the first occurrence, the rest of s holds none exactly when that
      occurrence is the only one. */
  lemma HeadingOnlyAfter(s: string, i: int, t: string)
    requires HeadingAt(s, i) && forall j :: 0 <= j < i ==> !HeadingAt(s, j)
    requires t == s[i + 8..]
    ensures (forall k :: !HeadingAt(t, k)) <==> OneHeadingAt(s, i)
  {
    forall j | i < j < i + 8 ensures !HeadingAt(s, j) {
      HeadingApart(s, i, j);
    }
    forall j | j >= i + 8 ensures HeadingAt(s, j) <==> HeadingAt(t, j - i - 8) {
      HeadingAtDrop(s, i + 8, j - i - 8);
    }
    if OneHeadingAt(s, i) {
      forall k ensures !HeadingAt(t, k) {
        if k >= 0 {
          HeadingAtDrop(s, i + 8, k);
          assert k + i + 8 != i;
        }
      }
    }
  }

  /** `heading<d>` occurs at i and nowhere else. */
  predicate OneHeadingAt(s: string, i: int) {
    HeadingAt(s, i) && forall j :: 0 <= j < |s| && HeadingAt(s, j) ==> j == i
  }

  /** The match on `heading<d>` at the front, then the matches in what follows. */
  lemma HeadingDigitsFront(d: char, t: string)
    requires IsDigit(d)
    ensures HeadingDigits("heading" + [d] + t) == [d] + HeadingDigits(t)
  {
    var s := "heading" + [d] + t;
    assert s[..7] == "heading" && s[7] == d && s[8..] == t;
  }

  /** A character other than `h` starts no match. */
  lemma HeadingDigitsSkip(c: char, t: string)
    requires c != 'h'
    ensures HeadingDigits([c] + t) == HeadingDigits(t)
  {
    var s := [c] + t;
    assert !(|s| >= 8 && s[..7] == "heading") by {
      if |s| >= 8 { assert s[..7][0] == c; }
    }
    assert s[1..] == t;
  }

  // ---------------------------------------------------------------------------
  // The note token patterns

  /** The tail of `.*\!\[.*\](` after the `![`: a `](` with no newline before it. */
  predicate CloseOnLine(s: string)
    decreases |s|
  {
    |s| >= 2 && (s[..2] == "](" || (s[0] != '\n' && CloseOnLine(s[1..])))
  }

  /** `re.findall(r'.*\!\[.*\](', s)` is not empty: some `![` is followed on the
      same line by `](`. */
  predicate ImageOpener(s: string)
    decreases |s|
  {
    s != [] && ((|s| >= 2 && s[..2] == "![" && CloseOnLine(s[2..])) || ImageOpener(s[1..]))
  }

  /** `](` at j, and no newline before it. */
  predicate CloseAt(s: string, j: int) {
    0 <= j && j + 2 <= |s| && s[j] == ']' && s[j + 1] == '(' && forall k :: 0 <= k < j ==> s[k] != '\n'
  }

  /** `![` at i, and `](` at j further on the same line. */
  predicate OpenerAt(s: string, i: int, j: int) {
    0 <= i && i + 2 <= j && j + 2 <= |s| && s[i] == '!' && s[i + 1] == '['
    && s[j] == ']' && s[j + 1] == '(' && forall k :: i + 2 <= k < j ==> s[k] != '\n'
  }

  lemma {:induction false} CloseOnLineIff(s: string)
    ensures CloseOnLine(s) <==> exists j :: CloseAt(s, j)
    decreases |s|
  {
    if |s| >= 2 {
      CloseOnLineIff(s[1..]);
      if CloseOnLine(s) {
        if s[..2] == "](" {
          assert CloseAt(s, 0);
        } else {
          var j :| CloseAt(s[1..], j);
          assert CloseAt(s, j + 1);
        }
      }
      if exists j :: CloseAt(s, j) {
        var j :| CloseAt(s, j);
        if j == 0 {
          assert s[..2] == "](";
        } else {
          assert s[0] != '\n';
          assert CloseAt(s[1..], j - 1);
        }
      }
    } else {
      assert forall j :: !CloseAt(s, j);
    }
  }

  /** The scan for an image opener finds exactly the `![ ... ](` pairs on one line. */
  lemma {:induction false} ImageOpenerIff(s: string)
    ensures ImageOpener(s) <==> exists i, j :: OpenerAt(s, i, j)
    decreases |s|
  {
    if s != [] {
      ImageOpenerIff(s[1..]);
      if |s| >= 2 { CloseOnLineIff(s[2..]); }
      if ImageOpener(s) {
        if |s| >= 2 && s[..2] == "![" && CloseOnLine(s[2..]) {
          var j :| CloseAt(s[2..], j);
          assert OpenerAt(s, 0, j + 2);
        } else {
          var i, j :| OpenerAt(s[1..], i, j);
          assert OpenerAt(s, i + 1, j + 1);
        }
      }
      if exists i, j :: OpenerAt(s, i, j) {
        var i, j :| OpenerAt(s, i, j);
        if i == 0 {
          assert s[..2] == "![";
          assert CloseAt(s[2..], j - 2);
        } else {
          assert OpenerAt(s[1..], i - 1, j - 1);
        }
      }
    }
  }

  /** `re.findall(r'```(.|\n)+```', s)` is not empty: an opening fence, at least one
      character, and a closing fence. */
  predicate CodeFence(s: string)
    decreases |s|
  {
    (|s| >= 4 && s[..3] == "```" && Contains(s[4..], "```")) || (s != [] && CodeFence(s[1..]))
  }

  /** sub occurs in s at position k. */
  predicate OccursAt(s: string, sub: string, k: int) {
    0 <= k && k + |sub| <= |s| && s[k..k + |sub|] == sub
  }

  lemma OccursAtDrop(s: string, sub: string, d: nat, k: int)
    requires d <= |s| && 0 <= k
    ensures OccursAt(s[d..], sub, k) <==> OccursAt(s, sub, k + d)
  {
    if 0 <= k && k + |sub| <= |s| - d {
      assert s[d..][k..k + |sub|] == s[k + d..k + d + |sub|];
    }
  }

  /** `sub in s` holds exactly when sub occurs at some position of s. */
  lemma {:induction false} ContainsIff(s: string, sub: string)
    ensures Contains(s, sub) <==> exists k :: OccursAt(s, sub, k)
    decreases |s|
  {
    assert sub <= s <==> OccursAt(s, sub, 0) by {
      if |sub| <= |s| { assert s[0..|sub|] == s[..|sub|]; }
    }
    if s != [] {
      ContainsIff(s[1..], sub);
      if exists k :: OccursAt(s, sub, k) {
        var k :| OccursAt(s, sub, k);
        if k > 0 {
          OccursAtDrop(s, sub, 1, k - 1);
        }
      }
      if exists k :: OccursAt(s[1..], sub, k) {
        var k :| OccursAt(s[1..], sub, k);
        OccursAtDrop(s, sub, 1, k);
      }
    } else {
      assert forall k :: OccursAt(s, sub, k) ==> k == 0;
    }
  }

  /** A fence at i and another at j, at least four characters later, so that one
      character lies between them. */
  predicate FencePair(s: string, i: int, j: int) {
    OccursAt(s, "```", i) && OccursAt(s, "```", j) && i + 4 <= j
  }

  /** The code pattern matches exactly when one fence is followed by another with at
      least one character between them. */
  lemma CodeFenceIff(s: string)
    ensures CodeFence(s) <==> exists i, j :: FencePair(s, i, j)
  {
    if CodeFence(s) {
      CodeFenceSound(s);
    }
    if exists i, j :: FencePair(s, i, j) {
      var i, j :| FencePair(s, i, j);
      CodeFenceComplete(s, i, j);
    }
  }

  lemma {:induction false} CodeFenceSound(s: string)
    requires CodeFence(s)
    ensures exists i, j :: FencePair(s, i, j)
    decreases |s|
  {
    if |s| >= 4 && s[..3] == "```" && Contains(s[4..], "```") {
      ContainsIff(s[4..], "```");
      var k :| OccursAt(s[4..], "```", k);
      OccursAtDrop(s, "```", 4, k);
      assert s[0..3] == s[..3];
      assert FencePair(s, 0, k + 4);
    } else {
      CodeFenceSound(s[1..]);
      var i, j :| FencePair(s[1..], i, j);
      OccursAtDrop(s, "```", 1, i);
      OccursAtDrop(s, "```", 1, j);
      assert FencePair(s, i + 1, j + 1);
    }
  }

  lemma {:induction false} CodeFenceComplete(s: string, i: int, j: int)
    requires FencePair(s, i, j)
    ensures CodeFence(s)
    decreases i
  {
    if i == 0 {
      assert s[0..3] == s[..3];
      OccursAtDrop(s, "```", 4, j - 4);
      ContainsIff(s[4..], "```");
    } else {
      OccursAtDrop(s, "```", 1, i - 1);
      OccursAtDrop(s, "```", 1, j - 1);
      CodeFenceComplete(s[1..], i - 1, j - 1);
    }
  }

  /** A fenced block made of an opening fence, a non-empty body and a closing fence
      is recognised as code. */
  lemma CodeFenceBlock(body: string)
    requires body != []
    ensures CodeFence("```" + body + "```")
  {
    var s := "```" + body + "```";
    assert s[..3] == "```";
    assert s[4..][|body| - 1..] == "```";
    ContainsSuffix(s[4..], |body| - 1, "```");
  }
}
