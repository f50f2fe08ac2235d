/** The created date an author may write into the title: an eight-digit token found
    exactly once in the title replaces the file's own creation date. */
module TitleDate {
  import opened Dom
  import opened Text

  predicate AllDigits(s: string) {
    forall k :: 0 <= k < |s| ==> IsDigit(s[k])
  }

  predicate NoDigits(s: string) {
    forall k :: 0 <= k < |s| ==> !IsDigit(s[k])
  }

  /** `re.findall(r'(\d{8})', s)`: scanning left to right, each place where eight
      digits start gives a token and the scan resumes after it. */
  function DateTokens(s: string): (r: seq<string>)
    ensures forall i :: 0 <= i < |r| ==> |r[i]| == 8 && AllDigits(r[i]) && Contains(s, r[i])
    decreases |s|
  {
    if |s| >= 8 && AllDigits(s[..8]) then
      var rest := DateTokens(s[8..]);
      forall i | 0 <= i < |rest| ensures Contains(s, rest[i]) {
        ContainsSuffix(s, 8, rest[i]);
      }
      [s[..8]] + rest
    else if s == [] then []
    else DateTokens(s[1..])
  }

  /** `_try_find_created_time_in_title`: the one date token of the title, or the
      file's creation date when the title holds none or several; that date is unset
      when the file's timestamp was not positive. Counted by runs of digits: the
      title's date is used exactly when the run count is one. */
  function TryFindCreatedTimeInTitle(title: string, fileCreated: Option<string>): (r: Result<string>)
    ensures RunCount(title) == 1 ==> r.Ok? && |r.value| == 8 && AllDigits(r.value) && Contains(title, r.value)
    ensures RunCount(title) != 1 && fileCreated.Some? ==> r == Ok(fileCreated.value)
    ensures RunCount(title) != 1 && fileCreated.None? ==> r == Err(MissingTimestamp)
  {
    var found := DateTokens(title);
    DateTokenCount(title);
    if |found| == 1 then Ok(found[0])
    else if fileCreated.Some? then Ok(fileCreated.value)
    else Err(MissingTimestamp)
  }

  /** With exactly one token, the date taken is the eight digits at the first place
      of the title where eight digits start. */
  lemma TitleDateIsFirstMatch(title: string, fileCreated: Option<string>)
    requires RunCount(title) == 1
    ensures exists i :: FirstDateAt(title, i) && TryFindCreatedTimeInTitle(title, fileCreated) == Ok(title[i..i + 8])
  {
    DateTokenCount(title);
    FirstDateToken(title);
  }

  /** Eight digits start at position i of s. */
  predicate DateAt(s: string, i: int) {
    0 <= i && i + 8 <= |s| && AllDigits(s[i..i + 8])
  }

  /** i is the first position of s where eight digits start: the start of the first
      run of at least eight digits. */
  predicate FirstDateAt(s: string, i: int) {
    DateAt(s, i) && forall j :: 0 <= j < i ==> !DateAt(s, j)
  }

  lemma DateAtDrop(s: string, k: nat, i: int)
    requires k <= |s| && 0 <= i
    ensures DateAt(s[k..], i) <==> DateAt(s, i + k)
  {
    if i + 8 <= |s| - k {
      assert s[k..][i..i + 8] == s[i + k..i + k + 8];
    }
  }

  /** `findall` finds nothing exactly when eight digits start nowhere; otherwise its
      first token is the eight digits at the first place where eight digits start. */
  lemma {:induction false} FirstDateToken(s: string)
    ensures DateTokens(s) == [] <==> forall i :: !DateAt(s, i)
    ensures DateTokens(s) != [] ==> exists i :: FirstDateAt(s, i) && DateTokens(s)[0] == s[i..i + 8]
    decreases |s|
  {
    if |s| >= 8 && AllDigits(s[..8]) {
      assert s[0..8] == s[..8];
      assert FirstDateAt(s, 0);
    } else if s != [] {
      assert !DateAt(s, 0) by { if |s| >= 8 { assert s[0..8] == s[..8]; } }
      FirstDateToken(s[1..]);
      if DateTokens(s) == [] {
        forall i ensures !DateAt(s, i) {
          if i > 0 { DateAtDrop(s, 1, i - 1); }
        }
      } else {
        var i :| FirstDateAt(s[1..], i) && DateTokens(s[1..])[0] == s[1..][i..i + 8];
        DateAtDrop(s, 1, i);
        assert s[1..][i..i + 8] == s[i + 1..i + 9];
        forall j | 0 <= j < i + 1 ensures !DateAt(s, j) {
          if j > 0 { DateAtDrop(s, 1, j - 1); }
        }
        assert FirstDateAt(s, i + 1);
      }
    }
  }

  // ---------------------------------------------------------------------------
  // How many tokens a title holds, counted by maximal runs of digits.

  /** The length of the run of digits s starts with. */
  function LeadingDigits(s: string): (n: nat)
    ensures n <= |s| && AllDigits(s[..n]) && (n < |s| ==> !IsDigit(s[n]))
  {
    if s != [] && IsDigit(s[0]) then
      var n := LeadingDigits(s[1..]);
      assert s[..n + 1] == [s[0]] + s[1..][..n];
      n + 1
    else 0
  }

  /** The sum, over the maximal runs of digits in s, of each run's length div 8. */
  function RunCount(s: string): nat
    decreases |s|
  {
    if s == [] then 0
    else if !IsDigit(s[0]) then RunCount(s[1..])
    else
      var n := LeadingDigits(s);
      n / 8 + RunCount(s[n..])
  }

  lemma LeadingDigitsDrop(s: string, k: nat)
    requires k <= LeadingDigits(s)
    ensures LeadingDigits(s[k..]) == LeadingDigits(s) - k
  {
  }

  /** A run of n digits at the front yields n div 8 tokens before the scan leaves it. */
  lemma {:induction false} RunTokens(s: string)
    ensures |DateTokens(s)| == LeadingDigits(s) / 8 + |DateTokens(s[LeadingDigits(s)..])|
    decreases LeadingDigits(s)
  {
    var n := LeadingDigits(s);
    if n >= 8 {
      assert AllDigits(s[..8]) by { assert forall k :: 0 <= k < 8 ==> s[..8][k] == s[..n][k]; }
      LeadingDigitsDrop(s, 8);
      RunTokens(s[8..]);
      assert s[8..][n - 8..] == s[n..];
    } else if n > 0 {
      assert !(|s| >= 8 && AllDigits(s[..8])) by {
        if |s| >= 8 { assert s[..8][n] == s[n]; }
      }
      LeadingDigitsDrop(s, 1);
      RunTokens(s[1..]);
      assert s[1..][n - 1..] == s[n..];
    }
  }

  /** The number of date tokens `findall` returns is the run count. */
  lemma {:induction false} DateTokenCount(s: string)
    ensures |DateTokens(s)| == RunCount(s)
    decreases |s|
  {
    if s != [] {
      if !IsDigit(s[0]) {
        assert !(|s| >= 8 && AllDigits(s[..8])) by {
          if |s| >= 8 { assert s[..8][0] == s[0]; }
        }
        DateTokenCount(s[1..]);
      } else {
        RunTokens(s);
        DateTokenCount(s[LeadingDigits(s)..]);
      }
    }
  }

  /** Text without digits adds no token. */
  lemma {:induction false} NoDigitsNoTokens(pre: string, t: string)
    requires NoDigits(pre)
    ensures DateTokens(pre + t) == DateTokens(t)
  {
    if pre != [] {
      var s := pre + t;
      assert !(|s| >= 8 && AllDigits(s[..8])) by {
        if |s| >= 8 { assert s[..8][0] == pre[0]; }
      }
      assert s[1..] == pre[1..] + t;
      NoDigitsNoTokens(pre[1..], t);
    } else {
      assert pre + t == t;
    }
  }

  /** A title whose only digits are one eight-digit date sets the created date to it. */
  lemma TitleWithOneDate(pre: string, date: string, post: string, fileCreated: Option<string>)
    requires NoDigits(pre) && NoDigits(post)
    requires |date| == 8 && AllDigits(date)
    ensures TryFindCreatedTimeInTitle(pre + date + post, fileCreated) == Ok(date)
  {
    NoDigitsNoTokens(pre, date + post);
    assert pre + date + post == pre + (date + post);
    var s := date + post;
    assert s[..8] == date && s[8..] == post;
    NoDigitsNoTokens(post, "");
    assert post + "" == post;
  }

  /** A title holding two dates keeps the file's own creation date. */
  lemma TitleWithTwoDates(d1: string, sep: string, d2: string, fileCreated: string)
    requires |d1| == 8 && AllDigits(d1) && |d2| == 8 && AllDigits(d2)
    requires NoDigits(sep)
    ensures TryFindCreatedTimeInTitle(d1 + sep + d2, Some(fileCreated)) == Ok(fileCreated)
  {
    var s := d1 + sep + d2;
    assert s[..8] == d1 && s[8..] == sep + d2;
    NoDigitsNoTokens(sep, d2);
    assert d2[..8] == d2 && d2[8..] == [];
  }
}
