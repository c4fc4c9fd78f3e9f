/** The std::string and std::getline behaviour the system-information tool
    relies on (2ndTask/2/node.cpp): find, substr after a find with npos
    wrap-around, find_first_not_of / find_last_not_of with erase, splitting
    a stream into lines, and to_string on non-negative integers.

    Positions are size_t values: std::string::npos is 2^64 - 1, and adding 1
    to it wraps to 0, which is what makes `s.substr(s.find(":") + 1)` return
    the whole of s when s holds no ':'. */
module StringOps {

  /** std::string::npos for a 64-bit size_t. */
  const NPOS: nat := 0xFFFF_FFFF_FFFF_FFFF
  const SizeTModulus: nat := 0x1_0000_0000_0000_0000

  const Quote: char := '"'
  const Newline: char := '\n'

  /** x + 1 in size_t arithmetic. */
  function SizeTSucc(x: nat): (r: nat)
    ensures x < NPOS ==> r == x + 1
    ensures x == NPOS ==> r == 0
    ensures r <= x + 1
  {
    (x + 1) % SizeTModulus
  }

  // ---------------------------------------------------------------------
  // find
  // ---------------------------------------------------------------------

  /** pat occurs in s at position k. */
  predicate MatchAt(s: string, pat: string, k: int)
  {
    0 <= k && k + |pat| <= |s| && s[k..k + |pat|] == pat
  }

  /** The first position >= from where pat occurs, or npos. */
  function FindFrom(s: string, pat: string, from: nat): (r: nat)
    ensures || (r == NPOS && forall k :: from <= k ==> !MatchAt(s, pat, k))
            || (from <= r && MatchAt(s, pat, r) && forall k :: from <= k < r ==> !MatchAt(s, pat, k))
    decreases |s| - from
  {
    if from + |pat| > |s| then NPOS
    else if s[from..from + |pat|] == pat then from
    else FindFrom(s, pat, from + 1)
  }

  /** s.find(pat): the first position where pat occurs, or npos. */
  function Find(s: string, pat: string): (r: nat)
    ensures || (r == NPOS && forall k :: !MatchAt(s, pat, k))
            || (MatchAt(s, pat, r) && forall k :: 0 <= k < r ==> !MatchAt(s, pat, k))
  {
    FindFrom(s, pat, 0)
  }

  /** s.find(pat) != std::string::npos: for any string shorter than npos,
      exactly "pat occurs somewhere in s". */
  predicate Contains(s: string, pat: string)
    ensures |s| < NPOS ==> (Contains(s, pat) <==> exists k :: MatchAt(s, pat, k))
  {
    var r := Find(s, pat);
    assert r != NPOS ==> MatchAt(s, pat, r);
    r != NPOS
  }

  /** A witness position is enough to show the find test succeeds. */
  lemma ContainsAt(s: string, pat: string, k: int)
    requires |s| < NPOS && MatchAt(s, pat, k)
    ensures Contains(s, pat)
  {
  }

  /** A character of pat that s lacks rules pat out. */
  lemma NotContainsChar(s: string, pat: string, c: char)
    requires |s| < NPOS && c in pat && c !in s
    ensures !Contains(s, pat)
  {
    var j :| 0 <= j < |pat| && pat[j] == c;
    forall k | 0 <= k && k + |pat| <= |s|
      ensures !MatchAt(s, pat, k)
    {
      assert s[k..k + |pat|][j] == s[k + j];
    }
  }

  /** A one-character pattern matches exactly where that character is. */
  lemma MatchAtChar(s: string, c: char, k: int)
    ensures MatchAt(s, [c], k) <==> 0 <= k < |s| && s[k] == c
  {
    if 0 <= k < |s| {
      assert s[k..k + 1] == [s[k]];
    }
  }

  /** s.find(c) for a character that occurs in s: its first position. */
  lemma FindChar(s: string, c: char, k: int)
    requires 0 <= k < |s| && s[k] == c && forall m :: 0 <= m < k ==> s[m] != c
    ensures Find(s, [c]) == k
  {
    MatchAtChar(s, c, k);
    var r := Find(s, [c]);
    if r < k {
      MatchAtChar(s, c, r);
    }
  }

  /** s.find(c) for a character that does not occur in s. */
  lemma FindNoChar(s: string, c: char)
    requires forall m :: 0 <= m < |s| ==> s[m] != c
    ensures Find(s, [c]) == NPOS
  {
    var r := Find(s, [c]);
    if r != NPOS {
      MatchAtChar(s, c, r);
    }
  }

  // ---------------------------------------------------------------------
  // substr after the first separator
  // ---------------------------------------------------------------------

  /** s.substr(s.find(sep) + 1): the text after the first sep, computed in
      size_t arithmetic. When sep does not occur, find gives npos, npos + 1
      wraps to 0, and the whole string is returned. */
  function AfterFirst(s: string, sep: char): (r: string)
    ensures |r| <= |s|
    ensures sep !in s ==> r == s
    ensures |s| < NPOS && sep in s ==>
      && |r| < |s| && s == s[..|s| - |r| - 1] + [sep] + r
      && sep !in s[..|s| - |r| - 1]
  {
    var pos := Find(s, [sep]);
    if sep !in s then FindNoChar(s, sep); s
    else if |s| < NPOS then FirstSep(s, sep); s[pos + 1..]
    else s[SizeTSucc(pos)..]
  }

  /** Where s.find(c) lands when c occurs in s. */
  lemma FirstSep(s: string, sep: char)
    requires |s| < NPOS && sep in s
    ensures Find(s, [sep]) < |s| && s[Find(s, [sep])] == sep
    ensures sep !in s[..Find(s, [sep])]
  {
    var r := Find(s, [sep]);
    var k :| 0 <= k < |s| && s[k] == sep;
    MatchAtChar(s, sep, k);
    MatchAtChar(s, sep, r);
    forall m | 0 <= m < r
      ensures s[m] != sep
    {
      MatchAtChar(s, sep, m);
    }
  }

  /** The value after the separator at the first occurrence k. */
  lemma AfterFirstAt(s: string, sep: char, k: int)
    requires |s| < NPOS && 0 <= k < |s| && s[k] == sep && forall m :: 0 <= m < k ==> s[m] != sep
    ensures AfterFirst(s, sep) == s[k + 1..]
  {
    FindChar(s, sep, k);
  }

  /** key ends in sep and holds no other sep. */
  predicate EndsWithOnly(key: string, sep: char)
  {
    key != [] && key[|key| - 1] == sep && sep !in key[..|key| - 1]
  }

  /** A line that starts with a key ending in its only sep: the value is
      whatever follows the key. */
  lemma AfterFirstPrefix(prefix: string, rest: string, sep: char)
    requires EndsWithOnly(prefix, sep) && |prefix| + |rest| < NPOS
    ensures AfterFirst(prefix + rest, sep) == rest
  {
    var line := prefix + rest;
    var k := |prefix| - 1;
    forall m | 0 <= m < k
      ensures line[m] != sep
    {
      assert line[m] == prefix[..k][m];
    }
    AfterFirstAt(line, sep, k);
    assert line[k + 1..] == rest;
  }

  /** An occurrence inside the start of a line is found whatever follows. */
  lemma ContainsInPrefix(prefix: string, rest: string, pat: string, k: int)
    requires MatchAt(prefix, pat, k) && |prefix| + |rest| < NPOS
    ensures Contains(prefix + rest, pat)
  {
    var line := prefix + rest;
    assert line[k..k + |pat|] == prefix[k..k + |pat|];
    ContainsAt(line, pat, k);
  }

  // ---------------------------------------------------------------------
  // Stripping quotes: find_first_not_of / find_last_not_of and erase
  // ---------------------------------------------------------------------

  /** s.find_first_not_of(c, from): the first position >= from not holding c,
      or npos. */
  function FindFirstNotOfFrom(s: string, c: char, from: nat): (r: nat)
    ensures || (r == NPOS && forall k :: from <= k < |s| ==> s[k] == c)
            || (from <= r < |s| && s[r] != c && forall k :: from <= k < r ==> s[k] == c)
    decreases |s| - from
  {
    if from >= |s| then NPOS
    else if s[from] != c then from
    else FindFirstNotOfFrom(s, c, from + 1)
  }

  function FindFirstNotOf(s: string, c: char): (r: nat)
    ensures || (r == NPOS && forall k :: 0 <= k < |s| ==> s[k] == c)
            || (r < |s| && s[r] != c && forall k :: 0 <= k < r ==> s[k] == c)
  {
    FindFirstNotOfFrom(s, c, 0)
  }

  /** The last position below hi not holding c, or npos. */
  function FindLastNotOfBelow(s: string, c: char, hi: nat): (r: nat)
    requires hi <= |s|
    ensures || (r == NPOS && forall k :: 0 <= k < hi ==> s[k] == c)
            || (r < hi && s[r] != c && forall k :: r < k < hi ==> s[k] == c)
  {
    if hi == 0 then NPOS
    else if s[hi - 1] != c then hi - 1
    else FindLastNotOfBelow(s, c, hi - 1)
  }

  /** s.find_last_not_of(c): the last position not holding c, or npos. */
  function FindLastNotOf(s: string, c: char): (r: nat)
    ensures || (r == NPOS && forall k :: 0 <= k < |s| ==> s[k] == c)
            || (r < |s| && s[r] != c && forall k :: r < k < |s| ==> s[k] == c)
  {
    FindLastNotOfBelow(s, c, |s|)
  }

  /** s.erase(0, count): the first count characters go, all of them when
      count is at least the length (npos among them). */
  function EraseFront(s: string, count: nat): string
  {
    if count < |s| then s[count..] else []
  }

  /** s.erase(pos): everything from pos on goes. */
  function EraseFrom(s: string, pos: nat): string
    requires pos <= |s|
  {
    s[..pos]
  }

  /** The two-step trim of 2ndTask/2/node.cpp:79-80 and 83-84:
      v.erase(0, v.find_first_not_of("\"")) and then
      v.erase(v.find_last_not_of("\"") + 1), the "+ 1" in size_t. */
  function TrimQuotes(v: string): (r: string)
    ensures |v| < NPOS ==> r == StripTrailing(StripLeading(v))
  {
    var front := EraseFront(v, FindFirstNotOf(v, Quote));
    var last := FindLastNotOf(front, Quote);
    if |v| < NPOS then
      EraseFrontIsStripLeading(v);
      EraseBackIsStripTrailing(front);
      EraseFrom(front, SizeTSucc(last))
    else EraseFrom(front, SizeTSucc(last))
  }

  /** Reference definitions: drop leading, then trailing, quotes one by one. */
  function StripLeading(s: string): (r: string)
    ensures |r| <= |s| && r == s[|s| - |r|..]
    ensures forall k :: 0 <= k < |s| - |r| ==> s[k] == Quote
    ensures r == [] || r[0] != Quote
  {
    if |s| > 0 && s[0] == Quote then StripLeading(s[1..]) else s
  }

  function StripTrailing(s: string): (r: string)
    ensures |r| <= |s| && r == s[..|r|]
    ensures forall k :: |r| <= k < |s| ==> s[k] == Quote
    ensures r == [] || r[|r| - 1] != Quote
  {
    if |s| > 0 && s[|s| - 1] == Quote then StripTrailing(s[..|s| - 1]) else s
  }

  /** What is left after dropping a prefix of quotes that ends at a non-quote
      (or at the end) is what StripLeading leaves. */
  lemma {:induction false} StripLeadingAt(s: string, k: nat)
    requires k <= |s| && (forall m :: 0 <= m < k ==> s[m] == Quote) && (k == |s| || s[k] != Quote)
    ensures StripLeading(s) == s[k..]
  {
    if k > 0 {
      assert s[1..][k - 1..] == s[k..];
      StripLeadingAt(s[1..], k - 1);
    }
  }

  lemma {:induction false} StripTrailingAt(s: string, k: nat)
    requires k <= |s| && (forall m :: k <= m < |s| ==> s[m] == Quote) && (k == 0 || s[k - 1] != Quote)
    ensures StripTrailing(s) == s[..k]
    decreases |s|
  {
    if k < |s| {
      assert s[..|s| - 1][..k] == s[..k];
      StripTrailingAt(s[..|s| - 1], k);
    }
  }

  /** The first erase drops exactly the leading quotes. */
  lemma EraseFrontIsStripLeading(v: string)
    requires |v| < NPOS
    ensures EraseFront(v, FindFirstNotOf(v, Quote)) == StripLeading(v)
  {
    var first := FindFirstNotOf(v, Quote);
    if first == NPOS {
      StripLeadingAt(v, |v|);
    } else {
      StripLeadingAt(v, first);
    }
  }

  /** The second erase drops exactly the trailing quotes. */
  lemma EraseBackIsStripTrailing(a: string)
    requires |a| < NPOS
    ensures EraseFrom(a, SizeTSucc(FindLastNotOf(a, Quote))) == StripTrailing(a)
  {
    var last := FindLastNotOf(a, Quote);
    if last == NPOS {
      StripTrailingAt(a, 0);
    } else {
      StripTrailingAt(a, last + 1);
    }
  }

  /** r neither starts nor ends with a quote. */
  predicate NoOuterQuotes(r: string)
  {
    r == [] || (r[0] != Quote && r[|r| - 1] != Quote)
  }

  /** r is the slice of v starting at i, and v holds only quotes before and
      after it. */
  predicate QuotesAround(v: string, i: int, r: string)
  {
    && 0 <= i <= |v| - |r| && v[i..i + |r|] == r
    && (forall k :: 0 <= k < i ==> v[k] == Quote)
    && (forall k :: i + |r| <= k < |v| ==> v[k] == Quote)
  }

  lemma SliceOfSuffix(v: string, i: nat, n: nat)
    requires i + n <= |v|
    ensures v[i..][..n] == v[i..i + n]
  {
  }

  /** Stripping both ends leaves a slice of v with only quotes around it. */
  lemma StripBothAround(v: string)
    ensures QuotesAround(v, |v| - |StripLeading(v)|, StripTrailing(StripLeading(v)))
  {
    var a := StripLeading(v);
    QuotesAroundOf(v, a, StripTrailing(a));
  }

  /** a is a suffix of v after only quotes, and r a prefix of a before only
      quotes: then r sits in v with only quotes around it. */
  lemma QuotesAroundOf(v: string, a: string, r: string)
    requires |a| <= |v| && a == v[|v| - |a|..]
    requires forall k :: 0 <= k < |v| - |a| ==> v[k] == Quote
    requires |r| <= |a| && r == a[..|r|]
    requires forall k :: |r| <= k < |a| ==> a[k] == Quote
    ensures QuotesAround(v, |v| - |a|, r)
  {
    var i := |v| - |a|;
    SliceOfSuffix(v, i, |r|);
    forall k | i + |r| <= k < |v|
      ensures v[k] == Quote
    {
      assert v[k] == a[k - i];
    }
  }

  /** Stripping both ends leaves no quote at either end. */
  lemma StripBothNoOuterQuotes(v: string)
    ensures NoOuterQuotes(StripTrailing(StripLeading(v)))
  {
    var a := StripLeading(v);
    var r := StripTrailing(a);
    if r != [] {
      assert r[0] == a[0];
    }
  }

  /** The trimmed value is the slice of v that starts after the leading
      quotes, only quotes follow it, and it neither starts nor ends with a
      quote: interior quotes are kept. */
  lemma TrimQuotesShape(v: string)
    requires |v| < NPOS
    ensures NoOuterQuotes(TrimQuotes(v))
    ensures QuotesAround(v, |v| - |StripLeading(v)|, TrimQuotes(v))
  {
    StripBothAround(v);
    StripBothNoOuterQuotes(v);
  }

  /** A value made only of quotes becomes empty. */
  lemma TrimAllQuotes(v: string)
    requires |v| < NPOS && forall k :: 0 <= k < |v| ==> v[k] == Quote
    ensures TrimQuotes(v) == []
  {
    StripLeadingAt(v, |v|);
  }

  /** A value that neither starts nor ends with a quote is left unchanged. */
  lemma TrimUnquoted(v: string)
    requires |v| < NPOS && NoOuterQuotes(v)
    ensures TrimQuotes(v) == v
  {
    StripUnquoted(v);
  }

  lemma StripUnquoted(v: string)
    requires NoOuterQuotes(v)
    ensures StripTrailing(StripLeading(v)) == v
  {
    StripLeadingAt(v, 0);
    assert v[0..] == v;
    StripTrailingAt(v, |v|);
    assert v[..|v|] == v;
  }

  /** One pair of surrounding quotes is erased. */
  lemma TrimQuotePair(x: string)
    requires |x| + 2 < NPOS && NoOuterQuotes(x)
    ensures TrimQuotes([Quote] + x + [Quote]) == x
  {
    var v := [Quote] + x + [Quote];
    if |x| == 0 {
      StripLeadingAt(v, |v|);
    } else {
      StripQuotePair(x);
    }
  }

  lemma StripQuotePair(x: string)
    requires x != [] && NoOuterQuotes(x)
    ensures StripTrailing(StripLeading([Quote] + x + [Quote])) == x
  {
    var v := [Quote] + x + [Quote];
    assert v[1..] == x + [Quote];
    StripLeadingAt(v, 1);
    var a := x + [Quote];
    assert a[..|x|] == x;
    StripTrailingAt(a, |x|);
  }

  /** Trimming twice is trimming once. */
  lemma TrimQuotesIdempotent(v: string)
    requires |v| < NPOS
    ensures TrimQuotes(TrimQuotes(v)) == TrimQuotes(v)
  {
    TrimQuotesShape(v);
    TrimUnquoted(TrimQuotes(v));
  }

  // ---------------------------------------------------------------------
  // getline
  // ---------------------------------------------------------------------

  /** The position of the first newline in s, or |s|. */
  function IndexOfNewline(s: string): (k: nat)
    ensures k <= |s| && (k < |s| ==> s[k] == Newline)
    ensures forall i :: 0 <= i < k ==> s[i] != Newline
  {
    if |s| == 0 || s[0] == Newline then 0 else 1 + IndexOfNewline(s[1..])
  }

  /** The lines `while (std::getline(stream, line))` yields on a stream
      holding text: the pieces between newlines, the newlines dropped, and
      no empty last piece after a final newline. */
  function Lines(text: string): (ls: seq<string>)
    ensures forall i :: 0 <= i < |ls| ==> Newline !in ls[i] && |ls[i]| <= |text|
    decreases |text|
  {
    if |text| == 0 then []
    else
      var k := IndexOfNewline(text);
      if k == |text| then [text] else [text[..k]] + Lines(text[k + 1..])
  }

  /** Every line written out followed by a newline. */
  function Unlines(ls: seq<string>): string
  {
    if |ls| == 0 then [] else ls[0] + [Newline] + Unlines(ls[1..])
  }

  /** Reading back lines that were written out gives the same lines. */
  lemma {:induction false} LinesOfUnlines(ls: seq<string>)
    requires forall i :: 0 <= i < |ls| ==> Newline !in ls[i]
    ensures Lines(Unlines(ls)) == ls
  {
    if |ls| > 0 {
      var text := Unlines(ls);
      var rest := Unlines(ls[1..]);
      assert text == ls[0] + [Newline] + rest;
      var k := IndexOfNewline(text);
      assert text[|ls[0]|] == Newline;
      assert k == |ls[0]|;
      assert text[..k] == ls[0];
      assert text[k + 1..] == rest;
      LinesOfUnlines(ls[1..]);
    }
  }

  lemma UnlinesCons(line: string, ls: seq<string>)
    ensures Unlines([line] + ls) == line + [Newline] + Unlines(ls)
  {
    assert ([line] + ls)[1..] == ls;
  }

  /** The text with a newline added at the end unless it is empty or
      already ends with one. */
  function Terminated(t: string): string
  {
    if |t| == 0 || t[|t| - 1] == Newline then t else t + [Newline]
  }

  lemma TerminatedAppend(line: string, rest: string)
    ensures Terminated(line + [Newline] + rest) == line + [Newline] + Terminated(rest)
  {
    var t := line + [Newline] + rest;
    if |rest| > 0 {
      assert t[|t| - 1] == rest[|rest| - 1];
    } else {
      assert t == line + [Newline];
    }
  }

  /** Writing out the lines of a text restores it, with a newline added at
      the end when the text did not end with one. */
  lemma {:induction false} UnlinesOfLines(text: string)
    ensures Unlines(Lines(text)) == Terminated(text)
    decreases |text|
  {
    if |text| > 0 {
      var k := IndexOfNewline(text);
      if k == |text| {
        UnlinesOfLastLine(text);
      } else {
        var line := text[..k];
        var rest := text[k + 1..];
        LinesStep(text);
        UnlinesCons(line, Lines(rest));
        UnlinesOfLines(rest);
        TerminatedAppend(line, rest);
      }
    }
  }

  /** A text without a newline is one line, written back with a newline. */
  lemma UnlinesOfLastLine(text: string)
    requires |text| > 0 && IndexOfNewline(text) == |text|
    ensures Unlines(Lines(text)) == Terminated(text)
  {
    assert Lines(text) == [text];
    UnlinesCons(text, []);
    assert text[|text| - 1] != Newline;
  }

  /** A text with a newline is its first line, the newline, and the rest. */
  lemma LinesStep(text: string)
    requires IndexOfNewline(text) < |text|
    ensures var k := IndexOfNewline(text);
      && Lines(text) == [text[..k]] + Lines(text[k + 1..])
      && text == text[..k] + [Newline] + text[k + 1..]
  {
    var k := IndexOfNewline(text);
    SplitAround(text, k);
  }

  lemma SplitAround(s: string, k: nat)
    requires k < |s|
    ensures s == s[..k] + [s[k]] + s[k + 1..]
  {
  }

  // ---------------------------------------------------------------------
  // to_string
  // ---------------------------------------------------------------------

  predicate IsDigit(c: char) { '0' <= c <= '9' }

  function DigitChar(d: nat): (c: char)
    requires d < 10
    ensures IsDigit(c) && c as int - '0' as int == d
  {
    (('0' as int) + d) as char
  }

  /** std::to_string on a non-negative value: its decimal digits, without
      leading zeros. */
  function NatToString(n: nat): (s: string)
    ensures |s| >= 1 && forall i :: 0 <= i < |s| ==> IsDigit(s[i])
    ensures s[0] == '0' ==> n == 0
  {
    if n < 10 then [DigitChar(n)] else NatToString(n / 10) + [DigitChar(n % 10)]
  }

  /** The value of a string of decimal digits. */
  function DigitsValue(s: string): nat
    requires forall i :: 0 <= i < |s| ==> IsDigit(s[i])
  {
    if |s| == 0 then 0
    else
      assert IsDigit(s[|s| - 1]);
      DigitsValue(s[..|s| - 1]) * 10 + (s[|s| - 1] as int - '0' as int)
  }

  /** Reading the digits back gives the number. */
  lemma {:induction false} NatToStringRoundTrip(n: nat)
    ensures DigitsValue(NatToString(n)) == n
  {
    if n >= 10 {
      NatToStringRoundTrip(n / 10);
      var s := NatToString(n);
      assert s[..|s| - 1] == NatToString(n / 10);
    }
  }

  /** Different numbers get different strings. */
  lemma NatToStringInjective(m: nat, n: nat)
    requires NatToString(m) == NatToString(n)
    ensures m == n
  {
    NatToStringRoundTrip(m);
    NatToStringRoundTrip(n);
  }
}
