/**
 * The handful of Python `str` operations the engine-output parser relies on,
 * with Python's own semantics: substring membership (`t in s`), the second
 * piece of `s.split(sep)`, the first piece of `s.split()`, `s.strip()`,
 * `int(s)` and `str(n)` for integers.
 *
 * The functions carry no quantified postconditions, so that unfolding them
 * stays cheap; what each one computes is stated by the lemma that follows it.
 */
module PyStr {
  import opened Wrappers

  /** Python's whitespace (`str.isspace`), which `split()` and `strip()` use. */
  predicate IsSpace(c: char) {
    || ('\t' <= c <= '\r')
    || ('\U{1C}' <= c <= '\U{1F}')
    || c == ' ' || c == '\U{85}' || c == '\U{A0}' || c == '\U{1680}'
    || ('\U{2000}' <= c <= '\U{200A}')
    || c == '\U{2028}' || c == '\U{2029}' || c == '\U{202F}' || c == '\U{205F}' || c == '\U{3000}'
  }

  predicate AllSpace(s: string) {
    forall i :: 0 <= i < |s| ==> IsSpace(s[i])
  }

  predicate NoSpace(s: string) {
    forall i :: 0 <= i < |s| ==> !IsSpace(s[i])
  }

  // ---------------------------------------------------------------------
  // Substring search

  /** `t` occurs in `s` at index `i`. */
  predicate OccursAt(s: string, t: string, i: nat) {
    i + |t| <= |s| && s[i..i + |t|] == t
  }

  /** `s.find(t)`: the index of the first occurrence of `t` in `s`, if any. */
  function Find(s: string, t: string): (r: Option<nat>)
    ensures r.Some? ==> r.value + |t| <= |s|
  {
    FindFrom(s, t, 0)
  }

  /** The forward scan behind `Find`, starting at index `k`. */
  function FindFrom(s: string, t: string, k: nat): (r: Option<nat>)
    ensures r.Some? ==> k <= r.value && r.value + |t| <= |s|
    decreases |s| - k
  {
    if |s| < k + |t| then None
    else if OccursAt(s, t, k) then Some(k)
    else FindFrom(s, t, k + 1)
  }

  lemma {:induction false} FindFromIsFirst(s: string, t: string, k: nat)
    ensures FindFrom(s, t, k).Some? ==> OccursAt(s, t, FindFrom(s, t, k).value)
    ensures FindFrom(s, t, k).Some? ==> forall j: nat :: k <= j < FindFrom(s, t, k).value ==> !OccursAt(s, t, j)
    ensures FindFrom(s, t, k).None? ==> forall j: nat :: k <= j ==> !OccursAt(s, t, j)
    decreases |s| - k
  {
    if |s| >= k + |t| && !OccursAt(s, t, k) {
      FindFromIsFirst(s, t, k + 1);
    }
  }

  /** `Find` answers the first occurrence, and `None` exactly when there is none. */
  lemma FindIsFirst(s: string, t: string)
    ensures Find(s, t).Some? ==> OccursAt(s, t, Find(s, t).value)
    ensures Find(s, t).Some? ==> forall j: nat :: j < Find(s, t).value ==> !OccursAt(s, t, j)
    ensures Find(s, t).None? ==> forall j: nat :: !OccursAt(s, t, j)
  {
    FindFromIsFirst(s, t, 0);
  }

  /** Python's `t in s`: a substring test. */
  predicate Contains(s: string, t: string) {
    Find(s, t).Some?
  }

  lemma ContainsIff(s: string, t: string)
    ensures Contains(s, t) <==> exists i: nat :: OccursAt(s, t, i)
  {
    FindIsFirst(s, t);
  }

  lemma ContainsWitness(s: string, t: string, i: nat)
    requires OccursAt(s, t, i)
    ensures Contains(s, t)
  {
    FindIsFirst(s, t);
  }

  lemma ContainsExtend(s: string, t: string, u: string)
    requires Contains(s, t)
    ensures Contains(s + u, t)
  {
    FindIsFirst(s, t);
    var i := Find(s, t).value;
    assert (s + u)[i..i + |t|] == s[i..i + |t|];
    ContainsWitness(s + u, t, i);
  }

  /** A string none of whose characters starts `t` does not contain `t`. */
  lemma NoStartNoContains(s: string, t: string)
    requires |t| > 0
    requires forall i :: 0 <= i < |s| ==> s[i] != t[0]
    ensures !Contains(s, t)
  {
    forall i: nat
      ensures !OccursAt(s, t, i)
    {
      if i + |t| <= |s| {
        assert s[i..i + |t|][0] == s[i];
      }
    }
    ContainsIff(s, t);
  }

  lemma OccursInSuffix(s: string, t: string, i: nat, k: nat)
    requires i <= |s| && OccursAt(s[i..], t, k)
    ensures OccursAt(s, t, i + k)
  {
    assert s[i..][k..k + |t|] == s[i + k..i + k + |t|];
  }

  /** When `sep` does not occur before `pre` ends, its first occurrence in `pre + sep + rest` is right after `pre`. */
  lemma FindAfterPrefix(pre: string, sep: string, rest: string)
    requires |sep| > 0
    requires !Contains(pre + sep[..|sep| - 1], sep)
    ensures Find(pre + sep + rest, sep) == Some(|pre|)
  {
    var s := pre + sep + rest;
    var p := pre + sep[..|sep| - 1];
    FindIsFirst(s, sep);
    FindIsFirst(p, sep);
    assert OccursAt(s, sep, |pre|) by {
      assert s[|pre|..|pre| + |sep|] == sep;
    }
    assert p == s[..|p|];
    forall i: nat | i < |pre|
      ensures !OccursAt(s, sep, i)
    {
      assert !OccursAt(p, sep, i);
      SliceOfPrefix(s, |p|, i, i + |sep|);
    }
  }

  lemma SliceOfPrefix(s: string, n: nat, a: nat, b: nat)
    requires a <= b <= n <= |s|
    ensures s[..n][a..b] == s[a..b]
  {
  }

  // ---------------------------------------------------------------------
  // Splitting on a separator

  /**
   * `s.split(sep)[1]`: the text between the first and the second occurrence
   * of `sep`, or up to the end of `s` when there is no second one. `None`
   * stands for the IndexError Python raises when `sep` does not occur.
   * Python rejects an empty separator.
   */
  function SplitSecond(s: string, sep: string): Option<string>
    requires |sep| > 0
  {
    match Find(s, sep)
    case None => None
    case Some(i) =>
      var rest := s[i + |sep|..];
      match Find(rest, sep)
      case None => Some(rest)
      case Some(j) => Some(rest[..j])
  }

  /**
   * The second piece exists exactly when `sep` occurs; it starts right after
   * the first occurrence, holds no `sep`, and ends at the next one or at the end.
   */
  lemma SplitSecondIsBetween(s: string, sep: string)
    requires |sep| > 0
    ensures SplitSecond(s, sep).Some? <==> Contains(s, sep)
    ensures SplitSecond(s, sep).Some? ==>
      var piece := SplitSecond(s, sep).value;
      var start := Find(s, sep).value + |sep|;
      && start + |piece| <= |s|
      && s[start..start + |piece|] == piece
      && !Contains(piece, sep)
      && (start + |piece| == |s| || OccursAt(s, sep, start + |piece|))
  {
    if Contains(s, sep) {
      var i := Find(s, sep).value;
      assert Find(s, sep) == Some(i);
      var start := i + |sep|;
      if Find(s[start..], sep).Some? {
        SplitSecondToNext(s, sep);
      } else {
        SplitSecondToEnd(s, sep);
      }
    }
  }

  /** With a second occurrence, the second piece runs up to it. */
  lemma SplitSecondToNext(s: string, sep: string)
    requires |sep| > 0 && Contains(s, sep)
    requires Find(s[Find(s, sep).value + |sep|..], sep).Some?
    ensures
      var start := Find(s, sep).value + |sep|;
      var j := Find(s[start..], sep).value;
      && SplitSecond(s, sep) == Some(s[start..start + j])
      && !Contains(s[start..start + j], sep)
      && OccursAt(s, sep, start + j)
  {
    var i := Find(s, sep).value;
    assert Find(s, sep) == Some(i);
    var start := i + |sep|;
    var rest := s[start..];
    var j := Find(rest, sep).value;
    assert Find(rest, sep) == Some(j);
    assert rest[..j] == s[start..start + j];
    FindIsFirst(rest, sep);
    OccursInSuffix(s, sep, start, j);
    BeforeFirstIsFree(rest, sep);
  }

  /** Without a second occurrence, the second piece runs to the end. */
  lemma SplitSecondToEnd(s: string, sep: string)
    requires |sep| > 0 && Contains(s, sep)
    requires Find(s[Find(s, sep).value + |sep|..], sep).None?
    ensures
      var start := Find(s, sep).value + |sep|;
      && SplitSecond(s, sep) == Some(s[start..])
      && !Contains(s[start..], sep)
  {
    var i := Find(s, sep).value;
    assert Find(s, sep) == Some(i);
  }

  /** The text before the first occurrence of `t` does not contain `t`. */
  lemma BeforeFirstIsFree(s: string, t: string)
    requires |t| > 0 && Find(s, t).Some?
    ensures !Contains(s[..Find(s, t).value], t)
  {
    var i := Find(s, t).value;
    FindIsFirst(s, t);
    forall k: nat
      ensures !OccursAt(s[..i], t, k)
    {
      if k + |t| <= i {
        assert !OccursAt(s, t, k);
        assert s[..i][k..k + |t|] == s[k..k + |t|];
      }
    }
    ContainsIff(s[..i], t);
  }

  // ---------------------------------------------------------------------
  // Whitespace-delimited tokens

  /** The number of whitespace characters `s` starts with. */
  function LeadingSpace(s: string): (k: nat)
    ensures k <= |s|
  {
    if |s| == 0 || !IsSpace(s[0]) then 0 else 1 + LeadingSpace(s[1..])
  }

  lemma {:induction false} LeadingSpaceIsMaximal(s: string)
    ensures LeadingSpace(s) <= |s| && AllSpace(s[..LeadingSpace(s)])
    ensures LeadingSpace(s) < |s| ==> !IsSpace(s[LeadingSpace(s)])
    decreases |s|
  {
    if |s| > 0 && IsSpace(s[0]) {
      LeadingSpaceIsMaximal(s[1..]);
      var k := LeadingSpace(s);
      assert s[..k] == [s[0]] + s[1..][..k - 1];
    }
  }

  /** The number of whitespace characters `s` ends with. */
  function TrailingSpace(s: string): (k: nat)
    ensures k <= |s|
  {
    if |s| == 0 || !IsSpace(s[|s| - 1]) then 0 else 1 + TrailingSpace(s[..|s| - 1])
  }

  lemma {:induction false} TrailingSpaceIsMaximal(s: string)
    ensures TrailingSpace(s) <= |s| && AllSpace(s[|s| - TrailingSpace(s)..])
    ensures TrailingSpace(s) < |s| ==> !IsSpace(s[|s| - TrailingSpace(s) - 1])
    decreases |s|
  {
    if |s| > 0 && IsSpace(s[|s| - 1]) {
      var init := s[..|s| - 1];
      TrailingSpaceIsMaximal(init);
      var k := TrailingSpace(s);
      var tail := init[|init| - (k - 1)..];
      var suffix := s[|s| - k..];
      forall i | 0 <= i < k
        ensures IsSpace(suffix[i])
      {
        if i < k - 1 {
          assert suffix[i] == tail[i];
        }
      }
      assert k < |s| ==> s[|s| - k - 1] == init[|init| - (k - 1) - 1];
    }
  }

  /** The length of the longest prefix of `s` without whitespace. */
  function WordLength(s: string): (k: nat)
    ensures k <= |s|
  {
    if |s| == 0 || IsSpace(s[0]) then 0 else 1 + WordLength(s[1..])
  }

  lemma {:induction false} WordLengthIsMaximal(s: string)
    ensures WordLength(s) <= |s| && NoSpace(s[..WordLength(s)])
    ensures WordLength(s) < |s| ==> IsSpace(s[WordLength(s)])
    decreases |s|
  {
    if |s| > 0 && !IsSpace(s[0]) {
      WordLengthIsMaximal(s[1..]);
      var k := WordLength(s);
      assert s[..k] == [s[0]] + s[1..][..k - 1];
    }
  }

  /**
   * `s.split()[0]`: the first maximal run of non-whitespace characters.
   * `None` stands for the IndexError Python raises when `s` is blank.
   */
  function FirstToken(s: string): Option<string>
  {
    var k := LeadingSpace(s);
    if k >= |s| then None else Some(s[k..][..WordLength(s[k..])])
  }

  /**
   * `split()[0]` fails exactly on blank text; otherwise it is a non-empty
   * run without whitespace that follows only whitespace and is followed by
   * whitespace or the end.
   */
  lemma FirstTokenIsFirstWord(s: string)
    ensures FirstToken(s).None? <==> AllSpace(s)
    ensures FirstToken(s).Some? ==>
      var tok := FirstToken(s).value;
      var k := LeadingSpace(s);
      && |tok| > 0
      && NoSpace(tok)
      && AllSpace(s[..k])
      && k + |tok| <= |s|
      && s[k..k + |tok|] == tok
      && (k + |tok| == |s| || IsSpace(s[k + |tok|]))
  {
    FirstTokenBlank(s);
    if FirstToken(s).Some? {
      FirstTokenShape(s);
    }
  }

  lemma FirstTokenBlank(s: string)
    ensures FirstToken(s).None? <==> AllSpace(s)
  {
    LeadingSpaceIsMaximal(s);
    var k := LeadingSpace(s);
    if k == |s| {
      assert s[..k] == s;
    } else {
      assert !IsSpace(s[k]);
    }
  }

  lemma FirstTokenShape(s: string)
    requires FirstToken(s).Some?
    ensures
      var tok := FirstToken(s).value;
      var k := LeadingSpace(s);
      && |tok| > 0
      && NoSpace(tok)
      && AllSpace(s[..k])
      && k + |tok| <= |s|
      && s[k..k + |tok|] == tok
      && (k + |tok| == |s| || IsSpace(s[k + |tok|]))
  {
    LeadingSpaceIsMaximal(s);
    var k := LeadingSpace(s);
    var x := s[k..];
    WordLengthIsMaximal(x);
    var w := WordLength(x);
    assert x[0] == s[k];
    var tok := x[..w];
    assert tok == s[k..k + w];
    assert k + w < |s| ==> s[k + w] == x[w];
  }

  /** `s.strip()`: `s` without its leading and trailing whitespace. */
  function Strip(s: string): string
  {
    var rest := s[LeadingSpace(s)..];
    rest[..|rest| - TrailingSpace(rest)]
  }

  /** `strip()` keeps the text between the leading and the trailing whitespace. */
  lemma StripIsCore(s: string)
    ensures
      var r := Strip(s);
      var k := LeadingSpace(s);
      && k + |r| <= |s|
      && s[k..k + |r|] == r
      && AllSpace(s[..k])
      && AllSpace(s[k + |r|..])
      && (|r| > 0 ==> !IsSpace(r[0]) && !IsSpace(r[|r| - 1]))
  {
    StripIsSlice(s);
    StripDropsSpace(s);
    StripEndsInText(s);
  }

  lemma StripIsSlice(s: string)
    ensures
      var r := Strip(s);
      var k := LeadingSpace(s);
      && k + |r| <= |s|
      && s[k..k + |r|] == r
  {
    var k := LeadingSpace(s);
    var rest := s[k..];
    var n := |rest| - TrailingSpace(rest);
    assert Strip(s) == rest[..n];
    assert s[k..k + n] == rest[..n];
  }

  lemma StripDropsSpace(s: string)
    ensures
      var r := Strip(s);
      var k := LeadingSpace(s);
      && k + |r| <= |s|
      && AllSpace(s[..k])
      && AllSpace(s[k + |r|..])
  {
    LeadingSpaceIsMaximal(s);
    StripDropsTrailingSpace(s);
  }

  lemma StripDropsTrailingSpace(s: string)
    ensures LeadingSpace(s) + |Strip(s)| <= |s|
    ensures AllSpace(s[LeadingSpace(s) + |Strip(s)|..])
  {
    var k := LeadingSpace(s);
    var rest := s[k..];
    TrailingSpaceIsMaximal(rest);
    var n := |rest| - TrailingSpace(rest);
    assert |Strip(s)| == n;
    SuffixOfSuffix(s, k, n);
    assert s[k + n..] == rest[n..];
  }

  lemma SuffixOfSuffix(s: string, a: nat, b: nat)
    requires a + b <= |s|
    ensures s[a..][b..] == s[a + b..]
  {
  }

  lemma StripEndsInText(s: string)
    ensures
      var r := Strip(s);
      |r| > 0 ==> !IsSpace(r[0]) && !IsSpace(r[|r| - 1])
  {
    LeadingSpaceIsMaximal(s);
    var k := LeadingSpace(s);
    var rest := s[k..];
    TrailingSpaceIsMaximal(rest);
    var n := |rest| - TrailingSpace(rest);
    var r := rest[..n];
    assert Strip(s) == r;
    if n > 0 {
      assert r[0] == rest[0];
      assert r[n - 1] == rest[n - 1];
    }
  }

  lemma AllSpaceConcat(a: string, b: string)
    requires AllSpace(a) && AllSpace(b)
    ensures AllSpace(a + b)
  {
  }

  /** Leading whitespace, then a token, then whitespace or the end: `split()[0]` is that token. */
  lemma FirstTokenOf(w: string, tok: string, x: string)
    requires AllSpace(w) && |tok| > 0 && NoSpace(tok)
    requires x == [] || IsSpace(x[0])
    ensures FirstToken(w + tok + x) == Some(tok)
  {
    var s := w + tok + x;
    FirstTokenIsFirstWord(s);
    LeadingSpaceIsMaximal(s);
    assert s[|w|] == tok[0];
    assert LeadingSpace(s) == |w|;
    assert s[|w|..|w| + |tok|] == tok;
  }

  /** Stripping before splitting, as `s.strip().split()[0]` does, never changes the first token. */
  lemma StripKeepsFirstToken(s: string)
    ensures FirstToken(Strip(s)) == FirstToken(s)
  {
    StripIsCore(s);
    var k := LeadingSpace(s);
    var r := Strip(s);
    if |r| == 0 {
      FirstTokenIsFirstWord(s);
      FirstTokenIsFirstWord(r);
      assert s == s[..k] + s[k..];
      AllSpaceConcat(s[..k], s[k..]);
    } else {
      LeadingSpaceIsMaximal(r);
      assert LeadingSpace(r) == 0;
      var x := s[k..];
      WordLengthIsMaximal(r);
      var n := WordLength(r);
      assert x[..n] == r[..n];
      assert n < |r| ==> x[n] == r[n];
      assert n == |r| && n < |x| ==> x[n] == s[k + |r|..][0];
      WordLengthUnique(x, n);
      assert r[..n] == x[..n];
    }
  }

  /** A prefix without whitespace that whitespace or the end follows has the word's length. */
  lemma {:induction false} WordLengthUnique(x: string, n: nat)
    requires n <= |x| && NoSpace(x[..n])
    requires n == |x| || IsSpace(x[n])
    ensures WordLength(x) == n
    decreases n
  {
    if n > 0 {
      assert !IsSpace(x[..n][0]);
      assert x[1..][..n - 1] == x[..n][1..];
      WordLengthUnique(x[1..], n - 1);
    }
  }

  /** `s.split(sep)[1].split()[0]`: the first token after the first `sep`. */
  function TokenAfter(s: string, sep: string): Option<string>
    requires |sep| > 0
  {
    match SplitSecond(s, sep)
    case None => None
    case Some(piece) => FirstToken(piece)
  }

  /** A token read after `sep` is a non-empty run without whitespace, and `sep` is in the text. */
  lemma TokenAfterIsToken(s: string, sep: string)
    requires |sep| > 0
    ensures TokenAfter(s, sep).Some? ==>
      && Contains(s, sep)
      && |TokenAfter(s, sep).value| > 0
      && NoSpace(TokenAfter(s, sep).value)
  {
    SplitSecondIsBetween(s, sep);
    if SplitSecond(s, sep).Some? {
      FirstTokenIsFirstWord(SplitSecond(s, sep).value);
    }
  }

  /** After a single space, `sep` cannot start inside a token free of it that whitespace ends. */
  lemma NoEarlyOccurrence(sep: string, tok: string, tail: string)
    requires |sep| > 0 && NoSpace(sep)
    requires !Contains(tok, sep)
    requires tail == [] || IsSpace(tail[0])
    ensures forall j: nat :: j < 1 + |tok| ==> !OccursAt(" " + tok + tail, sep, j)
  {
    var rest := " " + tok + tail;
    ContainsIff(tok, sep);
    forall j: nat | j < 1 + |tok|
      ensures !OccursAt(rest, sep, j)
    {
      if j + |sep| <= |rest| {
        var window := rest[j..j + |sep|];
        if j == 0 {
          assert window[0] == ' ';
        } else if j + |sep| <= 1 + |tok| {
          assert window == tok[j - 1..j - 1 + |sep|];
          assert !OccursAt(tok, sep, j - 1);
        } else {
          assert window[1 + |tok| - j] == rest[1 + |tok|];
        }
      }
    }
  }

  /**
   * Reading back what a writer puts after a keyword: in
   * `pre + sep + " " + tok + tail`, where `sep` first occurs after `pre`
   * and `tail` is empty or starts with whitespace, the token after `sep` is `tok`.
   */
  lemma TokenAfterRoundTrip(pre: string, sep: string, tok: string, tail: string)
    requires |sep| > 0 && NoSpace(sep)
    requires !Contains(pre + sep[..|sep| - 1], sep)
    requires |tok| > 0 && NoSpace(tok) && !Contains(tok, sep)
    requires tail == [] || IsSpace(tail[0])
    ensures TokenAfter(pre + sep + " " + tok + tail, sep) == Some(tok)
  {
    var rest := " " + tok + tail;
    var s := pre + sep + " " + tok + tail;
    assert s == pre + sep + rest;
    FindAfterPrefix(pre, sep, rest);
    assert s[|pre| + |sep|..] == rest;
    assert AllSpace(" ");
    FindIsFirst(rest, sep);
    match Find(rest, sep)
    case None =>
      FirstTokenOf(" ", tok, tail);
    case Some(j) =>
      NoEarlyOccurrence(sep, tok, tail);
      var x := tail[..j - 1 - |tok|];
      assert rest[..j] == " " + tok + x;
      FirstTokenOf(" ", tok, x);
  }

  // ---------------------------------------------------------------------
  // Integers

  predicate IsDigit(c: char) {
    '0' <= c <= '9'
  }

  function DigitValue(c: char): nat
    requires IsDigit(c)
  {
    c as int - '0' as int
  }

  function DigitChar(d: nat): (c: char)
    requires d < 10
    ensures IsDigit(c) && DigitValue(c) == d
  {
    ('0' as int + d) as char
  }

  /**
   * The body of a base-10 literal `int()` accepts: digits, with single
   * underscores between digits (`digit ("_"? digit)*`).
   */
  predicate DigitRun(s: string)
    decreases |s|
  {
    && |s| > 0
    && IsDigit(s[|s| - 1])
    && (|| |s| == 1
        || DigitRun(s[..|s| - 1])
        || (|s| >= 3 && s[|s| - 2] == '_' && DigitRun(s[..|s| - 2])))
  }

  /** The value of a digit run; underscores are only separators. */
  function DigitsValue(s: string): nat
    requires DigitRun(s)
    decreases |s|
  {
    var last := DigitValue(s[|s| - 1]);
    if |s| == 1 then last
    else if DigitRun(s[..|s| - 1]) then 10 * DigitsValue(s[..|s| - 1]) + last
    else 10 * DigitsValue(s[..|s| - 2]) + last
  }

  /**
   * The whitespace characters `int()` does not skip: U+001C..U+001F count as
   * whitespace for `str.isspace`, but `int()` only skips the ASCII blanks
   * and non-ASCII whitespace, so these are neither whitespace nor digits to it.
   */
  predicate IsSeparatorControl(c: char) {
    '\U{1C}' <= c <= '\U{1F}'
  }

  /**
   * `int(s)` in base 10. `None` stands for the ValueError Python raises.
   * Around the literal `int()` skips the same whitespace as `strip()`,
   * except U+001C..U+001F, which make it raise wherever they stand.
   */
  function ParseInt(s: string): Option<int> {
    if exists i :: 0 <= i < |s| && IsSeparatorControl(s[i]) then None
    else
      var body := Strip(s);
      if |body| > 0 && (body[0] == '-' || body[0] == '+') then
        var digits := body[1..];
        if DigitRun(digits) then
          var v: int := DigitsValue(digits);
          Some(if body[0] == '-' then -v else v)
        else None
      else if DigitRun(body) then Some(DigitsValue(body))
      else None
  }

  /**
   * `strip()` removes a leading U+001C, but `int()` rejects it: `int("\x1c5")`
   * raises although `"\x1c5".strip()` is `"5"`.
   */
  lemma ParseIntRejectsSeparatorControl(s: string)
    requires s == "\U{1C}5"
    ensures Strip(s) == "5"
    ensures ParseInt(s) == None
  {
    assert IsSeparatorControl(s[0]);
    LeadingSpaceIsMaximal(s);
    assert LeadingSpace(s) == 1;
    assert TrailingSpace(s[1..]) == 0;
  }

  /** The decimal digits of `n`, without leading zeros. */
  function Digits(n: nat): string
  {
    if n < 10 then [DigitChar(n)] else Digits(n / 10) + [DigitChar(n % 10)]
  }

  /** `str(n)` for a Python int. */
  function DecimalText(n: int): string
  {
    if n < 0 then "-" + Digits(-n) else Digits(n)
  }

  /** The digits of `n` form a digit run worth `n`. */
  lemma {:induction false} DigitsValueOfDigits(n: nat)
    ensures DigitRun(Digits(n))
    ensures DigitsValue(Digits(n)) == n
    ensures forall i :: 0 <= i < |Digits(n)| ==> IsDigit(Digits(n)[i])
  {
    if n >= 10 {
      DigitsValueOfDigits(n / 10);
      var r := Digits(n);
      assert r[..|r| - 1] == Digits(n / 10);
    }
  }

  /** `str(n)` is a minus sign for negatives, then digits only. */
  lemma DecimalTextChars(n: int)
    ensures forall i :: 0 <= i < |DecimalText(n)| ==>
      IsDigit(DecimalText(n)[i]) || (i == 0 && n < 0 && DecimalText(n)[i] == '-')
  {
    if n < 0 {
      DigitsValueOfDigits(-n);
    } else {
      DigitsValueOfDigits(n);
    }
  }

  lemma StripNoSpace(s: string)
    requires NoSpace(s)
    ensures Strip(s) == s
  {
    StripIsCore(s);
    LeadingSpaceIsMaximal(s);
    assert LeadingSpace(s) == 0;
  }

  /** `str(n)` is a non-empty run without whitespace. */
  lemma DecimalTextIsToken(n: int)
    ensures |DecimalText(n)| > 0 && NoSpace(DecimalText(n))
  {
    var text := DecimalText(n);
    var m: nat := if n < 0 then -n else n;
    var d := Digits(m);
    DigitsValueOfDigits(m);
    forall i | 0 <= i < |text|
      ensures !IsSpace(text[i])
    {
      if n >= 0 {
        assert IsDigit(d[i]);
      } else if i > 0 {
        assert text[i] == d[i - 1];
        assert IsDigit(d[i - 1]);
      }
    }
  }

  /** `int(str(n)) == n`: the decimal rendering of an integer parses back to it. */
  lemma ParseDecimalText(n: int)
    ensures ParseInt(DecimalText(n)) == Some(n)
  {
    var text := DecimalText(n);
    var m: nat := if n < 0 then -n else n;
    var d := Digits(m);
    DigitsValueOfDigits(m);
    DecimalTextIsToken(n);
    StripNoSpace(text);
    if n < 0 {
      assert text[1..] == d;
    } else {
      assert IsDigit(text[0]);
    }
  }
}
