/** The description rewrite script: two global regular-expression replacements,
    bold first, then inline code. Reading and writing the file around them is not
    part of this module. */
module Fix {
  import opened Optional
  import opened Text

  const BoldDelimiter := "**"
  const StrongOpen := "<strong>"
  const StrongClose := "</strong>"

  const CodeDelimiter := "`"
  /** The Tailwind classes of the inline code element. */
  const CodeClasses := "rounded bg-slate-200 px-1 py-0.5 text-sm dark:bg-slate-700"
  const CodeOpen := "<code class=\"" + CodeClasses + "\">"
  const CodeClose := "</code>"

  /** The lazy group `(.*?)` followed by the closing delimiter, tried from
      position `from`: the first position at which `d` occurs, provided no line
      terminator lies between `from` and it. */
  function CloseAt(s: string, from: nat, d: string): (r: Option<nat>)
    requires from <= |s|
    ensures r.Some? ==> from <= r.value <= |s| && OccursAt(s, d, r.value)
    ensures r.Some? ==> forall j :: from <= j < r.value ==> !OccursAt(s, d, j)
    ensures r.Some? ==> forall j :: from <= j < r.value ==> !IsLineTerminator(s[j])
    decreases |s| - from
  {
    if OccursAt(s, d, from) then Some(from)
    else if from < |s| && !IsLineTerminator(s[from]) then CloseAt(s, from + 1, d)
    else None
  }

  /** The lazy group stops at the first occurrence of the delimiter when no line
      terminator comes before it. */
  lemma {:induction false} CloseAtFindsFirst(s: string, from: nat, d: string, k: nat)
    requires from <= k && OccursAt(s, d, k)
    requires forall j :: from <= j < k ==> !OccursAt(s, d, j)
    requires forall j :: from <= j < k ==> !IsLineTerminator(s[j])
    ensures CloseAt(s, from, d) == Some(k)
    decreases k - from
  {
    if from < k {
      CloseAtFindsFirst(s, from + 1, d, k);
    }
  }

  /** `s.replace(/D(.*?)D/g, open + '$1' + close)` for the delimiter `d`: scanning
      left to right, each match found at the current position is replaced and the
      scan resumes after it; where no match starts, one character is kept and the
      scan moves on by one. */
  function Rewrite(s: string, d: string, open: string, close: string): (r: string)
    requires |d| > 0
    ensures forall c :: c in r ==> c in s || c in open || c in close
    decreases |s|, 1
  {
    if |s| == 0 then "" else RewriteFrom(s, d, open, close, MatchAt(s, d))
  }

  /** Where the match starting at the front of `s` closes, if one starts there. */
  function MatchAt(s: string, d: string): (r: Option<nat>)
    requires |d| > 0
    ensures r.Some? ==> |d| <= r.value && r.value + |d| <= |s|
    ensures r.Some? ==> OccursAt(s, d, 0) && OccursAt(s, d, r.value)
    ensures r.Some? ==> forall j :: |d| <= j < r.value ==> !OccursAt(s, d, j)
    ensures r.Some? ==> forall j :: |d| <= j < r.value ==> !IsLineTerminator(s[j])
  {
    if OccursAt(s, d, 0) then CloseAt(s, |d|, d) else None
  }

  /** The rest of the scan once it is known whether a match starts the text:
      the match is replaced and the scan resumes after it, or the first
      character is kept and the scan moves on by one. */
  function RewriteFrom(s: string, d: string, open: string, close: string, c: Option<nat>): (r: string)
    requires |d| > 0 && |s| > 0
    requires c.Some? ==> |d| <= c.value && c.value + |d| <= |s|
    ensures forall ch :: ch in r ==> ch in s || ch in open || ch in close
    decreases |s|, 0
  {
    match c
    case Some(k) =>
      assert forall ch :: ch in s[|d|..k] || ch in s[k + |d|..] ==> ch in s;
      open + s[|d|..k] + close + Rewrite(s[k + |d|..], d, open, close)
    case None =>
      assert forall ch :: ch in s[1..] ==> ch in s;
      [s[0]] + Rewrite(s[1..], d, open, close)
  }

  /** The first replacement: `**x**` becomes `<strong>x</strong>`. */
  function Bold(s: string): (r: string)
    ensures '<' !in s ==> Restore(r, BoldDelimiter, StrongOpen, StrongClose) == s
    ensures forall c :: c in r ==> c in s || c in StrongOpen || c in StrongClose
  {
    var r := Rewrite(s, BoldDelimiter, StrongOpen, StrongClose);
    if '<' in s then r
    else
      RestoreRewrite(s, BoldDelimiter, StrongOpen, StrongClose);
      r
  }

  /** The second replacement: a backquoted span becomes a styled `<code>` element. */
  function Code(s: string): (r: string)
    ensures '<' !in s ==> Restore(r, CodeDelimiter, CodeOpen, CodeClose) == s
    ensures forall c :: c in r ==> c in s || c in CodeOpen || c in CodeClose
  {
    var r := Rewrite(s, CodeDelimiter, CodeOpen, CodeClose);
    if '<' in s then r
    else
      assert CodeOpen[0] == '<' && CodeOpen[1] == 'c';
      assert CodeClose[0] == '<' && CodeClose[1] == '/';
      RestoreRewrite(s, CodeDelimiter, CodeOpen, CodeClose);
      r
  }

  /** The script's content transformation: bold first, then code. */
  function FixDescriptions(content: string): (r: string)
    ensures forall c :: c in r ==>
              c in content || c in StrongOpen || c in StrongClose || c in CodeOpen || c in CodeClose
  {
    Code(Bold(content))
  }

  // ---------------------------------------------------------------------------
  // Text the scan passes over

  /** A stretch of text in which no match can start is copied unchanged, and the
      scan carries on after it. */
  lemma {:induction false} PlainPrefixKept(s: string, d: string, open: string, close: string, m: nat)
    requires |d| > 0 && m <= |s|
    requires forall j :: 0 <= j < m ==> !OccursAt(s, d, j)
    ensures Rewrite(s, d, open, close) == s[..m] + Rewrite(s[m..], d, open, close)
    decreases m
  {
    if m > 0 {
      assert !OccursAt(s, d, 0);
      forall j | 0 <= j < m - 1
        ensures !OccursAt(s[1..], d, j)
      {
        OccursInTail(s, d, j);
      }
      PlainPrefixKept(s[1..], d, open, close, m - 1);
      assert s[1..][m - 1..] == s[m..];
      assert s[..m] == [s[0]] + s[1..][..m - 1];
    } else {
      assert s[..0] + s[0..] == s;
    }
  }

  /** A stretch of text at none of whose positions a whole match starts is copied
      unchanged, and the scan carries on after it: the delimiter may start there
      as long as no closing delimiter follows on its line. */
  lemma {:induction false} UnmatchedPrefixKept(s: string, d: string, open: string, close: string, m: nat)
    requires |d| > 0 && m <= |s|
    requires forall j :: 0 <= j < m ==> MatchAt(s[j..], d) == None
    ensures Rewrite(s, d, open, close) == s[..m] + Rewrite(s[m..], d, open, close)
    decreases m
  {
    if m > 0 {
      assert s[0..] == s;
      forall j | 0 <= j < m - 1
        ensures MatchAt(s[1..][j..], d) == None
      {
        assert s[1..][j..] == s[j + 1..];
      }
      UnmatchedPrefixKept(s[1..], d, open, close, m - 1);
      assert s[1..][m - 1..] == s[m..];
      assert s[..m] == [s[0]] + s[1..][..m - 1];
    } else {
      assert s[..0] + s[0..] == s;
    }
  }

  /** Text in which the delimiter never occurs is left unchanged. */
  lemma NoDelimiterUnchanged(s: string, d: string, open: string, close: string)
    requires |d| > 0
    requires forall j :: !OccursAt(s, d, j)
    ensures Rewrite(s, d, open, close) == s
  {
    PlainPrefixKept(s, d, open, close, |s|);
    assert s[..|s|] == s;
  }

  /** Text that does not include `**` is unchanged by the bold pass. */
  lemma BoldWithoutDelimiterUnchanged(s: string)
    requires !Includes(s, BoldDelimiter)
    ensures Bold(s) == s
  {
    IncludesIffOccurs(s, BoldDelimiter);
    NoDelimiterUnchanged(s, BoldDelimiter, StrongOpen, StrongClose);
  }

  /** Text that holds no backquote is unchanged by the code pass. */
  lemma CodeWithoutDelimiterUnchanged(s: string)
    requires !Includes(s, CodeDelimiter)
    ensures Code(s) == s
  {
    IncludesIffOccurs(s, CodeDelimiter);
    NoDelimiterUnchanged(s, CodeDelimiter, CodeOpen, CodeClose);
  }

  // ---------------------------------------------------------------------------
  // Matches

  /** The shortest closing: the delimiter, some text on one line in which the
      delimiter does not start, the delimiter again. Such a span is replaced by the
      tags around the text, and the scan resumes right after it. */
  lemma PairRewritten(d: string, open: string, close: string, x: string, rest: string)
    requires |d| > 0 && OnOneLine(x)
    requires forall j :: 0 <= j < |x| ==> !OccursAt(x + d, d, j)
    ensures Rewrite(d + x + d + rest, d, open, close) == open + x + close + Rewrite(rest, d, open, close)
  {
    var s := d + x + d + rest;
    var k := |d| + |x|;
    PairCloses(d, x, rest);
    RewriteAtMatch(s, d, open, close, k);
    assert s[|d|..k] == x;
    assert s[k + |d|..] == rest;
  }

  /** In `d + x + d + rest` a match starts the text and closes at the second `d`. */
  lemma PairCloses(d: string, x: string, rest: string)
    requires |d| > 0 && OnOneLine(x)
    requires forall j :: 0 <= j < |x| ==> !OccursAt(x + d, d, j)
    ensures OccursAt(d + x + d + rest, d, 0)
    ensures CloseAt(d + x + d + rest, |d|, d) == Some(|d| + |x|)
  {
    PairDelimiters(d, x, rest);
    PairScan(d, x, rest, |d|);
  }

  /** Scanning `d + x + d + rest` from inside `x`, the lazy group runs on to the
      second delimiter. */
  lemma {:induction false} PairScan(d: string, x: string, rest: string, i: nat)
    requires |d| > 0 && OnOneLine(x) && |d| <= i <= |d| + |x|
    requires forall j :: 0 <= j < |x| ==> !OccursAt(x + d, d, j)
    ensures CloseAt(d + x + d + rest, i, d) == Some(|d| + |x|)
    decreases |d| + |x| - i
  {
    var s := d + x + d + rest;
    if i < |d| + |x| {
      PairInside(d, x, rest, i);
      CloseAtStep(s, i, d);
      PairScan(d, x, rest, i + 1);
    } else {
      PairDelimiters(d, x, rest);
      CloseAtHere(s, i, d);
    }
  }

  /** Where the delimiter does not start and no line ends, the lazy group moves on. */
  lemma CloseAtStep(s: string, from: nat, d: string)
    requires from < |s| && !OccursAt(s, d, from) && !IsLineTerminator(s[from])
    ensures CloseAt(s, from, d) == CloseAt(s, from + 1, d)
  {
  }

  /** Where the delimiter starts, the lazy group stops. */
  lemma CloseAtHere(s: string, from: nat, d: string)
    requires from <= |s| && OccursAt(s, d, from)
    ensures CloseAt(s, from, d) == Some(from)
  {
  }

  /** `d + x + d + rest` has the delimiter at the front and right after `x`. */
  lemma PairDelimiters(d: string, x: string, rest: string)
    ensures OccursAt(d + x + d + rest, d, 0)
    ensures OccursAt(d + x + d + rest, d, |d| + |x|)
  {
    var s := d + x + d + rest;
    assert OccursAt(d, d, 0);
    assert s == d + (x + d + rest);
    OccursBeforeSuffix(d, x + d + rest, d, 0);
    assert s == (d + x) + (d + rest);
    OccursBeforeSuffix(d, rest, d, 0);
    OccursAfterPrefix(d + x, d + rest, d, 0);
  }

  /** Inside `x` the text of `d + x + d + rest` is that of `x + d`. */
  lemma PairInside(d: string, x: string, rest: string, j: int)
    requires |d| <= j < |d| + |x| && OnOneLine(x)
    requires !OccursAt(x + d, d, j - |d|)
    ensures !OccursAt(d + x + d + rest, d, j)
    ensures !IsLineTerminator((d + x + d + rest)[j])
  {
    var s := d + x + d + rest;
    assert s == d + ((x + d) + rest);
    OccursBeforeSuffix(x + d, rest, d, j - |d|);
    OccursAfterPrefix(d, (x + d) + rest, d, j - |d|);
    assert s[j] == x[j - |d|];
  }

  /** `**x**` becomes `<strong>x</strong>` when `x` is on one line and holds no `*`. */
  lemma BoldPairRewritten(x: string, rest: string)
    requires OnOneLine(x) && forall i :: 0 <= i < |x| ==> x[i] != '*'
    ensures Bold("**" + x + "**" + rest) == "<strong>" + x + "</strong>" + Bold(rest)
  {
    forall j | 0 <= j < |x|
      ensures !OccursAt(x + BoldDelimiter, BoldDelimiter, j)
    {
      assert (x + BoldDelimiter)[j] == x[j] && BoldDelimiter[0] == '*';
      assert !SameCharAt(x + BoldDelimiter, BoldDelimiter, j, 0);
    }
    PairRewritten(BoldDelimiter, StrongOpen, StrongClose, x, rest);
  }

  /** A backquoted span on one line becomes a `<code>` element. */
  lemma CodePairRewritten(x: string, rest: string)
    requires OnOneLine(x) && forall i :: 0 <= i < |x| ==> x[i] != '`'
    ensures Code("`" + x + "`" + rest) == CodeOpen + x + CodeClose + Code(rest)
  {
    forall j | 0 <= j < |x|
      ensures !OccursAt(x + CodeDelimiter, CodeDelimiter, j)
    {
      assert (x + CodeDelimiter)[j] == x[j] && CodeDelimiter[0] == '`';
      assert !SameCharAt(x + CodeDelimiter, CodeDelimiter, j, 0);
    }
    PairRewritten(CodeDelimiter, CodeOpen, CodeClose, x, rest);
  }

  /** The lazy group gives up at the end of the line: with no closing delimiter
      before the line terminator at `m`, there is no match. */
  lemma {:induction false} NoCloseBeforeLineEnd(s: string, from: nat, d: string, m: nat)
    requires |d| > 0 && !IsLineTerminator(d[0])
    requires from <= m < |s| && IsLineTerminator(s[m])
    requires forall j :: from <= j < m ==> !OccursAt(s, d, j)
    ensures CloseAt(s, from, d) == None
    decreases m - from
  {
    if from < m {
      NoCloseBeforeLineEnd(s, from + 1, d, m);
    } else {
      assert !SameCharAt(s, d, from, 0);
    }
  }

  /** An opening delimiter with no closing one before the end of its line is left
      in place, and so is the rest of that line: `.` does not match a line
      terminator. */
  lemma UnclosedOpenerKept(d: string, open: string, close: string, x: string, t: char, rest: string)
    requires |d| > 0 && OnOneLine(d) && OnOneLine(x) && IsLineTerminator(t)
    requires forall j :: 1 <= j < |d| + |x| ==> !OccursAt(d + x + [t] + rest, d, j)
    ensures Rewrite(d + x + [t] + rest, d, open, close) == d + x + [t] + Rewrite(rest, d, open, close)
  {
    var s := d + x + [t] + rest;
    var m := |d| + |x|;
    UnclosedHasNoMatch(d, x, t, rest);
    UnclosedTailIsPlain(d, x, t, rest);
    var s1 := s[1..];
    assert Rewrite(s, d, open, close) == [s[0]] + Rewrite(s1, d, open, close);
    PlainPrefixKept(s1, d, open, close, m);
    assert s1[m..] == rest;
    assert [s[0]] + s1[..m] == d + x + [t];
  }

  /** The opening delimiter of `d + x + [t] + rest` finds no closing one. */
  lemma UnclosedHasNoMatch(d: string, x: string, t: char, rest: string)
    requires |d| > 0 && OnOneLine(d) && OnOneLine(x) && IsLineTerminator(t)
    requires forall j :: 1 <= j < |d| + |x| ==> !OccursAt(d + x + [t] + rest, d, j)
    ensures CloseAt(d + x + [t] + rest, |d|, d) == None
  {
    var s := d + x + [t] + rest;
    assert s[|d| + |x|] == t;
    NoCloseBeforeLineEnd(s, |d|, d, |d| + |x|);
  }

  /** After the first character of `d + x + [t] + rest`, no delimiter starts
      before `rest`. */
  lemma UnclosedTailIsPlain(d: string, x: string, t: char, rest: string)
    requires |d| > 0 && OnOneLine(d) && IsLineTerminator(t)
    requires forall j :: 1 <= j < |d| + |x| ==> !OccursAt(d + x + [t] + rest, d, j)
    ensures forall j :: 0 <= j < |d| + |x| ==> !OccursAt((d + x + [t] + rest)[1..], d, j)
  {
    var s := d + x + [t] + rest;
    var m := |d| + |x|;
    forall j | 0 <= j < m
      ensures !OccursAt(s[1..], d, j)
    {
      OccursInTail(s, d, j);
      if j + 1 == m {
        assert s[m] == t;
        assert !SameCharAt(s, d, m, 0);
      }
    }
  }

  /** `**` followed by text without `*` and then a line break is kept as is. */
  lemma BoldUnclosedKept(x: string, t: char, rest: string)
    requires OnOneLine(x) && IsLineTerminator(t)
    requires forall i :: 0 <= i < |x| ==> x[i] != '*'
    ensures Bold("**" + x + [t] + rest) == "**" + x + [t] + Bold(rest)
  {
    var s := BoldDelimiter + x + [t] + rest;
    forall j | 1 <= j < 2 + |x|
      ensures !OccursAt(s, BoldDelimiter, j)
    {
      assert s[j + 1] == (x + [t])[j - 1] && BoldDelimiter[1] == '*';
      assert !SameCharAt(s, BoldDelimiter, j, 1);
    }
    UnclosedOpenerKept(BoldDelimiter, StrongOpen, StrongClose, x, t, rest);
  }

  /** A backquote with no partner before the end of its line is kept as is. */
  lemma CodeUnclosedKept(x: string, t: char, rest: string)
    requires OnOneLine(x) && IsLineTerminator(t)
    requires forall i :: 0 <= i < |x| ==> x[i] != '`'
    ensures Code("`" + x + [t] + rest) == "`" + x + [t] + Code(rest)
  {
    var s := CodeDelimiter + x + [t] + rest;
    forall j | 1 <= j < 1 + |x|
      ensures !OccursAt(s, CodeDelimiter, j)
    {
      assert s[j] == x[j - 1] && CodeDelimiter[0] == '`';
      assert !SameCharAt(s, CodeDelimiter, j, 0);
    }
    UnclosedOpenerKept(CodeDelimiter, CodeOpen, CodeClose, x, t, rest);
  }

  /** An opening delimiter at the end of the text, with no closing one after it,
      is left in place with everything that follows it. */
  lemma UnclosedAtEndKept(d: string, open: string, close: string, x: string)
    requires |d| > 0
    requires forall j :: 1 <= j < |d| + |x| ==> !OccursAt(d + x, d, j)
    ensures Rewrite(d + x, d, open, close) == d + x
  {
    var s := d + x;
    assert MatchAt(s, d) == None by {
      if OccursAt(s, d, 0) {
        var r := CloseAt(s, |d|, d);
        if r.Some? {
          assert !OccursAt(s, d, r.value);
        }
      }
    }
    forall j ensures !OccursAt(s[1..], d, j) {
      if 0 <= j {
        OccursInTail(s, d, j);
      }
    }
    NoDelimiterUnchanged(s[1..], d, open, close);
    assert s == [s[0]] + s[1..];
  }

  /** `**` at the end of the text, followed by text without `*`, is kept as is. */
  lemma BoldUnclosedAtEndKept(x: string)
    requires forall i :: 0 <= i < |x| ==> x[i] != '*'
    ensures Bold("**" + x) == "**" + x
  {
    var s := BoldDelimiter + x;
    forall j | 1 <= j < 2 + |x|
      ensures !OccursAt(s, BoldDelimiter, j)
    {
      if j + 2 <= |s| {
        assert s[j + 1] == x[j - 1] && BoldDelimiter[1] == '*';
        assert !SameCharAt(s, BoldDelimiter, j, 1);
      }
    }
    UnclosedAtEndKept(BoldDelimiter, StrongOpen, StrongClose, x);
  }

  /** A backquote at the end of the text with no partner after it is kept as is. */
  lemma CodeUnclosedAtEndKept(x: string)
    requires forall i :: 0 <= i < |x| ==> x[i] != '`'
    ensures Code("`" + x) == "`" + x
  {
    var s := CodeDelimiter + x;
    forall j | 1 <= j < 1 + |x|
      ensures !OccursAt(s, CodeDelimiter, j)
    {
      assert s[j] == x[j - 1] && CodeDelimiter[0] == '`';
      assert !SameCharAt(s, CodeDelimiter, j, 0);
    }
    UnclosedAtEndKept(CodeDelimiter, CodeOpen, CodeClose, x);
  }

  // ---------------------------------------------------------------------------
  // Nothing is lost: putting the delimiters back gives the original text

  /** Replaces each opening and each closing tag by the delimiter again. */
  function Restore(t: string, d: string, open: string, close: string): string
    requires |open| > 0 && |close| > 0
    decreases |t|
  {
    if |t| == 0 then ""
    else if open <= t then d + Restore(t[|open|..], d, open, close)
    else if close <= t then d + Restore(t[|close|..], d, open, close)
    else [t[0]] + Restore(t[1..], d, open, close)
  }

  /** Tags that both start with `<` and differ in their second character. */
  predicate DistinctTags(open: string, close: string)
  {
    |open| >= 2 && |close| >= 2 && open[0] == '<' && close[0] == '<' && open[1] != close[1]
  }

  /** Text without `<` passes through Restore unchanged. */
  lemma {:induction false} RestorePlain(p: string, u: string, d: string, open: string, close: string)
    requires DistinctTags(open, close) && '<' !in p
    ensures Restore(p + u, d, open, close) == p + Restore(u, d, open, close)
    decreases |p|
  {
    if |p| > 0 {
      var t := p + u;
      assert t[0] == p[0] && t[0] != '<';
      assert !(open <= t) && !(close <= t);
      assert t[1..] == p[1..] + u;
      RestorePlain(p[1..], u, d, open, close);
      assert p == [p[0]] + p[1..];
    } else {
      assert p + u == u;
    }
  }

  /** Restore turns an opening tag and a closing tag back into the delimiter. */
  lemma RestoreTags(u: string, d: string, open: string, close: string)
    requires DistinctTags(open, close)
    ensures Restore(open + u, d, open, close) == d + Restore(u, d, open, close)
    ensures Restore(close + u, d, open, close) == d + Restore(u, d, open, close)
  {
    assert (open + u)[..|open|] == open && (open + u)[|open|..] == u;
    assert (close + u)[1] == close[1];
    assert (close + u)[..|close|] == close && (close + u)[|close|..] == u;
  }

  /** The rewrite is lossless on text without `<`: replacing every tag it wrote by
      the delimiter recovers the input exactly. */
  lemma {:induction false} RestoreRewrite(s: string, d: string, open: string, close: string)
    requires |d| > 0 && DistinctTags(open, close) && '<' !in s
    ensures Restore(Rewrite(s, d, open, close), d, open, close) == s
    decreases |s|
  {
    if |s| > 0 {
      if OccursAt(s, d, 0) && CloseAt(s, |d|, d).Some? {
        var k := CloseAt(s, |d|, d).value;
        NoAngleInSlice(s, k + |d|, |s|);
        assert s[k + |d|..|s|] == s[k + |d|..];
        RestoreRewrite(s[k + |d|..], d, open, close);
        RestoreMatchStep(s, d, open, close, k);
        SplitAtMatch(s, d, k);
      } else {
        NoAngleInSlice(s, 1, |s|);
        RestoreRewrite(s[1..|s|], d, open, close);
        RestorePlainStep(s, d, open, close);
      }
    }
  }

  /** One step of RestoreRewrite where a match starts the text. */
  lemma RestoreMatchStep(s: string, d: string, open: string, close: string, k: nat)
    requires |d| > 0 && DistinctTags(open, close) && '<' !in s
    requires OccursAt(s, d, 0) && CloseAt(s, |d|, d) == Some(k)
    ensures Restore(Rewrite(s, d, open, close), d, open, close)
            == d + s[|d|..k] + d + Restore(Rewrite(s[k + |d|..], d, open, close), d, open, close)
  {
    RewriteAtMatch(s, d, open, close, k);
    NoAngleInSlice(s, |d|, k);
    RestoreMatch(s[|d|..k], Rewrite(s[k + |d|..], d, open, close), d, open, close);
  }

  /** The rewrite at a match that starts the text. */
  lemma RewriteAtMatch(s: string, d: string, open: string, close: string, k: nat)
    requires |d| > 0 && OccursAt(s, d, 0) && CloseAt(s, |d|, d) == Some(k)
    ensures Rewrite(s, d, open, close) == open + s[|d|..k] + close + Rewrite(s[k + |d|..], d, open, close)
  {
  }

  /** A text that starts with the delimiter and has it again at `k` splits around both. */
  lemma SplitAtMatch(s: string, d: string, k: nat)
    requires OccursAt(s, d, 0) && OccursAt(s, d, k) && |d| <= k
    ensures s == d + s[|d|..k] + d + s[k + |d|..]
  {
    forall m | 0 <= m < |d| ensures s[m] == d[m] && s[k + m] == d[m] {
      assert SameCharAt(s, d, 0, m) && SameCharAt(s, d, k, m);
    }
    assert s[..|d|] == d && s[k..k + |d|] == d;
    assert s == s[..|d|] + s[|d|..k] + s[k..k + |d|] + s[k + |d|..];
  }

  /** One step of RestoreRewrite where the first character is copied. */
  lemma RestorePlainStep(s: string, d: string, open: string, close: string)
    requires |d| > 0 && DistinctTags(open, close) && '<' !in s && |s| > 0
    requires !(OccursAt(s, d, 0) && CloseAt(s, |d|, d).Some?)
    requires Restore(Rewrite(s[1..|s|], d, open, close), d, open, close) == s[1..|s|]
    ensures Restore(Rewrite(s, d, open, close), d, open, close) == s
  {
    var r := Rewrite(s[1..], d, open, close);
    assert s[1..|s|] == s[1..];
    assert Rewrite(s, d, open, close) == [s[0]] + r;
    assert s[0] in s;
    RestorePlain([s[0]], r, d, open, close);
    assert s == [s[0]] + s[1..];
  }

  /** A slice of text without `<` has none either. */
  lemma NoAngleInSlice(s: string, i: int, j: int)
    requires 0 <= i <= j <= |s| && '<' !in s
    ensures '<' !in s[i..j]
  {
    assert forall c :: c in s[i..j] ==> c in s;
  }

  /** A replaced match restores to the delimiter, its text, the delimiter. */
  lemma RestoreMatch(x: string, r: string, d: string, open: string, close: string)
    requires DistinctTags(open, close) && '<' !in x
    ensures Restore(open + x + close + r, d, open, close) == d + x + d + Restore(r, d, open, close)
  {
    var rest := Restore(r, d, open, close);
    Nest(open, x, close, r);
    RestoreTags(x + (close + r), d, open, close);
    RestorePlain(x, close + r, d, open, close);
    RestoreTags(r, d, open, close);
    Nest(d, x, d, rest);
  }

  /** Concatenation of four pieces, nested to the right. */
  lemma Nest(a: string, b: string, c: string, e: string)
    ensures a + b + c + e == a + (b + (c + e))
  {
  }

  // ---------------------------------------------------------------------------
  // The two passes together

  /** The bold pass writes no backquote, so on text without one the code pass
      finds nothing to do. */
  lemma FixWithoutBackquoteIsBold(content: string)
    requires '`' !in content
    ensures FixDescriptions(content) == Bold(content)
  {
    var b := Bold(content);
    forall j ensures !OccursAt(b, CodeDelimiter, j) {
      if 0 <= j < |b| {
        assert b[j] in b && CodeDelimiter[0] == '`';
        assert !SameCharAt(b, CodeDelimiter, j, 0);
      }
    }
    NoDelimiterUnchanged(b, CodeDelimiter, CodeOpen, CodeClose);
  }

  /** On text without `**` the script does exactly the code rewrite. */
  lemma FixWithoutBoldIsCode(content: string)
    requires !Includes(content, BoldDelimiter)
    ensures FixDescriptions(content) == Code(content)
  {
    BoldWithoutDelimiterUnchanged(content);
  }

  /** The passes run in sequence, not as one markdown parser: a backquoted span that
      starts inside a bold span is closed outside it, so the code element straddles
      the closing strong tag (for instance "**`a** b`"). */
  lemma CodeSpanCanCrossStrongTag(y: string, z: string)
    requires OnOneLine(y) && OnOneLine(z)
    requires forall i :: 0 <= i < |y| ==> y[i] != '*' && y[i] != '`'
    requires forall i :: 0 <= i < |z| ==> z[i] != '*' && z[i] != '`'
    ensures FixDescriptions("**`" + y + "**" + z + "`")
            == StrongOpen + CodeOpen + y + StrongClose + z + CodeClose
  {
    BoldThenBackquotes(y, z);
    var x := y + StrongClose + z;
    assert '`' !in StrongClose && OnOneLine(StrongClose);
    OnOneLineConcat(y, StrongClose, z);
    assert forall i :: 0 <= i < |x| ==> x[i] in y || x[i] in StrongClose || x[i] in z;
    CodeAfterPlainTag(x);
    Regroup(StrongOpen, CodeOpen, y, StrongClose, z, CodeClose);
  }

  /** The bold pass over "**`y**z`": the strong element closes before the second backquote. */
  lemma BoldThenBackquotes(y: string, z: string)
    requires OnOneLine(y) && OnOneLine(z)
    requires forall i :: 0 <= i < |y| ==> y[i] != '*'
    requires forall i :: 0 <= i < |z| ==> z[i] != '*'
    ensures Bold("**`" + y + "**" + z + "`") == StrongOpen + ("`" + (y + StrongClose + z) + "`")
  {
    var inner, tail := "`" + y, z + "`";
    assert "**`" + y + "**" + z + "`" == "**" + inner + "**" + tail;
    assert OnOneLine(inner) && forall i :: 0 <= i < |inner| ==> inner[i] != '*' by {
      assert forall i :: 1 <= i < |inner| ==> inner[i] == y[i - 1];
    }
    BoldPairRewritten(inner, tail);
    assert forall i :: 0 <= i < |tail| ==> tail[i] != '*' by {
      assert forall i :: 0 <= i < |z| ==> tail[i] == z[i];
    }
    MissingCharExcludes(tail, BoldDelimiter);
    BoldWithoutDelimiterUnchanged(tail);
    Regroup3(StrongOpen, "`", y, StrongClose, z, "`");
  }

  /** Concatenation regrouped. */
  lemma Regroup3(a: string, b: string, c: string, d: string, e: string, f: string)
    ensures a + (b + c) + d + (e + f) == a + (b + (c + d + e) + f)
  {
  }

  /** The code pass over a strong opening tag followed by a backquoted span. */
  lemma CodeAfterPlainTag(x: string)
    requires OnOneLine(x) && forall i :: 0 <= i < |x| ==> x[i] != '`'
    ensures Code(StrongOpen + ("`" + x + "`")) == StrongOpen + (CodeOpen + x + CodeClose)
  {
    var b := StrongOpen + ("`" + x + "`");
    forall j | 0 <= j < |StrongOpen| ensures !OccursAt(b, CodeDelimiter, j) {
      assert b[j] == StrongOpen[j] && StrongOpen[j] in StrongOpen;
      assert '`' !in StrongOpen && CodeDelimiter[0] == '`';
      assert !SameCharAt(b, CodeDelimiter, j, 0);
    }
    PlainPrefixKept(b, CodeDelimiter, CodeOpen, CodeClose, |StrongOpen|);
    assert b[|StrongOpen|..] == "`" + x + "`" + "";
    assert b[..|StrongOpen|] == StrongOpen;
    CodePairRewritten(x, "");
    assert Code("") == "";
  }

  /** Concatenation regrouped. */
  lemma Regroup(a: string, b: string, c: string, d: string, e: string, f: string)
    ensures a + (b + (c + d + e) + f) == a + b + c + d + e + f
  {
  }

  /** Three pieces on one line make one line. */
  lemma OnOneLineConcat(a: string, b: string, c: string)
    requires OnOneLine(a) && OnOneLine(b) && OnOneLine(c)
    ensures OnOneLine(a + b + c)
  {
  }
}
