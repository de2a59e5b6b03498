/** The string operations the views rely on, restricted to what the model needs:
    ASCII `toLowerCase`, `String.prototype.includes`, and the characters a
    JavaScript regular expression's `.` refuses to match. */
module Text {

  /** `toLowerCase` on one character, ASCII letters only. */
  function LowerChar(c: char): (r: char)
    ensures 'A' <= c <= 'Z' ==> 'a' <= r <= 'z' && r as int - c as int == 32
    ensures !('A' <= c <= 'Z') ==> r == c
  {
    if 'A' <= c <= 'Z' then (c as int + 32) as char else c
  }

  /** `s.toLowerCase()`, ASCII letters only: the same length, each character lowered. */
  function Lower(s: string): (r: string)
    ensures |r| == |s|
    ensures forall i :: 0 <= i < |s| ==> r[i] == LowerChar(s[i])
  {
    if |s| == 0 then "" else [LowerChar(s[0])] + Lower(s[1..])
  }

  /** Lower-casing twice is lower-casing once. */
  lemma LowerIdempotent(s: string)
    ensures Lower(Lower(s)) == Lower(s)
  {
    var l := Lower(s);
    assert forall i :: 0 <= i < |l| ==> Lower(l)[i] == l[i];
  }

  /** Character `m` of `q` is the character of `s` at position `i + m`. */
  predicate SameCharAt(s: string, q: string, i: int, m: int)
    requires 0 <= i && 0 <= m < |q| && i + m < |s|
  {
    s[i + m] == q[m]
  }

  /** `q` occurs in `s` starting at position `i`. */
  predicate OccursAt(s: string, q: string, i: int)
  {
    0 <= i && i + |q| <= |s| && forall m :: 0 <= m < |q| ==> SameCharAt(s, q, i, m)
  }

  /** `s.includes(q)`: `q` is a prefix of `s` or of one of its suffixes. */
  predicate Includes(s: string, q: string)
    ensures Includes(s, q) ==> |q| <= |s|
    decreases |s|
  {
    q <= s || (|s| > 0 && Includes(s[1..], q))
  }

  /** Includes agrees with the positional definition of a substring. */
  lemma IncludesIffOccurs(s: string, q: string)
    ensures Includes(s, q) <==> exists i :: OccursAt(s, q, i)
  {
    if Includes(s, q) {
      IncludesThenOccurs(s, q);
    }
    forall i | OccursAt(s, q, i)
      ensures Includes(s, q)
    {
      OccursThenIncludes(s, q, i);
    }
  }

  /** An occurrence at any position makes the string include `q`. */
  lemma {:induction false} OccursThenIncludes(s: string, q: string, i: int)
    requires OccursAt(s, q, i)
    ensures Includes(s, q)
    decreases i
  {
    if i == 0 {
      forall m | 0 <= m < |q| ensures s[m] == q[m] {
        assert SameCharAt(s, q, 0, m);
      }
    } else {
      OccursInTail(s, q, i - 1);
      OccursThenIncludes(s[1..], q, i - 1);
    }
  }

  /** A string that includes `q` has it at some position. */
  lemma {:induction false} IncludesThenOccurs(s: string, q: string)
    requires Includes(s, q)
    ensures exists i :: OccursAt(s, q, i)
    decreases |s|
  {
    if q <= s {
      forall m | 0 <= m < |q| ensures SameCharAt(s, q, 0, m) {
        assert s[m] == q[m];
      }
      assert OccursAt(s, q, 0);
    } else {
      IncludesThenOccurs(s[1..], q);
      var i :| OccursAt(s[1..], q, i);
      OccursInTail(s, q, i);
    }
  }

  /** Text placed in front moves every occurrence back by its length. */
  lemma OccursAfterPrefix(p: string, t: string, q: string, i: nat)
    ensures OccursAt(p + t, q, |p| + i) <==> OccursAt(t, q, i)
  {
    var s, k := p + t, |p| + i;
    if OccursAt(s, q, k) {
      forall m | 0 <= m < |q| ensures SameCharAt(t, q, i, m) {
        assert SameCharAt(s, q, k, m);
      }
    }
    if OccursAt(t, q, i) {
      forall m | 0 <= m < |q| ensures SameCharAt(s, q, k, m) {
        assert SameCharAt(t, q, i, m);
      }
    }
  }

  /** Text appended after an occurrence does not change it. */
  lemma OccursBeforeSuffix(t: string, r: string, q: string, i: int)
    requires i + |q| <= |t|
    ensures OccursAt(t + r, q, i) <==> OccursAt(t, q, i)
  {
    var s := t + r;
    if OccursAt(s, q, i) {
      forall m | 0 <= m < |q| ensures SameCharAt(t, q, i, m) {
        assert SameCharAt(s, q, i, m);
      }
    }
    if OccursAt(t, q, i) {
      forall m | 0 <= m < |q| ensures SameCharAt(s, q, i, m) {
        assert SameCharAt(t, q, i, m);
      }
    }
  }

  /** The occurrences in the tail of `s` are those in `s`, one position later. */
  lemma OccursInTail(s: string, q: string, i: nat)
    requires |s| > 0
    ensures OccursAt(s[1..], q, i) <==> OccursAt(s, q, i + 1)
  {
    assert s == [s[0]] + s[1..];
    OccursAfterPrefix([s[0]], s[1..], q, i);
  }

  /** Every string includes the empty string. */
  lemma IncludesEmpty(s: string)
    ensures Includes(s, "")
  {
  }

  /** A string that does not contain the first character of `q` does not include `q`. */
  lemma {:induction false} MissingCharExcludes(s: string, q: string)
    requires |q| > 0
    requires forall i :: 0 <= i < |s| ==> s[i] != q[0]
    ensures !Includes(s, q)
    decreases |s|
  {
    if |s| > 0 {
      assert q[0] != s[0];
      MissingCharExcludes(s[1..], q);
    }
  }

  /** The characters a regular expression's `.` does not match: line feed,
      carriage return, line separator and paragraph separator. */
  predicate IsLineTerminator(c: char)
  {
    c == '\n' || c == '\r' || c == '\U{2028}' || c == '\U{2029}'
  }

  /** No character of `s` is a line terminator. */
  predicate OnOneLine(s: string)
  {
    forall i :: 0 <= i < |s| ==> !IsLineTerminator(s[i])
  }
}
