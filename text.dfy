/** The string operations the application uses: Python's `str.strip()`,
    `str.split(sep)` with a one-character separator, and `sep.join(parts)`. */
module Text {

  /** The characters Python's `str.strip()` with no argument removes: the
      code points for which `str.isspace()` holds. */
  predicate IsSpace(c: char)
  {
    || c == ' ' || c == '\t' || c == '\n' || c == '\r'
    || c == '\U{B}' || c == '\U{C}'
    || ('\U{1C}' <= c <= '\U{1F}')
    || c == '\U{85}' || c == '\U{A0}' || c == '\U{1680}'
    || ('\U{2000}' <= c <= '\U{200A}')
    || c == '\U{2028}' || c == '\U{2029}' || c == '\U{202F}' || c == '\U{205F}'
    || c == '\U{3000}'
  }

  predicate AllSpace(s: string)
  {
    forall i :: 0 <= i < |s| ==> IsSpace(s[i])
  }

  /** A string `strip()` leaves as it is: empty, or without white space at
      either end. */
  predicate IsTrimmed(s: string)
  {
    |s| == 0 || (!IsSpace(s[0]) && !IsSpace(s[|s| - 1]))
  }

  /** Python's `s.strip()`: white space cut off at both ends. */
  function Strip(s: string): (r: string)
    ensures IsTrimmed(r)
    ensures |r| <= |s|
  {
    if |s| > 0 && IsSpace(s[0]) then Strip(s[1..])
    else if |s| > 0 && IsSpace(s[|s| - 1]) then Strip(s[..|s| - 1])
    else s
  }

  /** `strip()` keeps the infix of its input that starts at `i`. */
  lemma {:induction false} StripInfix(s: string) returns (i: nat)
    ensures i + |Strip(s)| <= |s| && Strip(s) == s[i..i + |Strip(s)|]
  {
    if |s| > 0 && IsSpace(s[0]) {
      var j := StripInfix(s[1..]);
      assert s[1..][j..j + |Strip(s)|] == s[j + 1..j + 1 + |Strip(s)|];
      i := j + 1;
    } else if |s| > 0 && IsSpace(s[|s| - 1]) {
      i := StripInfix(s[..|s| - 1]);
      assert s[..|s| - 1][i..i + |Strip(s)|] == s[i..i + |Strip(s)|];
    } else {
      i := 0;
    }
  }

  /** `strip()` removes exactly the white space around a trimmed string. */
  lemma {:induction false} StripPadded(w: string, t: string, v: string)
    requires AllSpace(w) && AllSpace(v) && IsTrimmed(t)
    ensures Strip(w + t + v) == t
    decreases |w| + |v|
  {
    var s := w + t + v;
    if |w| > 0 {
      assert s[0] == w[0];
      assert s[1..] == w[1..] + t + v;
      StripPadded(w[1..], t, v);
    } else if |t| > 0 {
      assert s[0] == t[0];
      if |v| > 0 {
        assert s[|s| - 1] == v[|v| - 1];
        assert s[..|s| - 1] == w + t + v[..|v| - 1];
        StripPadded(w, t, v[..|v| - 1]);
      } else {
        assert s == t;
      }
    } else if |v| > 0 {
      assert s == v && s[0] == v[0];
      assert s[1..] == w + t + v[1..];
      StripPadded(w, t, v[1..]);
    } else {
      assert s == "";
    }
  }

  /** `strip()` is idempotent. */
  lemma StripIdempotent(s: string)
    ensures Strip(Strip(s)) == Strip(s)
  {
    StripPadded("", Strip(s), "");
    assert "" + Strip(s) + "" == Strip(s);
  }

  /** `strip()` yields the empty string exactly for text made only of white
      space. */
  lemma {:induction false} StripEmptyIffAllSpace(s: string)
    ensures Strip(s) == "" <==> AllSpace(s)
  {
    if |s| > 0 && IsSpace(s[0]) {
      StripEmptyIffAllSpace(s[1..]);
      assert AllSpace(s) <==> AllSpace(s[1..]) by {
        assert forall k :: 1 <= k < |s| ==> s[k] == s[1..][k - 1];
      }
    } else if |s| > 0 && IsSpace(s[|s| - 1]) {
      StripEmptyIffAllSpace(s[..|s| - 1]);
      assert AllSpace(s) <==> AllSpace(s[..|s| - 1]) by {
        assert forall k :: 0 <= k < |s| - 1 ==> s[k] == s[..|s| - 1][k];
      }
    }
  }

  function Count(s: string, c: char): (n: nat)
    ensures n <= |s|
  {
    if |s| == 0 then 0 else (if s[0] == c then 1 else 0) + Count(s[1..], c)
  }

  /** Python's `s.split(c)` for a one-character separator: the pieces
      between separators, empty pieces included, so the empty string gives
      `[""]`. */
  function Split(s: string, c: char): (parts: seq<string>)
    ensures |parts| == Count(s, c) + 1
    ensures forall i :: 0 <= i < |parts| ==> c !in parts[i]
  {
    if |s| == 0 then [""]
    else
      var rest := Split(s[1..], c);
      if s[0] == c then [""] + rest
      else [[s[0]] + rest[0]] + rest[1..]
  }

  /** The pieces hold exactly the characters of the text other than the
      separator. */
  lemma {:induction false} SplitChars(s: string, c: char)
    ensures forall i, j :: 0 <= i < |Split(s, c)| && 0 <= j < |Split(s, c)[i]| ==> Split(s, c)[i][j] in s
    ensures forall k :: 0 <= k < |s| && s[k] != c ==> exists i :: 0 <= i < |Split(s, c)| && s[k] in Split(s, c)[i]
  {
    if |s| > 0 {
      SplitChars(s[1..], c);
      var rest := Split(s[1..], c);
      var parts := Split(s, c);
      assert forall k :: 1 <= k < |s| ==> s[k] == s[1..][k - 1];
      if s[0] == c {
        assert forall i :: 1 <= i < |parts| ==> parts[i] == rest[i - 1];
        forall k | 0 <= k < |s| && s[k] != c
          ensures exists i :: 0 <= i < |parts| && s[k] in parts[i]
        {
          var i :| 0 <= i < |rest| && s[1..][k - 1] in rest[i];
          assert parts[i + 1] == rest[i];
        }
      } else {
        assert forall i :: 1 <= i < |parts| ==> parts[i] == rest[i];
        forall k | 0 <= k < |s| && s[k] != c
          ensures exists i :: 0 <= i < |parts| && s[k] in parts[i]
        {
          if k == 0 {
            assert s[0] in parts[0];
          } else {
            var i :| 0 <= i < |rest| && s[1..][k - 1] in rest[i];
            if i == 0 { assert s[k] in parts[0]; } else { assert parts[i] == rest[i]; }
          }
        }
      }
    }
  }

  /** Splitting at a separator distributes over the text on either side. */
  lemma {:induction false} SplitConcat(a: string, c: char, b: string)
    ensures Split(a + [c] + b, c) == Split(a, c) + Split(b, c)
  {
    if |a| == 0 {
      assert (a + [c] + b)[1..] == b;
    } else {
      assert (a + [c] + b)[1..] == a[1..] + [c] + b;
      SplitConcat(a[1..], c, b);
    }
  }

  /** A string without the separator is one piece. */
  lemma {:induction false} SplitNoSeparator(s: string, c: char)
    requires c !in s
    ensures Split(s, c) == [s]
  {
    if |s| > 0 {
      SplitNoSeparator(s[1..], c);
      assert [s[0]] + s[1..] == s;
    }
  }

  /** Python's `sep.join(parts)`: the parts with `sep` between neighbours. */
  function Join(parts: seq<string>, sep: string): (r: string)
    ensures |parts| == 1 ==> r == parts[0]
    ensures |parts| == 0 ==> r == ""
  {
    if |parts| == 0 then ""
    else if |parts| == 1 then parts[0]
    else parts[0] + sep + Join(parts[1..], sep)
  }

  /** Joining at a one-character separator and splitting at it again gives
      back the parts, when no part holds the separator. */
  lemma {:induction false} SplitJoin(parts: seq<string>, c: char)
    requires |parts| >= 1
    requires forall i :: 0 <= i < |parts| ==> c !in parts[i]
    ensures Split(Join(parts, [c]), c) == parts
  {
    if |parts| == 1 {
      SplitNoSeparator(parts[0], c);
    } else {
      SplitJoin(parts[1..], c);
      SplitConcat(parts[0], c, Join(parts[1..], [c]));
      SplitNoSeparator(parts[0], c);
      assert parts == [parts[0]] + parts[1..];
    }
  }

  /** Splitting and joining again gives back the text. */
  lemma {:induction false} JoinSplit(s: string, c: char)
    ensures Join(Split(s, c), [c]) == s
  {
    if |s| > 0 {
      JoinSplit(s[1..], c);
      var rest := Split(s[1..], c);
      if s[0] == c {
        assert ([""] + rest)[1..] == rest;
      } else {
        var parts := [[s[0]] + rest[0]] + rest[1..];
        if |rest| == 1 {
          assert s == [s[0]] + s[1..];
        } else {
          assert parts[1..] == rest[1..];
          assert Join(rest, [c]) == rest[0] + [c] + Join(rest[1..], [c]);
          assert s == [s[0]] + s[1..];
        }
      }
    }
  }
}
