/**
 * The Python string operations the book-search pipeline is built from:
 * `str.isspace` (the character class `str.strip()` removes), `str.strip()`,
 * `str.replace(a, b)` for one character, `" ".join(parts)` and its inverse
 * `str.split(" ")`.
 */
module Text {

  /** A character Python's `str.isspace` accepts, and so one `str.strip()` removes. */
  predicate IsSpace(c: char)
  {
    || ('\t' <= c <= '\r')            // tab, line feed, vertical tab, form feed, carriage return
    || ('\U{1C}' <= c <= '\U{1F}')    // file, group, record and unit separators
    || c == ' '
    || c == '\U{85}'                  // next line
    || c == '\U{A0}'                  // no-break space
    || c == '\U{1680}'
    || ('\U{2000}' <= c <= '\U{200A}')
    || c == '\U{2028}' || c == '\U{2029}'
    || c == '\U{202F}' || c == '\U{205F}' || c == '\U{3000}'
  }

  /** Every character of `s` is whitespace; true of the empty string. */
  predicate AllSpace(s: string)
  {
    forall k :: 0 <= k < |s| ==> IsSpace(s[k])
  }

  // ---------------------------------------------------------------------------
  // str.strip()
  // ---------------------------------------------------------------------------

  /** The first index at or after `i` that does not hold whitespace (or `|s|`). */
  function SkipLeading(s: string, i: nat): (k: nat)
    requires i <= |s|
    ensures i <= k <= |s|
    ensures forall m :: i <= m < k ==> IsSpace(s[m])
    ensures k < |s| ==> !IsSpace(s[k])
    decreases |s| - i
  {
    if i < |s| && IsSpace(s[i]) then SkipLeading(s, i + 1) else i
  }

  /** The end of `s[lo..j]` once its trailing whitespace is dropped. */
  function SkipTrailing(s: string, lo: nat, j: nat): (k: nat)
    requires lo <= j <= |s|
    ensures lo <= k <= j
    ensures forall m :: k <= m < j ==> IsSpace(s[m])
    ensures lo < k ==> !IsSpace(s[k - 1])
    decreases j
  {
    if lo < j && IsSpace(s[j - 1]) then SkipTrailing(s, lo, j - 1) else j
  }

  /** Where `s.strip()` starts: the index of the first character that is not whitespace. */
  function StripStart(s: string): (i: nat)
    ensures i <= |s| && AllSpace(s[..i])
    ensures i < |s| ==> !IsSpace(s[i])
  {
    var i := SkipLeading(s, 0);
    assert AllSpace(s[..i]) by {
      forall m | 0 <= m < i ensures IsSpace(s[..i][m]) {
        assert s[..i][m] == s[m];
      }
    }
    i
  }

  /**
   * `s.strip()`: `s` without its leading and trailing whitespace. The result is
   * the piece of `s` from `StripStart(s)` on, everything cut away on either
   * side is whitespace, and the result neither starts nor ends with whitespace.
   */
  function Strip(s: string): (r: string)
    ensures r == [] || (!IsSpace(r[0]) && !IsSpace(r[|r| - 1]))
    ensures r == [] <==> AllSpace(s)
    ensures StripStart(s) + |r| <= |s|
    ensures r == s[StripStart(s)..StripStart(s) + |r|] && AllSpace(s[StripStart(s) + |r|..])
  {
    var i := SkipLeading(s, 0);
    var j := SkipTrailing(s, i, |s|);
    TrimmedSlice(s, i, j);
    s[i..j]
  }

  /** The facts `Strip` promises, for the bounds it computes. */
  lemma TrimmedSlice(s: string, i: nat, j: nat)
    requires i <= j <= |s|
    requires forall m :: j <= m < |s| ==> IsSpace(s[m])
    requires forall m :: 0 <= m < i ==> IsSpace(s[m])
    requires i < |s| ==> !IsSpace(s[i])
    requires i < j ==> !IsSpace(s[j - 1])
    ensures s[i..j] == [] || (!IsSpace(s[i..j][0]) && !IsSpace(s[i..j][j - i - 1]))
    ensures s[i..j] == [] <==> AllSpace(s)
    ensures AllSpace(s[j..])
  {
    assert AllSpace(s[j..]) by {
      forall m | 0 <= m < |s| - j ensures IsSpace(s[j..][m]) {
        assert s[j..][m] == s[j + m];
      }
    }
    if i == j {
      assert i == |s|;
    }
  }

  /** `SkipLeading` stops exactly at the first character that is not whitespace. */
  lemma SkipLeadingAt(s: string, from: nat, i: nat)
    requires from <= i <= |s|
    requires forall m :: from <= m < i ==> IsSpace(s[m])
    requires i < |s| ==> !IsSpace(s[i])
    ensures SkipLeading(s, from) == i
  {
  }

  /** `SkipTrailing` stops exactly after the last character that is not whitespace. */
  lemma SkipTrailingAt(s: string, lo: nat, j: nat)
    requires lo <= j <= |s|
    requires forall m :: j <= m < |s| ==> IsSpace(s[m])
    requires lo < j ==> !IsSpace(s[j - 1])
    ensures SkipTrailing(s, lo, |s|) == j
  {
  }

  /**
   * The contract of `Strip` pins its result down: any slice `s[i..j]` with only
   * whitespace outside it and no whitespace at its ends is `Strip(s)`.
   */
  lemma StripUnique(s: string, i: nat, j: nat)
    requires i <= j <= |s|
    requires AllSpace(s[..i]) && AllSpace(s[j..])
    requires i < j ==> !IsSpace(s[i]) && !IsSpace(s[j - 1])
    ensures Strip(s) == s[i..j]
  {
    assert forall m :: 0 <= m < i ==> IsSpace(s[m]) by {
      forall m | 0 <= m < i ensures IsSpace(s[m]) {
        assert s[m] == s[..i][m];
      }
    }
    assert forall m :: j <= m < |s| ==> IsSpace(s[m]) by {
      forall m | j <= m < |s| ensures IsSpace(s[m]) {
        assert s[m] == s[j..][m - j];
      }
    }
    if i < j {
      SkipLeadingAt(s, 0, i);
      SkipTrailingAt(s, i, j);
    } else {
      SkipLeadingAt(s, 0, |s|);
      SkipTrailingAt(s, |s|, |s|);
    }
  }

  /** Stripping adds no character: one absent from `s` is absent from `Strip(s)`. */
  lemma StripAvoids(s: string, c: char)
    requires forall k :: 0 <= k < |s| ==> s[k] != c
    ensures forall k :: 0 <= k < |Strip(s)| ==> Strip(s)[k] != c
  {
    var r := Strip(s);
    var i := StripStart(s);
    forall k | 0 <= k < |r| ensures r[k] != c {
      assert r[k] == s[i + k];
    }
  }

  // ---------------------------------------------------------------------------
  // str.replace(a, b) for single characters
  // ---------------------------------------------------------------------------

  /** `s.replace(from, to)` where `from` and `to` are single characters. */
  function ReplaceChar(s: string, from: char, to: char): (r: string)
    ensures |r| == |s|
    ensures forall k :: 0 <= k < |s| ==> r[k] == (if s[k] == from then to else s[k])
  {
    if s == [] then [] else [if s[0] == from then to else s[0]] + ReplaceChar(s[1..], from, to)
  }

  // ---------------------------------------------------------------------------
  // " ".join(parts) and str.split(" ")
  // ---------------------------------------------------------------------------

  /** `" ".join(parts)`: the parts in order, exactly one space between neighbours. */
  function Join(parts: seq<string>): string
  {
    if |parts| == 0 then ""
    else if |parts| == 1 then parts[0]
    else parts[0] + " " + Join(parts[1..])
  }

  /**
   * `s.split(" ")`: the pieces of `s` between single spaces. Two adjacent spaces
   * give an empty piece, and there is always at least one piece.
   */
  function Split(s: string): (parts: seq<string>)
    ensures |parts| >= 1
    ensures forall k :: 0 <= k < |parts| ==> ' ' !in parts[k]
  {
    if s == [] then [""]
    else if s[0] == ' ' then [""] + Split(s[1..])
    else
      var rest := Split(s[1..]);
      [[s[0]] + rest[0]] + rest[1..]
  }

  /** Joining two non-empty lists is joining each and putting one space between. */
  lemma {:induction false} JoinAppend(a: seq<string>, b: seq<string>)
    requires a != [] && b != []
    ensures Join(a + b) == Join(a) + " " + Join(b)
  {
    if |a| == 1 {
      assert (a + b)[1..] == b;
    } else {
      assert (a + b)[1..] == a[1..] + b;
      JoinAppend(a[1..], b);
    }
  }

  /** Splitting undoes joining: `s.split(" ")` glued back with `" ".join` is `s`. */
  lemma {:induction false} JoinSplit(s: string)
    ensures Join(Split(s)) == s
  {
    if s == [] {
    } else if s[0] == ' ' {
      JoinSplit(s[1..]);
      assert [" "[0]] + s[1..] == s;
    } else {
      var rest := Split(s[1..]);
      JoinSplit(s[1..]);
      var parts := [[s[0]] + rest[0]] + rest[1..];
      if |rest| == 1 {
        assert Join(parts) == [s[0]] + rest[0];
      } else {
        assert parts[1..] == rest[1..];
        assert Join(rest) == rest[0] + " " + Join(rest[1..]);
      }
      assert [s[0]] + s[1..] == s;
    }
  }

  /** A piece with no space in it, followed by a space, is split off as one piece. */
  lemma {:induction false} SplitWord(w: string, t: string)
    requires ' ' !in w
    ensures Split(w + " " + t) == [w] + Split(t)
    decreases |w|
  {
    if w == [] {
      assert w + " " + t == [' '] + t;
      assert (w + " " + t)[1..] == t;
    } else {
      assert (w + " " + t)[1..] == w[1..] + " " + t;
      SplitWord(w[1..], t);
      assert [w[0]] + w[1..] == w;
    }
  }

  /** A string with no space in it is its own single piece. */
  lemma {:induction false} SplitNoSpace(w: string)
    requires ' ' !in w
    ensures Split(w) == [w]
    decreases |w|
  {
    if w != [] {
      SplitNoSpace(w[1..]);
      assert [w[0]] + w[1..] == w;
    }
  }

  /**
   * Joining undoes splitting: when no part holds a space, the joined string
   * splits back into exactly the parts, so each single space is a boundary.
   */
  lemma {:induction false} SplitJoin(parts: seq<string>)
    requires parts != []
    requires forall k :: 0 <= k < |parts| ==> ' ' !in parts[k]
    ensures Split(Join(parts)) == parts
  {
    if |parts| == 1 {
      SplitNoSpace(parts[0]);
    } else {
      SplitJoin(parts[1..]);
      SplitWord(parts[0], Join(parts[1..]));
      assert [parts[0]] + parts[1..] == parts;
    }
  }

  /** A joined string is blank exactly when every part is blank. */
  lemma {:induction false} JoinAllSpace(parts: seq<string>)
    ensures AllSpace(Join(parts)) <==> forall k :: 0 <= k < |parts| ==> AllSpace(parts[k])
  {
    if |parts| > 1 {
      JoinAllSpace(parts[1..]);
      var j := parts[0] + " " + Join(parts[1..]);
      assert forall m :: 0 <= m < |parts[0]| ==> j[m] == parts[0][m];
      assert forall m :: 0 <= m < |Join(parts[1..])| ==> j[|parts[0]| + 1 + m] == Join(parts[1..])[m];
      if AllSpace(j) {
        forall k | 0 <= k < |parts| ensures AllSpace(parts[k]) {
          if k == 0 {
            forall m | 0 <= m < |parts[0]| ensures IsSpace(parts[0][m]) {
              assert j[m] == parts[0][m];
            }
          } else {
            assert parts[k] == parts[1..][k - 1];
            assert AllSpace(Join(parts[1..])) by {
              forall m | 0 <= m < |Join(parts[1..])| ensures IsSpace(Join(parts[1..])[m]) {
                assert j[|parts[0]| + 1 + m] == Join(parts[1..])[m];
              }
            }
          }
        }
      } else {
        var m :| 0 <= m < |j| && !IsSpace(j[m]);
        if m < |parts[0]| {
          assert !AllSpace(parts[0]);
        } else if m > |parts[0]| {
          assert j[m] == Join(parts[1..])[m - |parts[0]| - 1];
          assert !AllSpace(Join(parts[1..]));
          var k :| 0 <= k < |parts[1..]| && !AllSpace(parts[1..][k]);
          assert parts[1..][k] == parts[k + 1];
        }
      }
    }
  }
}
