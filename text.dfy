/** The few pieces of Python's string handling that the two scripts rely on:
    the `\s` class, `str.strip`, `str.join`, `str.split`, a `re.search` for a
    literal pattern and a `re.sub` whose pattern is a literal.  Strings are
    sequences of characters. */
module Text {

  /** A whitespace character, as matched by `\s` and removed by `str.strip`:
      the characters for which Python's `str.isspace` holds (tab through
      carriage return, the four separators U+001C to U+001F, space, next
      line, no-break space and the Unicode space separators, line separator
      and paragraph separator). */
  predicate IsSpace(c: char)
  {
    ('\t' <= c <= '\r') || ('\U{001C}' <= c <= ' ') || c == '\U{0085}' || c == '\U{00A0}'
    || c == '\U{1680}' || ('\U{2000}' <= c <= '\U{200A}') || c == '\U{2028}' || c == '\U{2029}'
    || c == '\U{202F}' || c == '\U{205F}' || c == '\U{3000}'
  }

  /** `re.compile('^\s*$').search(s)` succeeds: `s` holds nothing but whitespace. */
  predicate IsBlank(s: string)
  {
    s == [] || (IsSpace(s[0]) && IsBlank(s[1..]))
  }

  lemma {:induction false} BlankIffAllSpace(s: string)
    ensures IsBlank(s) <==> forall i :: 0 <= i < |s| ==> IsSpace(s[i])
  {
    if s != [] {
      BlankIffAllSpace(s[1..]);
      assert forall i :: 1 <= i < |s| ==> s[i] == s[1..][i - 1];
    }
  }

  /** `s` with its leading whitespace removed (`str.lstrip`). */
  function TrimStart(s: string): string
    decreases |s|
  {
    if s != [] && IsSpace(s[0]) then TrimStart(s[1..]) else s
  }

  /** `s` with its trailing whitespace removed (`str.rstrip`). */
  function TrimEnd(s: string): string
    decreases |s|
  {
    if s != [] && IsSpace(s[|s| - 1]) then TrimEnd(s[..|s| - 1]) else s
  }

  /** `str.strip()`: whitespace removed at both ends. */
  function Strip(s: string): string
  {
    TrimEnd(TrimStart(s))
  }

  /** `TrimStart` cuts away exactly the leading whitespace: what it returns is
      a suffix of `s`, everything cut is whitespace, and the suffix does not
      begin with whitespace. */
  lemma {:induction false} TrimStartSpec(s: string)
    ensures |TrimStart(s)| <= |s| && TrimStart(s) == s[|s| - |TrimStart(s)|..]
    ensures forall k :: 0 <= k < |s| - |TrimStart(s)| ==> IsSpace(s[k])
    ensures TrimStart(s) == [] || !IsSpace(TrimStart(s)[0])
    decreases |s|
  {
    if s != [] && IsSpace(s[0]) {
      TrimStartSpec(s[1..]);
      var r := TrimStart(s[1..]);
      assert s[1..][|s| - 1 - |r|..] == s[|s| - |r|..];
      forall k | 1 <= k < |s| - |r| ensures IsSpace(s[k]) {
        assert s[k] == s[1..][k - 1];
      }
    }
  }

  /** `TrimEnd` cuts away exactly the trailing whitespace. */
  lemma {:induction false} TrimEndSpec(s: string)
    ensures |TrimEnd(s)| <= |s| && TrimEnd(s) == s[..|TrimEnd(s)|]
    ensures forall k :: |TrimEnd(s)| <= k < |s| ==> IsSpace(s[k])
    ensures TrimEnd(s) == [] || !IsSpace(TrimEnd(s)[|TrimEnd(s)| - 1])
    decreases |s|
  {
    if s != [] && IsSpace(s[|s| - 1]) {
      TrimEndSpec(s[..|s| - 1]);
      var r := TrimEnd(s[..|s| - 1]);
      assert s[..|s| - 1][..|r|] == s[..|r|];
      forall k | |r| <= k < |s| - 1 ensures IsSpace(s[k]) {
        assert s[k] == s[..|s| - 1][k];
      }
    }
  }

  /** What `Strip` returns: the slice of `s` between a run of leading and a
      run of trailing whitespace, itself neither beginning nor ending with
      whitespace. */
  lemma StripIsTrimmedSlice(s: string)
    ensures var i := |s| - |TrimStart(s)|;
      0 <= i && i + |Strip(s)| <= |s| && Strip(s) == s[i..i + |Strip(s)|]
      && (forall k :: 0 <= k < i ==> IsSpace(s[k]))
      && (forall k :: i + |Strip(s)| <= k < |s| ==> IsSpace(s[k]))
    ensures Strip(s) == [] || (!IsSpace(Strip(s)[0]) && !IsSpace(Strip(s)[|Strip(s)| - 1]))
  {
    TrimStartSpec(s);
    TrimEndSpec(TrimStart(s));
    PrefixOfSuffix(s, TrimStart(s), Strip(s));
  }

  /** A prefix `r` of a suffix `t` of `s`, both cut off at whitespace, is a
      slice of `s` with only whitespace around it. */
  lemma PrefixOfSuffix(s: string, t: string, r: string)
    requires |t| <= |s| && t == s[|s| - |t|..] && |r| <= |t| && r == t[..|r|]
    requires forall k :: 0 <= k < |s| - |t| ==> IsSpace(s[k])
    requires forall k :: |r| <= k < |t| ==> IsSpace(t[k])
    requires t == [] || !IsSpace(t[0])
    requires r == [] || !IsSpace(r[|r| - 1])
    ensures var i := |s| - |t|;
      i + |r| <= |s| && r == s[i..i + |r|]
      && (forall k :: 0 <= k < i ==> IsSpace(s[k]))
      && (forall k :: i + |r| <= k < |s| ==> IsSpace(s[k]))
    ensures r == [] || (!IsSpace(r[0]) && !IsSpace(r[|r| - 1]))
  {
    var i := |s| - |t|;
    forall k | i + |r| <= k < |s| ensures IsSpace(s[k]) {
      assert s[k] == t[k - i];
    }
    if r != [] {
      assert r[0] == t[0];
    }
  }

  /** A line is blank exactly when it strips to the empty string. */
  lemma BlankIffStripsEmpty(s: string)
    ensures IsBlank(s) <==> Strip(s) == []
  {
    BlankIffAllSpace(s);
    StripIsTrimmedSlice(s);
    if Strip(s) != [] {
      var i := |s| - |TrimStart(s)|;
      assert s[i] == Strip(s)[0];
    }
  }

  /** A string with no whitespace at either end is its own stripped form. */
  lemma StripKeepsTrimmed(s: string)
    requires s == [] || (!IsSpace(s[0]) && !IsSpace(s[|s| - 1]))
    ensures Strip(s) == s
  {
    if s != [] {
      assert TrimStart(s) == s;
    }
  }

  /** Stripping twice is stripping once. */
  lemma StripIdempotent(s: string)
    ensures Strip(Strip(s)) == Strip(s)
  {
    StripIsTrimmedSlice(s);
    StripKeepsTrimmed(Strip(s));
  }

  /** A line as `readlines` yields it: a line feed may only come last. */
  predicate IsLine(s: string)
  {
    forall i :: 0 <= i < |s| - 1 ==> s[i] != '\n'
  }

  /** A stripped line holds no line feed. */
  lemma StrippedLineHasNoNewline(s: string)
    requires IsLine(s)
    ensures '\n' !in Strip(s)
  {
    var t := TrimStart(s);
    var r := TrimEnd(t);
    TrimStartSpec(s);
    TrimEndSpec(t);
    var i := |s| - |t|;
    assert r == s[i..i + |r|];
    forall k | 0 <= k < |r| ensures r[k] != '\n' {
      assert r[k] == s[i + k];
      if i + k == |s| - 1 {
        assert k == |r| - 1;
      }
    }
  }

  /** `s` begins with `pat`. */
  predicate StartsWith(s: string, pat: string)
  {
    |pat| <= |s| && s[..|pat|] == pat
  }

  /** `re.search(pat, s)` for a literal `pat`: `pat` occurs at some position of `s`. */
  predicate Contains(s: string, pat: string)
  {
    exists i :: 0 <= i <= |s| && StartsWith(s[i..], pat)
  }

  /** The search tries the front of `s`, then the rest of it. */
  lemma ContainsStep(s: string, pat: string)
    ensures Contains(s, pat) <==> StartsWith(s, pat) || (s != [] && Contains(s[1..], pat))
  {
    assert s[0..] == s;
    if s != [] {
      if Contains(s[1..], pat) {
        var i :| 0 <= i <= |s| - 1 && StartsWith(s[1..][i..], pat);
        assert s[1..][i..] == s[i + 1..];
      }
      if Contains(s, pat) {
        var i :| 0 <= i <= |s| && StartsWith(s[i..], pat);
        if i > 0 {
          assert s[1..][i - 1..] == s[i..];
        }
      }
    }
  }

  /** Every string occurs in itself. */
  lemma ContainsItself(s: string)
    ensures Contains(s, s)
  {
    assert StartsWith(s[0..], s);
  }

  /** A pattern one of whose characters is missing from `s` does not occur in `s`. */
  lemma AbsentCharMeansAbsent(s: string, pat: string, c: char)
    requires c in pat && c !in s
    ensures !Contains(s, pat)
  {
    var k :| 0 <= k < |pat| && pat[k] == c;
    forall i | 0 <= i <= |s| ensures !StartsWith(s[i..], pat) {
      if |pat| <= |s[i..]| {
        assert s[i..][..|pat|][k] == s[i + k];
      }
    }
  }

  /** `re.sub(pat, rep, s)` for a literal, non-empty `pat`: scanning left to
      right, every occurrence of `pat` that does not overlap an earlier
      replaced one is replaced by `rep`; the replacement text is not
      scanned again. */
  function ReplaceAll(s: string, pat: string, rep: string): string
    requires pat != []
    decreases |s|
  {
    if s == [] then []
    else if StartsWith(s, pat) then rep + ReplaceAll(s[|pat|..], pat, rep)
    else [s[0]] + ReplaceAll(s[1..], pat, rep)
  }

  /** Scanning passes over a prefix that cannot begin an occurrence. */
  lemma {:induction false} ReplaceSkipsPrefix(a: string, b: string, pat: string, rep: string)
    requires pat != [] && pat[0] !in a
    ensures ReplaceAll(a + b, pat, rep) == a + ReplaceAll(b, pat, rep)
    decreases |a|
  {
    if a != [] {
      assert (a + b)[0] == a[0] && a[0] in a;
      assert !StartsWith(a + b, pat);
      assert (a + b)[1..] == a[1..] + b;
      ReplaceSkipsPrefix(a[1..], b, pat, rep);
    } else {
      assert a + b == b;
    }
  }

  /** An occurrence at the front is replaced and scanning resumes after it. */
  lemma ReplaceAtFront(b: string, pat: string, rep: string)
    requires pat != []
    ensures ReplaceAll(pat + b, pat, rep) == rep + ReplaceAll(b, pat, rep)
  {
    assert (pat + b)[..|pat|] == pat;
    assert (pat + b)[|pat|..] == b;
  }

  /** A character that is not followed by the pattern's second character
      cannot start an occurrence, so the replacement steps over it. */
  lemma ReplaceSkipsChar(c: char, b: string, pat: string, rep: string)
    requires |pat| >= 2 && b != [] && b[0] != pat[1]
    ensures ReplaceAll([c] + b, pat, rep) == [c] + ReplaceAll(b, pat, rep)
  {
    assert ([c] + b)[1..] == b;
    if |pat| <= |[c] + b| {
      assert ([c] + b)[..|pat|][1] == b[0];
    }
  }

  /** One occurrence of a pattern, after text that cannot start it and before
      text the replacement leaves alone, is replaced. */
  lemma ReplaceOnce(pre: string, pat: string, rep: string, post: string)
    requires pat != [] && pat[0] !in pre && ReplaceAll(post, pat, rep) == post
    ensures ReplaceAll(pre + pat + post, pat, rep) == pre + rep + post
  {
    assert pre + pat + post == pre + (pat + post);
    ReplaceSkipsPrefix(pre, pat + post, pat, rep);
    ReplaceAtFront(post, pat, rep);
  }

  /** `s` is returned unchanged when a character of the pattern is missing from it. */
  lemma ReplaceAbsent(s: string, pat: string, rep: string, c: char)
    requires pat != [] && c in pat && c !in s
    ensures ReplaceAll(s, pat, rep) == s
  {
    AbsentCharMeansAbsent(s, pat, c);
    ReplaceUnchangedIff(s, pat, rep);
  }

  lemma {:induction false} ReplaceNotShorter(s: string, pat: string, rep: string)
    requires pat != [] && |rep| >= |pat|
    ensures |ReplaceAll(s, pat, rep)| >= |s|
    decreases |s|
  {
    if s != [] {
      if StartsWith(s, pat) {
        ReplaceNotShorter(s[|pat|..], pat, rep);
      } else {
        ReplaceNotShorter(s[1..], pat, rep);
      }
    }
  }

  lemma {:induction false} ReplaceNotLonger(s: string, pat: string, rep: string)
    requires pat != [] && |rep| <= |pat|
    ensures |ReplaceAll(s, pat, rep)| <= |s|
    decreases |s|
  {
    if s != [] {
      if StartsWith(s, pat) {
        ReplaceNotLonger(s[|pat|..], pat, rep);
      } else {
        ReplaceNotLonger(s[1..], pat, rep);
      }
    }
  }

  /** Replacement leaves `s` as it was exactly when the pattern does not occur
      in it, or the replacement is the pattern itself. */
  lemma {:induction false} ReplaceUnchangedIff(s: string, pat: string, rep: string)
    requires pat != []
    ensures ReplaceAll(s, pat, rep) == s <==> !Contains(s, pat) || rep == pat
    decreases |s|
  {
    ContainsStep(s, pat);
    if s == [] {
    } else if StartsWith(s, pat) {
      var t := s[|pat|..];
      assert s == pat + t;
      ReplaceUnchangedIff(t, pat, rep);
      if rep != pat {
        var r := ReplaceAll(s, pat, rep);
        assert r == rep + ReplaceAll(t, pat, rep);
        if |rep| == |pat| {
          assert r[..|pat|] == rep;
        } else if |rep| > |pat| {
          ReplaceNotShorter(t, pat, rep);
        } else {
          ReplaceNotLonger(t, pat, rep);
        }
      } else {
        assert ReplaceAll(s, pat, rep) == pat + ReplaceAll(t, pat, rep);
      }
    } else {
      ReplaceUnchangedIff(s[1..], pat, rep);
      assert s == [s[0]] + s[1..];
    }
  }

  /** `str.join(sep, parts)`. */
  function Join(sep: string, parts: seq<string>): string
  {
    if parts == [] then ""
    else if |parts| == 1 then parts[0]
    else parts[0] + sep + Join(sep, parts[1..])
  }

  lemma JoinPair(sep: string, p: string, q: string)
    ensures Join(sep, [p, q]) == p + sep + q
  {
    assert [p, q][1..] == [q];
  }

  /** A character found in neither the separator nor any part is not in the joined text. */
  lemma {:induction false} JoinAvoids(sep: string, parts: seq<string>, c: char)
    requires c !in sep
    requires forall i :: 0 <= i < |parts| ==> c !in parts[i]
    ensures c !in Join(sep, parts)
  {
    if |parts| > 1 {
      JoinAvoids(sep, parts[1..], c);
    }
  }

  /** `str.split(sep)` for a non-empty `sep`: the pieces of `s` between the
      occurrences of `sep` found scanning left to right. */
  function Split(s: string, sep: string): (r: seq<string>)
    requires sep != []
    ensures |r| >= 1
  {
    SplitFrom(s, sep, "")
  }

  /** `Split` with the start `cur` of the first piece already read. */
  function SplitFrom(s: string, sep: string, cur: string): (r: seq<string>)
    requires sep != []
    ensures |r| >= 1
    decreases |s|
  {
    if s == [] then [cur]
    else if StartsWith(s, sep) then [cur] + SplitFrom(s[|sep|..], sep, "")
    else SplitFrom(s[1..], sep, cur + [s[0]])
  }

  lemma {:induction false} SplitFromPiece(a: string, sep: string, cur: string)
    requires sep != [] && sep[0] !in a
    ensures SplitFrom(a, sep, cur) == [cur + a]
    decreases |a|
  {
    if a != [] {
      assert a[0] in a;
      assert !StartsWith(a, sep);
      SplitFromPiece(a[1..], sep, cur + [a[0]]);
      assert cur + [a[0]] + a[1..] == cur + a;
    } else {
      assert cur + a == cur;
    }
  }

  lemma {:induction false} SplitFromPieceThenSep(a: string, sep: string, rest: string, cur: string)
    requires sep != [] && sep[0] !in a
    ensures SplitFrom(a + sep + rest, sep, cur) == [cur + a] + SplitFrom(rest, sep, "")
    decreases |a|
  {
    var s := a + sep + rest;
    if a == [] {
      assert s == sep + rest;
      assert s[..|sep|] == sep;
      assert s[|sep|..] == rest;
      assert cur + a == cur;
    } else {
      assert s[0] == a[0] && a[0] in a;
      assert !StartsWith(s, sep);
      assert s[1..] == a[1..] + sep + rest;
      SplitFromPieceThenSep(a[1..], sep, rest, cur + [a[0]]);
      assert cur + [a[0]] + a[1..] == cur + a;
    }
  }

  /** Splitting undoes joining when no part holds the separator's first
      character: the joined text can be read back into its parts. */
  lemma {:induction false} SplitJoin(sep: string, parts: seq<string>)
    requires sep != [] && |parts| >= 1
    requires forall i :: 0 <= i < |parts| ==> sep[0] !in parts[i]
    ensures Split(Join(sep, parts), sep) == parts
  {
    if |parts| == 1 {
      SplitFromPiece(parts[0], sep, "");
      assert "" + parts[0] == parts[0];
    } else {
      SplitJoin(sep, parts[1..]);
      SplitFromPieceThenSep(parts[0], sep, Join(sep, parts[1..]), "");
      assert "" + parts[0] == parts[0];
      assert parts == [parts[0]] + parts[1..];
    }
  }

  lemma JoinInFront(rep: string, cur: string, rest: seq<string>)
    requires |rest| >= 1
    ensures Join(rep, [cur] + rest) == cur + (rep + Join(rep, rest))
  {
    assert ([cur] + rest)[0] == cur && ([cur] + rest)[1..] == rest;
  }

  lemma {:induction false} JoinSplitFrom(s: string, sep: string, rep: string, cur: string)
    requires sep != []
    ensures Join(rep, SplitFrom(s, sep, cur)) == cur + ReplaceAll(s, sep, rep)
    decreases |s|
  {
    if s == [] {
      assert cur + [] == cur;
    } else if StartsWith(s, sep) {
      var tail := s[|sep|..];
      JoinSplitFrom(tail, sep, rep, "");
      JoinInFront(rep, cur, SplitFrom(tail, sep, ""));
      assert "" + ReplaceAll(tail, sep, rep) == ReplaceAll(tail, sep, rep);
    } else {
      JoinSplitFrom(s[1..], sep, rep, cur + [s[0]]);
      assert cur + [s[0]] + ReplaceAll(s[1..], sep, rep) == cur + ([s[0]] + ReplaceAll(s[1..], sep, rep));
    }
  }

  /** Replacing every occurrence is splitting at them and joining with the
      replacement (`s.replace(p, r) == r.join(s.split(p))`). */
  lemma ReplaceIsJoinOfSplit(s: string, pat: string, rep: string)
    requires pat != []
    ensures ReplaceAll(s, pat, rep) == Join(rep, Split(s, pat))
  {
    JoinSplitFrom(s, pat, rep, "");
    assert "" + ReplaceAll(s, pat, rep) == ReplaceAll(s, pat, rep);
  }

  /** The number of times `c` occurs in `s`. */
  function Count(c: char, s: string): nat
  {
    if s == [] then 0 else (if s[0] == c then 1 else 0) + Count(c, s[1..])
  }

  lemma {:induction false} CountConcat(c: char, a: string, b: string)
    ensures Count(c, a + b) == Count(c, a) + Count(c, b)
  {
    if a == [] {
      assert a + b == b;
    } else {
      assert (a + b)[1..] == a[1..] + b;
      CountConcat(c, a[1..], b);
    }
  }

  lemma {:induction false} CountAbsent(c: char, s: string)
    requires c !in s
    ensures Count(c, s) == 0
  {
    if s != [] {
      CountAbsent(c, s[1..]);
    }
  }

  /** Replacing a pattern by text that both lack `c` keeps the number of `c`s. */
  lemma {:induction false} ReplaceKeepsCount(c: char, s: string, pat: string, rep: string)
    requires pat != [] && c !in pat && c !in rep
    ensures Count(c, ReplaceAll(s, pat, rep)) == Count(c, s)
    decreases |s|
  {
    if s != [] {
      if StartsWith(s, pat) {
        var t := s[|pat|..];
        ReplaceKeepsCount(c, t, pat, rep);
        CountConcat(c, rep, ReplaceAll(t, pat, rep));
        assert s == pat + t;
        CountConcat(c, pat, t);
        CountAbsent(c, rep);
        CountAbsent(c, pat);
      } else {
        ReplaceKeepsCount(c, s[1..], pat, rep);
        CountConcat(c, [s[0]], ReplaceAll(s[1..], pat, rep));
      }
    }
  }

  /** Concatenating strings that pairwise hold as many `c`s holds as many `c`s. */
  lemma {:induction false} ConcatKeepsCount(c: char, xs: seq<string>, ys: seq<string>)
    requires |xs| == |ys|
    requires forall i :: 0 <= i < |xs| ==> Count(c, xs[i]) == Count(c, ys[i])
    ensures Count(c, Join("", xs)) == Count(c, Join("", ys))
  {
    if |xs| > 1 {
      ConcatKeepsCount(c, xs[1..], ys[1..]);
      assert Join("", xs) == xs[0] + Join("", xs[1..]);
      assert Join("", ys) == ys[0] + Join("", ys[1..]);
      CountConcat(c, xs[0], Join("", xs[1..]));
      CountConcat(c, ys[0], Join("", ys[1..]));
    }
  }
}
