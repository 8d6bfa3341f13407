/** Python `str` operations used by the adapters, with the properties the
    rest of the model relies on.  `split(sep)`, `replace`, `in`, `strip()`,
    slicing with negative bounds and `int()` follow CPython's definitions;
    characters are Unicode scalar values and `isdigit`/`int` accept the ASCII
    digits only. */
module Strings {
  import opened Wrappers

  /** `pat` occurs in `s` starting at index `i`. */
  predicate OccursAt(s: string, pat: string, i: nat) {
    i + |pat| <= |s| && s[i..i + |pat|] == pat
  }

  /** `s.find(pat)`: the first index at which `pat` occurs. */
  function Find(s: string, pat: string): (r: Option<nat>)
    ensures r.Some? ==> OccursAt(s, pat, r.value)
    ensures r.Some? ==> forall j :: 0 <= j < r.value ==> !OccursAt(s, pat, j)
    ensures r.None? ==> forall j: nat :: !OccursAt(s, pat, j)
    decreases |s|
  {
    if |s| < |pat| then None
    else if s[..|pat|] == pat then Some(0)
    else
      var rest := Find(s[1..], pat);
      ShiftOccurrence(s, pat);
      assert !OccursAt(s, pat, 0);
      match rest
      case None => None
      case Some(k) => Some(k + 1)
  }

  lemma ShiftOccurrence(s: string, pat: string)
    requires |s| > 0
    ensures forall j: nat :: 0 < j ==> (OccursAt(s, pat, j) <==> OccursAt(s[1..], pat, j - 1))
  {
    forall j: nat | 0 < j ensures OccursAt(s, pat, j) <==> OccursAt(s[1..], pat, j - 1) {
      if j + |pat| <= |s| {
        assert s[1..][j - 1..j - 1 + |pat|] == s[j..j + |pat|];
      }
    }
  }

  /** `pat in s`. */
  predicate Contains(s: string, pat: string) {
    Find(s, pat).Some?
  }

  lemma ContainsIff(s: string, pat: string, i: nat)
    requires OccursAt(s, pat, i)
    ensures Contains(s, pat)
  {
  }

  /** An occurrence of `pat` inside a prefix of `s` is one in `s`. */
  lemma OccursInPrefix(s: string, pat: string, n: nat, j: nat)
    requires n <= |s| && OccursAt(s[..n], pat, j)
    ensures OccursAt(s, pat, j)
  {
    assert s[..n][j..j + |pat|] == s[j..j + |pat|];
  }

  /** An occurrence of `pat` inside a suffix of `s` is one in `s`. */
  lemma OccursInSuffix(s: string, pat: string, n: nat, j: nat)
    requires n <= |s| && OccursAt(s[n..], pat, j)
    ensures OccursAt(s, pat, n + j)
  {
    assert s[n..][j..j + |pat|] == s[n + j..n + j + |pat|];
  }

  /** `s.split(sep)` for a non-empty separator: the pieces between the
      leftmost non-overlapping occurrences of `sep`. */
  function Split(s: string, sep: string): (parts: seq<string>)
    requires sep != ""
    ensures |parts| >= 1
    ensures forall k :: 0 <= k < |parts| ==> !Contains(parts[k], sep)
    decreases |s|
  {
    match Find(s, sep)
    case None => [s]
    case Some(i) =>
      var head := s[..i];
      assert !Contains(head, sep) by {
        if Contains(head, sep) {
          var j := Find(head, sep).value;
          OccursInPrefix(s, sep, i, j);
        }
      }
      [head] + Split(s[i + |sep|..], sep)
  }

  /** `sep.join(parts)`. */
  function Join(parts: seq<string>, sep: string): string {
    if |parts| == 0 then ""
    else if |parts| == 1 then parts[0]
    else parts[0] + sep + Join(parts[1..], sep)
  }

  /** Joining the pieces of a split gives back the original string. */
  lemma {:induction false} JoinSplit(s: string, sep: string)
    requires sep != ""
    ensures Join(Split(s, sep), sep) == s
    decreases |s|
  {
    var f := Find(s, sep);
    if f.Some? {
      var i := f.value;
      var rest := s[i + |sep|..];
      SplitAt(s, sep, i);
      JoinSplit(rest, sep);
      JoinCons(s[..i], Split(rest, sep), sep);
      OccurrenceCuts(s, sep, i);
    }
  }

  /** An occurrence of `pat` at `i` cuts `s` into what comes before, `pat`
      and what comes after. */
  lemma OccurrenceCuts(s: string, pat: string, i: nat)
    requires OccursAt(s, pat, i)
    ensures s == s[..i] + pat + s[i + |pat|..]
  {
  }

  lemma JoinCons(x: string, tail: seq<string>, sep: string)
    requires |tail| >= 1
    ensures Join([x] + tail, sep) == x + sep + Join(tail, sep)
  {
    assert ([x] + tail)[1..] == tail;
  }

  /** A string without the first character of `pat` does not contain `pat`. */
  lemma NoOccurrenceWithoutHead(s: string, pat: string)
    requires pat != "" && pat[0] !in s
    ensures Find(s, pat).None?
  {
    forall j: nat ensures !OccursAt(s, pat, j) {
      if j + |pat| <= |s| {
        assert s[j..j + |pat|][0] == s[j];
      }
    }
  }

  /** Splitting a join gives back the pieces, provided no piece contains the
      first character of the separator. */
  lemma {:induction false} SplitJoin(parts: seq<string>, sep: string)
    requires sep != "" && |parts| >= 1
    requires forall k :: 0 <= k < |parts| ==> sep[0] !in parts[k]
    ensures Split(Join(parts, sep), sep) == parts
  {
    if |parts| == 1 {
      NoOccurrenceWithoutHead(parts[0], sep);
    } else {
      var p := parts[0];
      var rest := Join(parts[1..], sep);
      var s := p + sep + rest;
      assert OccursAt(s, sep, |p|) by { assert s[|p|..|p| + |sep|] == sep; }
      forall j | 0 <= j < |p| ensures !OccursAt(s, sep, j) {
        if j + |sep| <= |s| {
          assert s[j..j + |sep|][0] == s[j] == p[j];
        }
      }
      var i := Find(s, sep).value;
      assert i == |p|;
      assert s[..i] == p && s[i + |sep|..] == rest;
      SplitJoin(parts[1..], sep);
    }
  }

  /** Joining one more piece onto a non-empty list. */
  lemma {:induction false} JoinSnoc(parts: seq<string>, x: string, sep: string)
    requires |parts| >= 1
    ensures Join(parts + [x], sep) == Join(parts, sep) + sep + x
    decreases |parts|
  {
    if |parts| == 1 {
      assert (parts + [x])[1..] == [x];
    } else {
      assert (parts + [x])[1..] == parts[1..] + [x];
      JoinSnoc(parts[1..], x, sep);
    }
  }

  /** A join closed by one more separator splits into the pieces and a
      final empty piece. */
  lemma SplitJoinClosed(parts: seq<string>, sep: string)
    requires sep != "" && |parts| >= 1
    requires forall k :: 0 <= k < |parts| ==> sep[0] !in parts[k]
    ensures Split(Join(parts, sep) + sep, sep) == parts + [""]
  {
    JoinSnoc(parts, "", sep);
    assert Join(parts, sep) + sep == Join(parts + [""], sep);
    SplitJoin(parts + [""], sep);
  }

  /** `sep.join([a, b, c])`. */
  lemma JoinThree(a: string, b: string, c: string, sep: string)
    ensures Join([a, b, c], sep) == a + sep + b + sep + c
  {
    assert [a, b, c][1..] == [b, c];
    assert [b, c][1..] == [c];
    assert Join([b, c], sep) == b + sep + c;
  }

  /** Splitting `a + sep + b + sep + c` gives the three pieces back when none
      holds the separator's first character. */
  lemma SplitThree(a: string, b: string, c: string, sep: string)
    requires sep != ""
    requires sep[0] !in a && sep[0] !in b && sep[0] !in c
    ensures Split(a + sep + b + sep + c, sep) == [a, b, c]
  {
    JoinThree(a, b, c, sep);
    SplitJoin([a, b, c], sep);
  }

  /** `s.replace(pat, replacement)`: every leftmost non-overlapping occurrence of
      `pat` replaced by `replacement`. */
  function ReplaceAll(s: string, pat: string, replacement: string): string
    requires pat != ""
    decreases |s|
  {
    match Find(s, pat)
    case None => s
    case Some(i) => s[..i] + replacement + ReplaceAll(s[i + |pat|..], pat, replacement)
  }

  /** CPython's identity `s.replace(a, b) == b.join(s.split(a))`. */
  lemma {:induction false} ReplaceIsJoinOfSplit(s: string, pat: string, replacement: string)
    requires pat != ""
    ensures ReplaceAll(s, pat, replacement) == Join(Split(s, pat), replacement)
    decreases |s|
  {
    match Find(s, pat)
    case None =>
    case Some(i) =>
      var rest := s[i + |pat|..];
      ReplaceIsJoinOfSplit(rest, pat, replacement);
      assert Split(s, pat) == [s[..i]] + Split(rest, pat);
  }

  /** The characters of `s` other than `c`, in order. */
  function Without(s: string, c: char): (r: string)
    ensures c !in r
    ensures |r| <= |s|
  {
    if s == "" then ""
    else (if s[0] == c then "" else [s[0]]) + Without(s[1..], c)
  }

  lemma {:induction false} WithoutConcat(a: string, b: string, c: char)
    ensures Without(a + b, c) == Without(a, c) + Without(b, c)
  {
    if a != "" {
      var head := if a[0] == c then "" else [a[0]];
      assert (a + b)[0] == a[0];
      assert (a + b)[1..] == a[1..] + b;
      WithoutConcat(a[1..], b, c);
      assert Without(a + b, c) == head + Without(a[1..] + b, c);
      assert Without(a, c) == head + Without(a[1..], c);
    } else {
      assert a + b == b;
    }
  }

  /** Deleting every one-character pattern is the same as filtering it out. */
  lemma {:induction false} ReplaceCharByNothing(s: string, c: char)
    ensures ReplaceAll(s, [c], "") == Without(s, c)
    decreases |s|
  {
    var f := Find(s, [c]);
    if f.None? {
      ReplaceNoChar(s, c);
    } else {
      var i := f.value;
      ReplaceFirstChar(s, c, i);
      ReplaceCharByNothing(s[i + 1..], c);
    }
  }

  /** Without `c` in `s`, deleting it and filtering it out both leave `s`. */
  lemma ReplaceNoChar(s: string, c: char)
    requires Find(s, [c]).None?
    ensures ReplaceAll(s, [c], "") == s && Without(s, c) == s
  {
    CharBeforeFirst(s, c, |s|);
    NoCharWithout(s, c);
  }

  /** At the first `c`, deleting it and filtering it out both keep what
      comes before and carry on after it. */
  lemma ReplaceFirstChar(s: string, c: char, i: nat)
    requires Find(s, [c]) == Some(i)
    ensures i < |s|
    ensures ReplaceAll(s, [c], "") == s[..i] + ReplaceAll(s[i + 1..], [c], "")
    ensures Without(s, c) == s[..i] + Without(s[i + 1..], c)
  {
    var pat := [c];
    assert ReplaceAll(s, pat, "") == s[..i] + "" + ReplaceAll(s[i + |pat|..], pat, "");
    assert s[..i] + "" == s[..i];
    CharBeforeFirst(s, c, i);
    assert forall k :: 0 <= k < i ==> s[..i][k] == s[k];
    NoCharWithout(s[..i], c);
    OccursChar(s, c, i);
    WithoutAround(s, i, c);
  }

  /** No character before the first occurrence of `c` is `c`. */
  lemma CharBeforeFirst(s: string, c: char, n: nat)
    requires n <= |s|
    requires forall j :: 0 <= j < n ==> !OccursAt(s, [c], j)
    ensures forall k :: 0 <= k < n ==> s[k] != c
  {
    forall k | 0 <= k < n ensures s[k] != c {
      assert s[k..k + 1] == [s[k]];
      assert !OccursAt(s, [c], k);
    }
  }

  lemma WithoutAround(s: string, i: nat, c: char)
    requires i < |s| && s[i] == c
    ensures Without(s, c) == Without(s[..i], c) + Without(s[i + 1..], c)
  {
    var pre, post := s[..i], s[i + 1..];
    assert s == pre + [c] + post;
    assert Without(s, c) == Without(pre + [c], c) + Without(post, c) by {
      WithoutConcat(pre + [c], post, c);
    }
    assert Without(pre + [c], c) == Without(pre, c) by {
      WithoutConcat(pre, [c], c);
      assert Without([c], c) == "";
      assert Without(pre, c) + "" == Without(pre, c);
    }
  }

  lemma {:induction false} NoCharWithout(s: string, c: char)
    requires forall k :: 0 <= k < |s| ==> s[k] != c
    ensures Without(s, c) == s
  {
    if s != "" {
      NoCharWithout(s[1..], c);
    }
  }

  predicate StartsWith(s: string, prefix: string) {
    |prefix| <= |s| && s[..|prefix|] == prefix
  }

  predicate EndsWith(s: string, suffix: string) {
    |suffix| <= |s| && s[|s| - |suffix|..] == suffix
  }

  lemma EndsWithLast(s: string, suffix: string)
    requires EndsWith(s, suffix) && suffix != ""
    ensures s[|s| - 1] == suffix[|suffix| - 1]
  {
    assert s[|s| - |suffix|..][|suffix| - 1] == s[|s| - 1];
  }

  /** A one-character pattern occurs exactly where that character stands. */
  lemma OccursChar(s: string, c: char, j: nat)
    ensures OccursAt(s, [c], j) <==> j < |s| && s[j] == c
  {
    if j < |s| {
      assert s[j..j + 1] == [s[j]];
    }
  }

  /** `c in s` for a one-character string `c`. */
  lemma ContainsChar(s: string, c: char)
    ensures Contains(s, [c]) <==> c in s
  {
    if c in s {
      var i :| 0 <= i < |s| && s[i] == c;
      OccursChar(s, c, i);
      ContainsIff(s, [c], i);
    } else {
      NoOccurrenceWithoutHead(s, [c]);
    }
  }

  /** `Find` is pinned down by its first occurrence. */
  lemma FindIs(s: string, pat: string, i: nat)
    requires OccursAt(s, pat, i)
    requires forall j :: 0 <= j < i ==> !OccursAt(s, pat, j)
    ensures Find(s, pat) == Some(i)
  {
    var f := Find(s, pat);
    assert f.Some?;
    assert !(f.value < i);
  }

  /** One step of `Split` at the first occurrence `i` of the separator. */
  lemma SplitAt(s: string, sep: string, i: nat)
    requires sep != "" && Find(s, sep) == Some(i)
    ensures Split(s, sep) == [s[..i]] + Split(s[i + |sep|..], sep)
  {
  }

  /** Splitting on a one-character separator distributes over an occurrence
      of that separator. */
  lemma {:induction false} SplitAround(a: string, b: string, c: char)
    ensures Split(a + [c] + b, [c]) == Split(a, [c]) + Split(b, [c])
    decreases |a|
  {
    var fa := Find(a, [c]);
    if fa.None? {
      SplitAroundLast(a, b, c);
    } else {
      var i := fa.value;
      SplitAroundFirst(a, b, c, i);
      var rest := a[i + 1..];
      SplitAround(rest, b, c);
      ConsAssoc(a[..i], Split(rest, [c]), Split(b, [c]));
    }
  }

  lemma ConsAssoc(x: string, p: seq<string>, q: seq<string>)
    ensures [x] + (p + q) == ([x] + p) + q
  {
  }

  /** Before the inserted separator, `a + [c] + b` has the occurrences of `a`. */
  lemma SameOccurrences(a: string, b: string, c: char)
    ensures forall j: nat :: j < |a| ==> (OccursAt(a + [c] + b, [c], j) <==> OccursAt(a, [c], j))
  {
    forall j: nat | j < |a| ensures OccursAt(a + [c] + b, [c], j) <==> OccursAt(a, [c], j) {
      OccursChar(a + [c] + b, c, j);
      OccursChar(a, c, j);
    }
  }

  /** Without a separator in `a`, the inserted one is the first. */
  lemma SplitAroundLast(a: string, b: string, c: char)
    requires Find(a, [c]).None?
    ensures Split(a + [c] + b, [c]) == Split(a, [c]) + Split(b, [c])
  {
    var s := a + [c] + b;
    SameOccurrences(a, b, c);
    OccursChar(s, c, |a|);
    FindIs(s, [c], |a|);
    SplitAt(s, [c], |a|);
    assert s[..|a|] == a && s[|a| + 1..] == b;
  }

  /** A separator first found at `i` in `a` is also the first in `a + [c] + b`. */
  lemma SplitAroundFirst(a: string, b: string, c: char, i: nat)
    requires Find(a, [c]) == Some(i)
    ensures i < |a|
    ensures Split(a + [c] + b, [c]) == [a[..i]] + Split(a[i + 1..] + [c] + b, [c])
    ensures Split(a, [c]) == [a[..i]] + Split(a[i + 1..], [c])
  {
    var s := a + [c] + b;
    OccursChar(a, c, i);
    SameOccurrences(a, b, c);
    FindIs(s, [c], i);
    SplitAt(s, [c], i);
    SplitAt(a, [c], i);
    assert s[..i] == a[..i];
    assert s[i + 1..] == a[i + 1..] + [c] + b;
  }

  /** Every character of a piece of a split is a character of the text. */
  lemma {:induction false} SplitPartsWithin(s: string, sep: string)
    requires sep != ""
    ensures forall k, ch :: 0 <= k < |Split(s, sep)| && ch in Split(s, sep)[k] ==> ch in s
    decreases |s|
  {
    match Find(s, sep)
    case None =>
    case Some(i) =>
      var rest := s[i + |sep|..];
      SplitPartsWithin(rest, sep);
      SplitAt(s, sep, i);
      var parts := Split(s, sep);
      forall k, ch | 0 <= k < |parts| && ch in parts[k] ensures ch in s {
        if k == 0 {
          assert ch in s[..i];
        } else {
          assert parts[k] == Split(rest, sep)[k - 1];
          assert ch in rest;
        }
      }
  }

  /** The text of `lines` laid end to end. */
  function Concat(lines: seq<string>): string {
    if lines == [] then "" else lines[0] + Concat(lines[1..])
  }

  /** `f.readlines()` on a file holding `s`: the pieces of `s` that end just
      after a newline, and the rest if it is not empty. */
  function ReadLines(s: string): (lines: seq<string>)
    ensures forall k :: 0 <= k < |lines| ==> lines[k] != ""
    decreases |s|
  {
    if s == "" then []
    else
      match Find(s, "\n")
      case None => [s]
      case Some(i) => [s[..i + 1]] + ReadLines(s[i + 1..])
  }

  /** Reading the lines back together gives the text. */
  lemma {:induction false} ReadLinesRoundTrip(s: string)
    ensures Concat(ReadLines(s)) == s
    decreases |s|
  {
    if s != "" {
      match Find(s, "\n")
      case None =>
      case Some(i) =>
        ReadLinesRoundTrip(s[i + 1..]);
        assert ReadLines(s)[1..] == ReadLines(s[i + 1..]);
        assert s == s[..i + 1] + s[i + 1..];
    }
  }

  /** Only the last character of a line can be a newline, and every line but
      the last ends with one. */
  lemma {:induction false} ReadLinesShape(s: string)
    ensures var lines := ReadLines(s);
      && (forall k, j :: 0 <= k < |lines| && 0 <= j < |lines[k]| - 1 ==> lines[k][j] != '\n')
      && (forall k :: 0 <= k < |lines| - 1 ==> lines[k][|lines[k]| - 1] == '\n')
    decreases |s|
  {
    if s != "" {
      match Find(s, "\n")
      case None =>
        forall j | 0 <= j < |s| ensures s[j] != '\n' {
          OccursChar(s, '\n', j);
        }
      case Some(i) =>
        ReadLinesShape(s[i + 1..]);
        var lines := ReadLines(s);
        assert lines[1..] == ReadLines(s[i + 1..]);
        forall j | 0 <= j < i ensures s[j] != '\n' {
          OccursChar(s, '\n', j);
        }
        OccursChar(s, '\n', i);
        forall k, j | 0 <= k < |lines| && 0 <= j < |lines[k]| - 1 ensures lines[k][j] != '\n' {
          if k > 0 {
            assert lines[k] == lines[1..][k - 1];
          }
        }
        forall k | 0 <= k < |lines| - 1 ensures lines[k][|lines[k]| - 1] == '\n' {
          if k > 0 {
            assert lines[k] == lines[1..][k - 1];
          }
        }
    }
  }

  /** `s.split(c)[0]`: the text before the first `c`, which is the whole
      string when there is none. */
  lemma FirstToken(s: string, c: char)
    ensures var t := Split(s, [c])[0];
      c !in t && (t == s || StartsWith(s, t + [c]))
  {
    var t := Split(s, [c])[0];
    ContainsChar(t, c);
    match Find(s, [c])
    case None =>
    case Some(i) =>
      OccursChar(s, c, i);
      assert s[..i + 1] == t + [c];
  }

  /** The first piece is `t` exactly when `t` holds no `c` and is followed
      by one, or is the whole string. */
  lemma FirstTokenIff(s: string, c: char, t: string)
    ensures Split(s, [c])[0] == t <==> c !in t && (t == s || StartsWith(s, t + [c]))
  {
    FirstToken(s, c);
    if c !in t && (t == s || StartsWith(s, t + [c])) {
      forall j | 0 <= j < |t| ensures !OccursAt(s, [c], j) {
        OccursChar(s, c, j);
        assert s[j] == t[j];
      }
      if t == s {
        forall j: nat ensures !OccursAt(s, [c], j) {
          OccursChar(s, c, j);
        }
      } else {
        assert s[|t|] == (t + [c])[|t|];
        OccursChar(s, c, |t|);
        FindIs(s, [c], |t|);
        assert s[..|t|] == t;
      }
    }
  }

  /** No newline but possibly the last character. */
  predicate NewlineOnlyAtEnd(l: string) {
    forall j :: 0 <= j < |l| - 1 ==> l[j] != '\n'
  }

  /** Every line `readlines` yields holds a newline at most at its end. */
  lemma ReadLinesInner(s: string)
    ensures forall k :: 0 <= k < |ReadLines(s)| ==> NewlineOnlyAtEnd(ReadLines(s)[k])
  {
    ReadLinesShape(s);
  }

  /** A line as `readlines` yields it when more follow: one newline, at the
      end. */
  predicate IsLine(l: string) {
    |l| > 0 && l[|l| - 1] == '\n' && forall j :: 0 <= j < |l| - 1 ==> l[j] != '\n'
  }

  /** A text without newlines closed by one is a line. */
  lemma LineOf(body: string)
    requires '\n' !in body
    ensures IsLine(body + "\n")
  {
    var l := body + "\n";
    forall j | 0 <= j < |l| - 1 ensures l[j] != '\n' {
      assert l[j] == body[j];
    }
  }

  lemma {:induction false} ConcatAppend(lines: seq<string>, l: string)
    ensures Concat(lines + [l]) == Concat(lines) + l
  {
    if lines == [] {
      assert [] + [l] == [l];
    } else {
      assert (lines + [l])[1..] == lines[1..] + [l];
      ConcatAppend(lines[1..], l);
    }
  }

  /** A character in neither the pieces nor the separator is not in their
      join. */
  lemma {:induction false} JoinExcludes(parts: seq<string>, sep: string, c: char)
    requires c !in sep && forall k :: 0 <= k < |parts| ==> c !in parts[k]
    ensures c !in Join(parts, sep)
  {
    if |parts| > 1 {
      JoinExcludes(parts[1..], sep, c);
    }
  }

  /** Lines written one after the other are read back one by one. */
  lemma {:induction false} ReadLinesConcat(lines: seq<string>)
    requires forall k :: 0 <= k < |lines| ==> IsLine(lines[k])
    ensures ReadLines(Concat(lines)) == lines
  {
    if lines != [] {
      var l := lines[0];
      var rest := Concat(lines[1..]);
      var s := l + rest;
      assert Concat(lines) == s;
      forall j | 0 <= j < |l| - 1 ensures !OccursAt(s, "\n", j) {
        OccursChar(s, '\n', j);
      }
      OccursChar(s, '\n', |l| - 1);
      FindIs(s, "\n", |l| - 1);
      assert s[..|l|] == l && s[|l|..] == rest;
      ReadLinesConcat(lines[1..]);
      assert [l] + lines[1..] == lines;
    }
  }

  /** Python's `s[k:]`. */
  function DropFirst(s: string, k: nat): (r: string)
    ensures |r| == if k <= |s| then |s| - k else 0
  {
    if k <= |s| then s[k..] else ""
  }

  /** Python's `s[:-k]` for `k > 0`. */
  function DropLast(s: string, k: nat): (r: string)
    requires k > 0
    ensures |r| == if k <= |s| then |s| - k else 0
    ensures r == s[..|r|]
  {
    if k <= |s| then s[..|s| - k] else ""
  }

  /** Python's `str.isspace` for one character. */
  predicate IsSpace(c: char) {
    ('\t' <= c <= '\r') || ('\U{1C}' <= c <= ' ') || c == '\U{85}' || c == '\U{A0}'
    || c == '\U{1680}' || ('\U{2000}' <= c <= '\U{200A}') || c == '\U{2028}'
    || c == '\U{2029}' || c == '\U{202F}' || c == '\U{205F}' || c == '\U{3000}'
  }

  /** Number of leading whitespace characters of `s`. */
  function LeadSpaces(s: string): (n: nat)
    ensures n <= |s|
    ensures n < |s| ==> !IsSpace(s[n])
  {
    if s == "" || !IsSpace(s[0]) then 0 else 1 + LeadSpaces(s[1..])
  }

  /** Number of trailing whitespace characters of `s`. */
  function TrailSpaces(s: string): (n: nat)
    ensures n <= |s|
    ensures n < |s| ==> !IsSpace(s[|s| - 1 - n])
    ensures s != "" && !IsSpace(s[0]) ==> n < |s|
  {
    if s == "" || !IsSpace(s[|s| - 1]) then 0 else 1 + TrailSpaces(s[..|s| - 1])
  }

  /** `s.strip()`: the slice of `s` left after removing whitespace from both
      ends. */
  function Strip(s: string): (r: string)
    ensures r == "" || (!IsSpace(r[0]) && !IsSpace(r[|r| - 1]))
    ensures |r| <= |s|
  {
    var rest := s[LeadSpaces(s)..];
    if rest == "" then "" else rest[..|rest| - TrailSpaces(rest)]
  }

  /** `s.strip(c)` for one character `c`: every `c` removed from both ends. */
  function StripChar(s: string, c: char): (r: string)
    ensures r == "" || (r[0] != c && r[|r| - 1] != c)
    ensures |r| <= |s|
    decreases |s|
  {
    if s == "" then ""
    else if s[0] == c then StripChar(s[1..], c)
    else if s[|s| - 1] == c then StripChar(s[..|s| - 1], c)
    else s
  }

  /** A word without surrounding whitespace, padded by one space on either
      side, strips back to itself. */
  lemma StripPadded(a: string)
    requires a != "" && !IsSpace(a[0]) && !IsSpace(a[|a| - 1])
    ensures Strip(a) == a && Strip(" " + a) == a && Strip(a + " ") == a && Strip(" " + a + " ") == a
  {
    StripSpaced(a);
    StripLeadSpace(" " + a);
    assert (" " + a)[1..] == a;
    StripLeadSpace(" " + a + " ");
    assert (" " + a + " ")[1..] == a + " ";
  }

  /** A leading whitespace character makes no difference to `strip`. */
  lemma StripLeadSpace(t: string)
    requires t != "" && IsSpace(t[0])
    ensures Strip(t) == Strip(t[1..])
  {
    assert LeadSpaces(t) == 1 + LeadSpaces(t[1..]);
    assert t[LeadSpaces(t)..] == t[1..][LeadSpaces(t[1..])..];
  }

  /** A word with one trailing space: nothing leads, one space trails. */
  lemma StripSpaced(a: string)
    requires a != "" && !IsSpace(a[0]) && !IsSpace(a[|a| - 1])
    ensures Strip(a) == a && Strip(a + " ") == a
  {
    var t := a + " ";
    assert t[0] == a[0] && t[..|t| - 1] == a;
    assert TrailSpaces(t) == 1;
  }

  predicate IsAsciiDigit(c: char) {
    '0' <= c <= '9'
  }

  /** `s.isdigit()` (ASCII digits only). */
  predicate IsDigits(s: string) {
    |s| > 0 && forall k :: 0 <= k < |s| ==> IsAsciiDigit(s[k])
  }

  function DigitsValue(s: string): nat
    requires forall k :: 0 <= k < |s| ==> IsAsciiDigit(s[k])
  {
    if s == "" then 0
    else
      var last := s[|s| - 1];
      assert IsAsciiDigit(last);
      10 * DigitsValue(s[..|s| - 1]) + (last as int - '0' as int)
  }

  /** Digits with single underscores between them, as Python's `int()` accepts. */
  predicate IsUnderscoredDigits(u: string) {
    && |u| > 0 && IsAsciiDigit(u[0]) && IsAsciiDigit(u[|u| - 1])
    && (forall k :: 0 <= k < |u| ==> IsAsciiDigit(u[k]) || u[k] == '_')
    && !Contains(u, "__")
  }

  lemma UnderscoredDigitsFilter(u: string)
    requires IsUnderscoredDigits(u)
    ensures forall k :: 0 <= k < |Without(u, '_')| ==> IsAsciiDigit(Without(u, '_')[k])
  {
    AllDigitsOrUnderscore(u);
  }

  lemma {:induction false} AllDigitsOrUnderscore(u: string)
    requires forall k :: 0 <= k < |u| ==> IsAsciiDigit(u[k]) || u[k] == '_'
    ensures forall k :: 0 <= k < |Without(u, '_')| ==> IsAsciiDigit(Without(u, '_')[k])
  {
    if u != "" {
      AllDigitsOrUnderscore(u[1..]);
    }
  }

  /** `int(s)` for base 10: surrounding whitespace, an optional sign, and
      digits possibly grouped by single underscores; `None` where Python
      raises `ValueError`. */
  function ParseInt(s: string): (r: Option<int>)
    ensures IsDigits(s) ==> r == Some(DigitsValue(s))
  {
    if IsDigits(s) then Some(DigitsValue(s)) else ParseGeneral(s)
  }

  function ParseGeneral(s: string): (r: Option<int>)
    ensures IsDigits(s) ==> r == Some(DigitsValue(s))
  {
    DigitsParse(s);
    var t := Strip(s);
    if |t| > 0 && (t[0] == '+' || t[0] == '-') then
      match ParseUnsigned(t[1..])
      case None => None
      case Some(n) =>
        var v: int := if t[0] == '-' then -(n as int) else n;
        Some(v)
    else
      match ParseUnsigned(t)
      case None => None
      case Some(n) => Some(n)
  }

  function ParseUnsigned(u: string): Option<nat> {
    if IsUnderscoredDigits(u) then
      UnderscoredDigitsFilter(u);
      Some(DigitsValue(Without(u, '_')))
    else None
  }

  /** A plain digit string is its own stripped, underscore-free form. */
  lemma DigitsParse(s: string)
    ensures IsDigits(s) ==> Strip(s) == s && ParseUnsigned(s) == Some(DigitsValue(s))
  {
    if IsDigits(s) {
      assert LeadSpaces(s) == 0;
      assert TrailSpaces(s) == 0;
      NoCharWithout(s, '_');
      NoOccurrenceWithoutHead(s, "__");
    }
  }

  /** The decimal digit for `d < 10`. */
  function DigitChar(d: nat): (c: char)
    requires d < 10
    ensures IsAsciiDigit(c) && c as int - '0' as int == d
  {
    ('0' as int + d) as char
  }

  /** `str(n)` for a non-negative integer. */
  function DecimalString(n: nat): (r: string)
    ensures IsDigits(r)
    ensures DigitsValue(r) == n
    decreases n
  {
    if n < 10 then [DigitChar(n)]
    else
      var prefix := DecimalString(n / 10);
      var r := prefix + [DigitChar(n % 10)];
      assert r[..|r| - 1] == prefix;
      r
  }

  /** `int(str(n)) == n`. */
  lemma DecimalRoundTrip(n: nat)
    ensures ParseInt(DecimalString(n)) == Some(n)
  {
  }
}
