/** The handful of Python `str` operations the display tool relies on:
    `in`, `index`, `startswith`, `strip`, `split` and `''.join`. */
module Strings {
  import opened Wrappers

  /** `pat` occurs in `s` starting at position `i`. */
  predicate OccursAt(s: string, pat: string, i: nat) {
    i + |pat| <= |s| && s[i..i + |pat|] == pat
  }

  /** Python's `s.startswith(prefix)`: `s` is `prefix` followed by something. */
  predicate StartsWith(s: string, prefix: string)
    ensures StartsWith(s, prefix) <==> exists t :: s == prefix + t
  {
    if |prefix| <= |s| && s[..|prefix|] == prefix then
      assert s == prefix + s[|prefix|..];
      true
    else
      false
  }

  lemma OccursShift(s: string, pat: string, i: nat)
    requires |s| > 0
    ensures OccursAt(s, pat, i + 1) <==> OccursAt(s[1..], pat, i)
  {
    if i + 1 + |pat| <= |s| {
      assert s[1..][i..i + |pat|] == s[i + 1..i + 1 + |pat|];
    }
  }

  /** Python's `s.index(pat)` / `s.find(pat)`: the first position where `pat` occurs. */
  function IndexOf(s: string, pat: string): (r: Option<nat>)
    ensures r.Some? ==> OccursAt(s, pat, r.value)
    ensures r.Some? ==> forall j: nat :: j < r.value ==> !OccursAt(s, pat, j)
    ensures r.None? ==> forall j: nat :: !OccursAt(s, pat, j)
    decreases |s|
  {
    if StartsWith(s, pat) then
      Some(0)
    else if |s| == 0 then
      None
    else
      var rest := IndexOf(s[1..], pat);
      assert !OccursAt(s, pat, 0);
      assert forall j: nat :: 0 < j ==> (OccursAt(s, pat, j) <==> OccursAt(s[1..], pat, j - 1)) by {
        forall j: nat | 0 < j ensures OccursAt(s, pat, j) <==> OccursAt(s[1..], pat, j - 1) {
          OccursShift(s, pat, j - 1);
        }
      }
      match rest
      case Some(i) => Some(i + 1)
      case None => None
  }

  /** Python's `pat in s`: `pat` occurs somewhere in `s`. */
  predicate Contains(s: string, pat: string)
    ensures Contains(s, pat) <==> exists j: nat :: OccursAt(s, pat, j)
  {
    IndexOf(s, pat).Some?
  }

  /** Every line that contains "disconnected" also contains "connected". */
  lemma DisconnectedContainsConnected(s: string)
    requires Contains(s, "disconnected")
    ensures Contains(s, "connected")
  {
    var i := IndexOf(s, "disconnected").value;
    assert s[i + 3..i + 12] == s[i..i + 12][3..];
    assert OccursAt(s, "connected", i + 3);
  }

  /** Number of leading tab characters. */
  function LeadingTabs(s: string): (r: nat)
    ensures r <= |s|
    ensures forall i :: 0 <= i < r ==> s[i] == '\t'
    ensures r < |s| ==> s[r] != '\t'
  {
    if |s| > 0 && s[0] == '\t' then 1 + LeadingTabs(s[1..]) else 0
  }

  /** The characters Python's `str.strip()` removes by default: the ASCII
      controls TAB..CR and FS..US, SPACE, NEL, NBSP, OGHAM SPACE MARK, EN QUAD..HAIR
      SPACE, LINE and PARAGRAPH SEPARATOR, NNBSP, MMSP and IDEOGRAPHIC SPACE. */
  predicate IsSpace(c: char) {
    ('\t' <= c <= '\r') || ('\U{001C}' <= c <= ' ') || c == '\U{0085}' || c == '\U{00A0}'
    || c == '\U{1680}' || ('\U{2000}' <= c <= '\U{200A}') || c == '\U{2028}' || c == '\U{2029}'
    || c == '\U{202F}' || c == '\U{205F}' || c == '\U{3000}'
  }

  predicate AllSpace(s: string) {
    forall i :: 0 <= i < |s| ==> IsSpace(s[i])
  }

  lemma AllSpaceCons(c: char, t: string)
    requires IsSpace(c) && AllSpace(t)
    ensures AllSpace([c] + t)
  {
    assert forall i :: 1 <= i <= |t| ==> ([c] + t)[i] == t[i - 1];
  }

  function TrimStart(s: string): (r: string)
    ensures |r| <= |s| && r == s[|s| - |r|..]
    ensures AllSpace(s[..|s| - |r|])
    ensures |r| > 0 ==> !IsSpace(r[0])
  {
    if |s| > 0 && IsSpace(s[0]) then
      var r := TrimStart(s[1..]);
      assert s[..|s| - |r|] == [s[0]] + s[1..][..|s| - 1 - |r|];
      AllSpaceCons(s[0], s[1..][..|s| - 1 - |r|]);
      r
    else
      s
  }

  function TrimEnd(s: string): (r: string)
    ensures |r| <= |s| && r == s[..|r|]
    ensures AllSpace(s[|r|..])
    ensures |r| > 0 ==> !IsSpace(r[|r| - 1])
  {
    if |s| > 0 && IsSpace(s[|s| - 1]) then
      var r := TrimEnd(s[..|s| - 1]);
      assert s[|r|..] == s[..|s| - 1][|r|..] + [s[|s| - 1]];
      r
    else
      s
  }

  /** Python's `s.strip()`: `s` without its leading and trailing whitespace,
      that is, the slice `s[i..j]` with only whitespace outside it. */
  function Strip(s: string): (r: string)
    ensures exists i, j :: 0 <= i <= j <= |s| && r == s[i..j] && AllSpace(s[..i]) && AllSpace(s[j..])
    ensures |r| > 0 ==> !IsSpace(r[0]) && !IsSpace(r[|r| - 1])
    ensures AllSpace(s) <==> r == ""
  {
    var t := TrimStart(s);
    var r := TrimEnd(t);
    TrimBoth(s, t, r);
    r
  }

  /** What trimming at the front and then at the back leaves of `s`. */
  lemma TrimBoth(s: string, t: string, r: string)
    requires |t| <= |s| && t == s[|s| - |t|..] && AllSpace(s[..|s| - |t|])
    requires |t| > 0 ==> !IsSpace(t[0])
    requires |r| <= |t| && r == t[..|r|] && AllSpace(t[|r|..])
    requires |r| > 0 ==> !IsSpace(r[|r| - 1])
    ensures r == s[|s| - |t|..|s| - |t| + |r|] && AllSpace(s[|s| - |t| + |r|..])
    ensures |r| > 0 ==> !IsSpace(r[0])
    ensures AllSpace(s) <==> r == ""
  {
    var a := |s| - |t|;
    assert s[a + |r|..] == t[|r|..];
    if r == "" {
      assert t == "";
      forall k | 0 <= k < |s| ensures IsSpace(s[k]) {
        SpaceBefore(s, a, k);
      }
    } else {
      assert r[0] == t[0] == s[a];
    }
  }

  /** The stripped text is the only slice with whitespace on both sides of it
      and none at its own ends: `strip` removes all the surrounding whitespace
      and nothing more. */
  lemma StripUnique(s: string, i: nat, j: nat)
    requires i <= j <= |s|
    requires AllSpace(s[..i]) && AllSpace(s[j..])
    requires i < j ==> !IsSpace(s[i]) && !IsSpace(s[j - 1])
    ensures Strip(s) == s[i..j]
  {
    if i == j {
      SpaceAround(s, i);
    } else {
      StripUniqueNonEmpty(s, i, j);
    }
  }

  lemma StripUniqueNonEmpty(s: string, i: nat, j: nat)
    requires i < j <= |s|
    requires AllSpace(s[..i]) && AllSpace(s[j..])
    requires !IsSpace(s[i]) && !IsSpace(s[j - 1])
    ensures Strip(s) == s[i..j]
  {
    var a, b := StripBounds(s);
    if a < b {
      SameSlice(s, a, b, i, j);
    }
  }

  /** The bounds of the slice `strip` keeps. */
  lemma StripBounds(s: string) returns (a: nat, b: nat)
    ensures a <= b <= |s| && Strip(s) == s[a..b]
    ensures AllSpace(s[..a]) && AllSpace(s[b..])
    ensures a < b ==> !IsSpace(s[a]) && !IsSpace(s[b - 1])
    ensures a == b ==> AllSpace(s)
  {
    var t := TrimStart(s);
    var r := TrimEnd(t);
    TrimBoth(s, t, r);
    a, b := |s| - |t|, |s| - |t| + |r|;
    if a < b {
      assert r[0] == s[a] && r[|r| - 1] == s[b - 1];
    }
  }

  /** Whitespace before and after the same position is whitespace throughout. */
  lemma SpaceAround(s: string, i: nat)
    requires i <= |s| && AllSpace(s[..i]) && AllSpace(s[i..])
    ensures AllSpace(s)
  {
    forall k | 0 <= k < |s| ensures IsSpace(s[k]) {
      if k < i { SpaceBefore(s, i, k); } else { SpaceAfter(s, i, k); }
    }
  }

  /** Two non-empty slices of `s`, each with non-space ends and only
      whitespace outside it, are the same slice. */
  lemma SameSlice(s: string, a: nat, b: nat, i: nat, j: nat)
    requires a < b <= |s| && i < j <= |s|
    requires AllSpace(s[..a]) && AllSpace(s[b..]) && AllSpace(s[..i]) && AllSpace(s[j..])
    requires !IsSpace(s[a]) && !IsSpace(s[b - 1]) && !IsSpace(s[i]) && !IsSpace(s[j - 1])
    ensures a == i && b == j
  {
    FirstNonSpace(s, a, i);
    LastNonSpace(s, b, j);
  }

  /** Two positions that both start a non-space character after only spaces are equal. */
  lemma FirstNonSpace(s: string, a: nat, i: nat)
    requires a < |s| && i < |s| && AllSpace(s[..a]) && AllSpace(s[..i])
    requires !IsSpace(s[a]) && !IsSpace(s[i])
    ensures a == i
  {
    if a < i { SpaceBefore(s, i, a); }
    if i < a { SpaceBefore(s, a, i); }
  }

  /** Two positions that both end a non-space character before only spaces are equal. */
  lemma LastNonSpace(s: string, b: nat, j: nat)
    requires 0 < b <= |s| && 0 < j <= |s| && AllSpace(s[b..]) && AllSpace(s[j..])
    requires !IsSpace(s[b - 1]) && !IsSpace(s[j - 1])
    ensures b == j
  {
  }

  lemma SpaceBefore(s: string, a: nat, k: nat)
    requires k < a <= |s| && AllSpace(s[..a])
    ensures IsSpace(s[k])
  {
    assert s[..a][k] == s[k];
  }

  lemma SpaceAfter(s: string, b: nat, k: nat)
    requires b <= k < |s| && AllSpace(s[b..])
    ensures IsSpace(s[k])
  {
    assert s[b..][k - b] == s[k];
  }

  /** Concatenation regroups freely. */
  lemma ConcatAssoc<T>(a: seq<T>, b: seq<T>, c: seq<T>)
    ensures a + (b + c) == (a + b) + c
  {
  }

  /** Python's `''.join(parts)`: empty exactly when every part is, and a
      single part comes back unchanged. */
  function Concat(parts: seq<string>): (r: string)
    ensures r == "" <==> forall i :: 0 <= i < |parts| ==> parts[i] == ""
    ensures |parts| == 1 ==> r == parts[0]
  {
    if |parts| == 0 then
      ""
    else
      var rest := Concat(parts[1..]);
      assert forall i :: 1 <= i < |parts| ==> parts[i] == parts[1..][i - 1];
      parts[0] + rest
  }

  /** Joining pieces collected one at a time: appending a piece to the list
      appends its text to the join. */
  lemma {:induction false} ConcatAppend(parts: seq<string>, p: string)
    ensures Concat(parts + [p]) == Concat(parts) + p
  {
    if |parts| == 0 {
      assert Concat([p]) == p + Concat([]);
    } else {
      assert (parts + [p])[1..] == parts[1..] + [p];
      ConcatAppend(parts[1..], p);
      ConcatAssoc(parts[0], Concat(parts[1..]), p);
    }
  }

  /** Python's `s.split(sep)` for a one-character separator: never empty, and the
      pieces hold no separator. */
  function Split(s: string, sep: char): (r: seq<string>)
    ensures |r| >= 1
    ensures forall i :: 0 <= i < |r| ==> sep !in r[i]
  {
    if |s| == 0 then
      [""]
    else
      var rest := Split(s[1..], sep);
      if s[0] == sep then [""] + rest else [[s[0]] + rest[0]] + rest[1..]
  }

  /** Python's `sep.join(parts)` for a one-character separator. */
  function Join(parts: seq<string>, sep: char): string
  {
    if |parts| == 0 then ""
    else if |parts| == 1 then parts[0]
    else parts[0] + [sep] + Join(parts[1..], sep)
  }

  lemma {:induction false} JoinSplit(s: string, sep: char)
    ensures Join(Split(s, sep), sep) == s
  {
    if |s| > 0 {
      var rest := Split(s[1..], sep);
      JoinSplit(s[1..], sep);
      if s[0] == sep {
        assert Split(s, sep) == [""] + rest;
      } else {
        var r := [[s[0]] + rest[0]] + rest[1..];
        assert Split(s, sep) == r;
        if |rest| == 1 {
          assert Join(r, sep) == [s[0]] + rest[0];
        } else {
          assert r[1..] == rest[1..];
          assert Join(r, sep) == [s[0]] + (rest[0] + [sep] + Join(rest[1..], sep));
        }
      }
    }
  }

  lemma {:induction false} SplitNoSeparator(a: string, sep: char)
    requires sep !in a
    ensures Split(a, sep) == [a]
  {
    if |a| > 0 {
      SplitNoSeparator(a[1..], sep);
      assert [a[0]] + a[1..] == a;
    }
  }

  lemma {:induction false} SplitAfterPiece(a: string, b: string, sep: char)
    requires sep !in a
    ensures Split(a + [sep] + b, sep) == [a] + Split(b, sep)
  {
    var s := a + [sep] + b;
    if |a| == 0 {
      assert s[1..] == b;
    } else {
      assert s[1..] == a[1..] + [sep] + b;
      SplitAfterPiece(a[1..], b, sep);
      assert [a[0]] + a[1..] == a;
    }
  }

  /** Splitting undoes joining whenever no piece holds the separator. */
  lemma {:induction false} SplitJoin(parts: seq<string>, sep: char)
    requires |parts| >= 1
    requires forall i :: 0 <= i < |parts| ==> sep !in parts[i]
    ensures Split(Join(parts, sep), sep) == parts
  {
    if |parts| == 1 {
      SplitNoSeparator(parts[0], sep);
    } else {
      SplitJoin(parts[1..], sep);
      SplitAfterPiece(parts[0], Join(parts[1..], sep), sep);
      assert [parts[0]] + parts[1..] == parts;
    }
  }
}
