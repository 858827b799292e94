/**
 * The parts of Go's string semantics that the contract depends on: the
 * built-in `<` on strings (used to compare version ids and to sort JSON
 * keys), `strings.Contains` (used to recognise "not found" errors) and
 * `strings.Split` with a non-empty separator (used to parse key URLs).
 *
 * Go compares strings byte by byte. Strings here are sequences of Unicode
 * scalar values; since UTF-8 preserves code-point order, comparing code
 * points orders exactly as comparing the UTF-8 bytes does.
 */
module GoStrings {

  /** Go's `byte`. */
  type byte = b: int | 0 <= b < 256

  /** Go's `a < b` on strings: lexicographic, a proper prefix is smaller. */
  predicate Less(a: string, b: string)
  {
    if |a| == 0 then |b| > 0
    else if |b| == 0 then false
    else if a[0] != b[0] then a[0] < b[0]
    else Less(a[1..], b[1..])
  }

  lemma {:induction false} LessIrreflexive(a: string)
    ensures !Less(a, a)
  {
    if |a| > 0 {
      LessIrreflexive(a[1..]);
    }
  }

  lemma {:induction false} LessAsymmetric(a: string, b: string)
    ensures Less(a, b) ==> !Less(b, a)
  {
    if |a| > 0 && |b| > 0 && a[0] == b[0] {
      LessAsymmetric(a[1..], b[1..]);
    }
  }

  lemma {:induction false} LessTransitive(a: string, b: string, c: string)
    requires Less(a, b) && Less(b, c)
    ensures Less(a, c)
  {
    if |a| > 0 && a[0] == b[0] && b[0] == c[0] {
      LessTransitive(a[1..], b[1..], c[1..]);
    }
  }

  /** Distinct strings are always comparable: Go's order is total. */
  lemma {:induction false} LessTotal(a: string, b: string)
    requires a != b
    ensures Less(a, b) || Less(b, a)
  {
    if |a| > 0 && |b| > 0 && a[0] == b[0] {
      assert a == [a[0]] + a[1..] && b == [b[0]] + b[1..];
      LessTotal(a[1..], b[1..]);
    }
  }

  /** Go's `a >= b` on strings. */
  predicate AtLeast(a: string, b: string)
  {
    !Less(a, b)
  }

  predicate HasPrefix(s: string, t: string)
  {
    |t| <= |s| && s[..|t|] == t
  }

  /** `strings.Contains(s, t)`. */
  predicate Contains(s: string, t: string)
  {
    HasPrefix(s, t) || (|s| > 0 && Contains(s[1..], t))
  }

  /** An occurrence starting at offset `j` makes `t` a substring of `s`. */
  lemma {:induction false} ContainsAt(s: string, t: string, j: nat)
    requires j <= |s|
    ensures HasPrefix(s[j..], t) ==> Contains(s, t)
  {
    if j > 0 {
      assert s[1..][j - 1..] == s[j..];
      ContainsAt(s[1..], t, j - 1);
    }
  }

  /** Every substring occurrence has a starting offset. */
  lemma {:induction false} ContainsWitness(s: string, t: string) returns (j: nat)
    requires Contains(s, t)
    ensures j <= |s| && HasPrefix(s[j..], t)
  {
    if HasPrefix(s, t) {
      j := 0;
    } else {
      var k := ContainsWitness(s[1..], t);
      assert s[1..][k..] == s[k + 1..];
      j := k + 1;
    }
  }

  /** Text kept at the end of a longer string is still contained in it. */
  lemma ContainsSuffix(a: string, t: string)
    ensures Contains(a + t, t)
  {
    assert (a + t)[|a|..] == t;
    ContainsAt(a + t, t, |a|);
  }

  /** A substring of a piece is a substring of the whole. */
  lemma ContainsInConcat(a: string, b: string, t: string)
    requires Contains(a, t) || Contains(b, t)
    ensures Contains(a + b, t)
  {
    if Contains(a, t) {
      var j := ContainsWitness(a, t);
      assert (a + b)[j..][..|t|] == a[j..][..|t|];
      ContainsAt(a + b, t, j);
    } else {
      var j := ContainsWitness(b, t);
      assert (a + b)[|a| + j..] == b[j..];
      ContainsAt(a + b, t, |a| + j);
    }
  }

  /**
   * The first offset at or after `from` where `sep` occurs in `s`, or -1:
   * the scan `strings.Index` performs, continued from an offset so that
   * every piece it looks at is a slice of the same `s`.
   */
  function IndexFrom(s: string, sep: string, from: nat): (r: int)
    requires |sep| > 0 && from <= |s|
    ensures r == -1 || (from <= r && r + |sep| <= |s|)
    decreases |s| - from
  {
    if HasPrefix(s[from..], sep) then from
    else if from == |s| then -1
    else IndexFrom(s, sep, from + 1)
  }

  /** `IndexFrom` answers an occurrence, and there is none between `from` and it (or at all, for -1). */
  lemma {:induction false} IndexFromFirst(s: string, sep: string, from: nat)
    requires |sep| > 0 && from <= |s|
    ensures IndexFrom(s, sep, from) >= 0 ==> HasPrefix(s[IndexFrom(s, sep, from)..], sep)
    ensures forall j :: from <= j <= |s| && (IndexFrom(s, sep, from) < 0 || j < IndexFrom(s, sep, from))
                        ==> !HasPrefix(s[j..], sep)
    decreases |s| - from
  {
    if !HasPrefix(s[from..], sep) && from < |s| {
      IndexFromFirst(s, sep, from + 1);
    }
  }

  /**
   * `strings.Index(s, sep)` for a non-empty separator: the offset of the
   * first occurrence, or -1 when there is none (`IndexOfFirst`).
   */
  function IndexOf(s: string, sep: string): (r: int)
    requires |sep| > 0
    ensures -1 <= r <= |s| && (r >= 0 ==> r + |sep| <= |s|)
  {
    IndexFrom(s, sep, 0)
  }

  /**
   * `IndexOf` finds the first occurrence: there is one at the offset it
   * answers and none before it, and it answers -1 exactly when the
   * separator does not occur.
   */
  lemma IndexOfFirst(s: string, sep: string)
    requires |sep| > 0
    ensures IndexOf(s, sep) >= 0 ==> HasPrefix(s[IndexOf(s, sep)..], sep)
    ensures IndexOf(s, sep) >= 0 ==> forall j :: 0 <= j < IndexOf(s, sep) ==> !HasPrefix(s[j..], sep)
    ensures IndexOf(s, sep) == -1 <==> !Contains(s, sep)
  {
    var r := IndexOf(s, sep);
    IndexFromFirst(s, sep, 0);
    if r >= 0 {
      ContainsAt(s, sep, r);
    } else {
      NoPrefixAnywhere(s, sep);
    }
  }

  /** `strings.Split(s, sep)` for a non-empty separator. */
  function Split(s: string, sep: string): (parts: seq<string>)
    requires |sep| > 0
    ensures |parts| >= 1
  {
    SplitFrom(s, sep, 0)
  }

  /**
   * The pieces of `s[from..]`: the text up to the next occurrence, then
   * the pieces after it; the last piece is what follows the last
   * occurrence.
   */
  function SplitFrom(s: string, sep: string, from: nat): (parts: seq<string>)
    requires |sep| > 0 && from <= |s|
    ensures |parts| >= 1
    decreases |s| - from
  {
    var i := IndexFrom(s, sep, from);
    if i < 0 then [s[from..]]
    else [s[from..i]] + SplitFrom(s, sep, i + |sep|)
  }

  /** Text without the separator is not split. */
  lemma SplitNone(s: string, sep: string)
    requires |sep| > 0 && !Contains(s, sep)
    ensures Split(s, sep) == [s]
  {
    IndexOfFirst(s, sep);
    assert s[0..] == s;
  }

  /** No occurrence at any offset means no occurrence at all. */
  lemma {:induction false} NoPrefixAnywhere(s: string, t: string)
    requires forall j :: 0 <= j <= |s| ==> !HasPrefix(s[j..], t)
    ensures !Contains(s, t)
  {
    assert s[0..] == s;
    if |s| > 0 {
      forall j | 0 <= j <= |s| - 1
        ensures !HasPrefix(s[1..][j..], t)
      {
        assert s[1..][j..] == s[j + 1..];
      }
      NoPrefixAnywhere(s[1..], t);
    }
  }

  /** An occurrence inside a slice of `s` is an occurrence in `s` at the shifted offset. */
  lemma SliceOccurrence(s: string, sep: string, lo: nat, hi: nat, j: nat)
    requires lo <= hi <= |s| && j <= hi - lo && HasPrefix(s[lo..hi][j..], sep)
    ensures lo + j + |sep| <= hi && HasPrefix(s[lo + j..], sep)
  {
    assert s[lo..hi][j..] == s[lo + j..hi];
    assert s[lo + j..hi][..|sep|] == s[lo + j..][..|sep|];
  }

  /** An occurrence at or after `from` is an occurrence in the rest of `s` from there. */
  lemma SuffixOccurrence(s: string, sep: string, from: nat, k: nat)
    requires from <= k <= |s| && HasPrefix(s[k..], sep)
    ensures Contains(s[from..], sep)
  {
    assert s[from..][k - from..] == s[k..];
    ContainsAt(s[from..], sep, k - from);
  }

  /** When the rest of `s` from `from` holds no occurrence, the scan from there finds none. */
  lemma NoneFrom(s: string, sep: string, from: nat)
    requires |sep| > 0 && from <= |s| && !Contains(s[from..], sep)
    ensures IndexFrom(s, sep, from) == -1
  {
    IndexFromFirst(s, sep, from);
    var k := IndexFrom(s, sep, from);
    if k >= 0 {
      SuffixOccurrence(s, sep, from, k);
      assert false;
    }
  }

  /** A slice of `s` between offsets where `s` has no occurrence holds none. */
  lemma NoneInSlice(s: string, sep: string, lo: nat, hi: nat)
    requires lo <= hi <= |s|
    requires forall j :: lo <= j && j + |sep| <= hi ==> !HasPrefix(s[j..], sep)
    ensures !Contains(s[lo..hi], sep)
  {
    forall j | 0 <= j <= hi - lo
      ensures !HasPrefix(s[lo..hi][j..], sep)
    {
      if HasPrefix(s[lo..hi][j..], sep) {
        SliceOccurrence(s, sep, lo, hi, j);
      }
    }
    NoPrefixAnywhere(s[lo..hi], sep);
  }

  /**
   * Splitting into exactly two pieces means exactly one occurrence: the
   * input is the two pieces joined by the separator, and neither piece
   * holds the separator.
   */
  lemma SplitTwo(s: string, sep: string)
    requires |sep| > 0 && |Split(s, sep)| == 2
    ensures s == Split(s, sep)[0] + sep + Split(s, sep)[1]
    ensures !Contains(Split(s, sep)[0], sep) && !Contains(Split(s, sep)[1], sep)
  {
    var i := IndexFrom(s, sep, 0);
    assert i >= 0;
    var after := i + |sep|;
    var tail := SplitFrom(s, sep, after);
    assert Split(s, sep) == [s[0..i]] + tail;
    assert |tail| == 1 && IndexFrom(s, sep, after) < 0;
    assert Split(s, sep) == [s[..i], s[after..]];
    IndexFromFirst(s, sep, 0);
    IndexFromFirst(s, sep, after);
    NoneInSlice(s, sep, 0, i);
    NoneInSlice(s, sep, after, |s|);
    assert s[0..i] == s[..i] && s[after..|s|] == s[after..];
    assert s[i..][..|sep|] == sep;
    assert s == s[..i] + s[i..][..|sep|] + s[after..];
  }

  /**
   * When the separator's first character does not occur again inside it,
   * an occurrence cannot straddle the end of a separator-free prefix, so
   * the first occurrence in `a + sep + b` is the one right after `a`.
   */
  lemma FirstOccurrence(a: string, sep: string, b: string)
    requires |sep| > 0 && !Contains(a, sep)
    requires forall d :: 0 < d < |sep| ==> sep[d] != sep[0]
    ensures IndexOf(a + sep + b, sep) == |a|
  {
    var s := a + sep + b;
    assert s[|a|..][..|sep|] == sep;
    assert HasPrefix(s[|a|..], sep);
    forall j | 0 <= j < |a|
      ensures !HasPrefix(s[j..], sep)
    {
      if j + |sep| <= |a| {
        assert a[j..][..|sep|] == s[j..][..|sep|];
        ContainsAt(a, sep, j);
      } else {
        var d := |a| - j;
        var here, inSep := s[j..][d], sep[d];
        assert here == sep[0] != inSep;
        assert HasPrefix(s[j..], sep) ==> here == inSep;
      }
    }
    ContainsAt(s, sep, |a|);
    IndexOfFirst(s, sep);
    var i := IndexOf(s, sep);
    assert i <= |a|;
    assert i >= |a|;
  }

  /**
   * The converse of `SplitTwo`: two separator-free pieces joined by the
   * separator split back into those pieces, when the separator's first
   * character does not recur inside it.
   */
  lemma SplitJoin(a: string, sep: string, b: string)
    requires |sep| > 0 && !Contains(a, sep) && !Contains(b, sep)
    requires forall d :: 0 < d < |sep| ==> sep[d] != sep[0]
    ensures Split(a + sep + b, sep) == [a, b]
  {
    var s := a + sep + b;
    var after := |a| + |sep|;
    FirstOccurrence(a, sep, b);
    assert s[after..] == b;
    NoneFrom(s, sep, after);
    assert SplitFrom(s, sep, after) == [b];
    assert s[0..|a|] == a;
  }
}
