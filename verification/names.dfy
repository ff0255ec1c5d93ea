/** String operations behind the output-file name: Python's `str.replace`
    and Go's `strings.Replace` with no limit, and the search for the last
    occurrence of a character that the path functions use. */
module Names {

  /** The resolution marker deleted from input names. */
  const Marker: string := "-10000px"
  /** What every output name ends in. */
  const Suffix: string := "-4k.jpg"

  /** True when `pat` occurs in `s` starting at index `i`. */
  predicate MatchAt(s: string, pat: string, i: nat) {
    i + |pat| <= |s| && s[i..i + |pat|] == pat
  }

  /** Deletes the occurrences of `pat` found by one left-to-right scan that
      skips past each match (`s.replace(pat, "")`,
      `strings.Replace(s, pat, "", -1)`). The only pattern used is the
      non-empty `-10000px`. */
  function RemoveAll(s: string, pat: string): (r: string)
    requires pat != []
    ensures |r| <= |s|
    decreases |s|
  {
    if |s| < |pat| then s
    else if s[..|pat|] == pat then RemoveAll(s[|pat|..], pat)
    else [s[0]] + RemoveAll(s[1..], pat)
  }

  /** A match in the tail of `s` is a match in `s`, one index later. */
  lemma MatchInTail(s: string, pat: string, i: nat)
    requires s != []
    ensures MatchAt(s[1..], pat, i) <==> MatchAt(s, pat, i + 1)
  {
    if i + 1 + |pat| <= |s| {
      assert s[1..][i..i + |pat|] == s[i + 1..i + 1 + |pat|];
    }
  }

  /** Deleting the pattern distributes over a concatenation whose first
      part holds the start of no match. */
  lemma {:induction false} RemoveAllConcat(a: string, b: string, pat: string)
    requires pat != []
    requires forall i | 0 <= i < |a| :: !MatchAt(a + b, pat, i)
    ensures RemoveAll(a + b, pat) == a + RemoveAll(b, pat)
    decreases |a|
  {
    if a == [] {
      assert a + b == b;
    } else {
      var s := a + b;
      assert s[1..] == a[1..] + b;
      RemoveAllSkipsHead(s, pat);
      forall i | 0 <= i < |a| - 1
        ensures !MatchAt(a[1..] + b, pat, i)
      {
        MatchInTail(s, pat, i);
      }
      RemoveAllConcat(a[1..], b, pat);
      assert s[0] == a[0];
      assert [a[0]] + (a[1..] + RemoveAll(b, pat)) == a + RemoveAll(b, pat);
    }
  }

  /** A first character that starts no match is kept, and the scan goes on
      from the next one. */
  lemma RemoveAllSkipsHead(s: string, pat: string)
    requires pat != [] && s != [] && !MatchAt(s, pat, 0)
    ensures RemoveAll(s, pat) == [s[0]] + RemoveAll(s[1..], pat)
  {
    if |s| < |pat| {
      NoMatchShort(s[1..], pat);
      assert [s[0]] + s[1..] == s;
    }
  }

  /** The scan keeps everything before the leftmost match, drops the match,
      and carries on after it. */
  lemma RemoveAllAtLeftmost(s: string, pat: string, k: nat)
    requires pat != []
    requires MatchAt(s, pat, k)
    requires forall i | 0 <= i < k :: !MatchAt(s, pat, i)
    ensures RemoveAll(s, pat) == s[..k] + RemoveAll(s[k + |pat|..], pat)
  {
    assert s == s[..k] + s[k..];
    RemoveAllConcat(s[..k], s[k..], pat);
    var t := s[k..];
    assert t[..|pat|] == pat;
    assert t[|pat|..] == s[k + |pat|..];
  }

  /** A string without the pattern comes out unchanged. */
  lemma RemoveAllWithoutMatch(s: string, pat: string)
    requires pat != []
    requires forall i | 0 <= i < |s| :: !MatchAt(s, pat, i)
    ensures RemoveAll(s, pat) == s
  {
    assert s + [] == s;
    RemoveAllConcat(s, [], pat);
  }

  /** The example stem loses its one marker. */
  lemma PortraitMarkerRemoved()
    ensures RemoveAll("portrait-10000px", Marker) == "portrait"
  {
    var stem := "portrait-10000px";
    assert stem[8..16] == Marker;
    forall i | 0 <= i < 8
      ensures !MatchAt(stem, Marker, i)
    {
      assert stem[i] != '-';
      assert i + |Marker| <= |stem| ==> stem[i..i + |Marker|][0] == stem[i];
    }
    RemoveAllAtLeftmost(stem, Marker, 8);
    assert stem[16..] == [];
  }

  /** Deletion adds no character: one absent from `s` is absent from the
      result. */
  lemma {:induction false} RemoveAllKeepsAbsent(s: string, pat: string, c: char)
    requires pat != []
    requires forall i | 0 <= i < |s| :: s[i] != c
    ensures forall i | 0 <= i < |RemoveAll(s, pat)| :: RemoveAll(s, pat)[i] != c
    decreases |s|
  {
    if |s| < |pat| {
    } else if s[..|pat|] == pat {
      RemoveAllKeepsAbsent(s[|pat|..], pat, c);
    } else {
      RemoveAllKeepsAbsent(s[1..], pat, c);
    }
  }

  lemma SuffixHasNoSlash()
    ensures forall i | 0 <= i < |Suffix| :: Suffix[i] != '/'
  {
  }

  /** A character absent from both parts is absent from their
      concatenation. */
  lemma Appended(a: string, b: string, c: char)
    requires forall i | 0 <= i < |a| :: a[i] != c
    requires forall i | 0 <= i < |b| :: b[i] != c
    ensures forall i | 0 <= i < |a + b| :: (a + b)[i] != c
  {
  }

  lemma NoMatchShort(b: string, pat: string)
    requires pat != [] && |b| < |pat|
    ensures RemoveAll(b, pat) == b
  {
  }

  /** The index of the last `c` in `s`, or -1 when `s` has none. */
  function LastIndexOf(s: string, c: char): (r: int)
    ensures -1 <= r < |s|
    ensures r >= 0 ==> s[r] == c
    ensures forall i | r < i < |s| :: s[i] != c
  {
    if s == [] then -1
    else if s[|s| - 1] == c then |s| - 1
    else LastIndexOf(s[..|s| - 1], c)
  }

  /** The last occurrence is the index of a `c` with no `c` after it. */
  lemma LastIndexOfAt(s: string, c: char, k: nat)
    requires k < |s| && s[k] == c
    requires forall i | k < i < |s| :: s[i] != c
    ensures LastIndexOf(s, c) == k
  {
  }

  /** A string without `c` has no last occurrence. */
  lemma LastIndexOfNone(s: string, c: char)
    requires forall i | 0 <= i < |s| :: s[i] != c
    ensures LastIndexOf(s, c) == -1
  {
  }
}
