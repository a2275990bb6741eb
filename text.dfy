/**
 String helpers shared by the ingestion pipeline, the chat front end and the folder loader:
 whitespace stripping as Python's `str.strip()` does it, lower-casing for the file-name
 filter, suffix tests, and concatenation of page texts with no separator.
 */
module Text {

  /** The code points Python's `str.isspace()` accepts, which are the ones `str.strip()` removes. */
  const Whitespace: set<char> := {
    '\t', '\n', '\U{B}', '\U{C}', '\r', '\U{1C}', '\U{1D}', '\U{1E}', '\U{1F}', ' ',
    '\U{85}', '\U{A0}', '\U{1680}',
    '\U{2000}', '\U{2001}', '\U{2002}', '\U{2003}', '\U{2004}', '\U{2005}',
    '\U{2006}', '\U{2007}', '\U{2008}', '\U{2009}', '\U{200A}',
    '\U{2028}', '\U{2029}', '\U{202F}', '\U{205F}', '\U{3000}'
  }

  /** Whether `str.strip()` removes `c`. */
  predicate IsSpace(c: char)
  {
    c in Whitespace
  }

  /** True when every character of `s` is whitespace (vacuously for the empty string). */
  ghost predicate AllSpace(s: string)
  {
    forall i :: 0 <= i < |s| ==> IsSpace(s[i])
  }

  /** How many whitespace characters `s` starts with. */
  function LeadingSpaces(s: string): (n: nat)
    ensures n <= |s|
    ensures n < |s| ==> !IsSpace(s[n])
  {
    if s != [] && IsSpace(s[0]) then 1 + LeadingSpaces(s[1..]) else 0
  }

  /** How many whitespace characters `s` ends with. */
  function TrailingSpaces(s: string): (n: nat)
    ensures n <= |s|
    ensures n < |s| ==> !IsSpace(s[|s| - 1 - n])
  {
    if s != [] && IsSpace(s[|s| - 1]) then 1 + TrailingSpaces(s[..|s| - 1]) else 0
  }

  /** The leading run counted by `LeadingSpaces` is whitespace throughout. */
  lemma {:induction false} LeadingSpacesAreSpace(s: string)
    ensures AllSpace(s[..LeadingSpaces(s)])
  {
    if s != [] && IsSpace(s[0]) {
      LeadingSpacesAreSpace(s[1..]);
      forall i | 0 <= i < LeadingSpaces(s) ensures IsSpace(s[..LeadingSpaces(s)][i]) {
        if i > 0 {
          assert s[..LeadingSpaces(s)][i] == s[1..][..LeadingSpaces(s[1..])][i - 1];
        }
      }
    }
  }

  /** The trailing run counted by `TrailingSpaces` is whitespace throughout. */
  lemma {:induction false} TrailingSpacesAreSpace(s: string)
    ensures AllSpace(s[|s| - TrailingSpaces(s)..])
  {
    if s != [] && IsSpace(s[|s| - 1]) {
      var front := s[..|s| - 1];
      TrailingSpacesAreSpace(front);
      var n := TrailingSpaces(s);
      var tail, tail' := s[|s| - n..], front[|front| - (n - 1)..];
      forall i | 0 <= i < n ensures IsSpace(tail[i]) {
        if i < n - 1 {
          assert tail[i] == tail'[i];
        }
      }
    }
  }

  /** Python's `s.strip()`: what is left once whitespace is cut from both ends. */
  function Strip(s: string): (r: string)
    ensures |r| <= |s|
    ensures r != [] ==> !IsSpace(r[0]) && !IsSpace(r[|r| - 1])
  {
    var t := s[LeadingSpaces(s)..];
    t[..|t| - TrailingSpaces(t)]
  }

  /**
   The stripped text is the infix of `s` that starts after the leading whitespace, and what
   lies outside it on either side is whitespace only.
   */
  lemma StripInfix(s: string)
    ensures LeadingSpaces(s) + |Strip(s)| <= |s|
    ensures Strip(s) == s[LeadingSpaces(s)..LeadingSpaces(s) + |Strip(s)|]
    ensures AllSpace(s[..LeadingSpaces(s)]) && AllSpace(s[LeadingSpaces(s) + |Strip(s)|..])
  {
    var k := LeadingSpaces(s);
    var t := s[k..];
    var n := |t| - TrailingSpaces(t);
    assert Strip(s) == s[k..k + n] by {
      assert Strip(s) == t[..n];
    }
    assert AllSpace(s[..k]) by {
      LeadingSpacesAreSpace(s);
    }
    assert AllSpace(s[k + n..]) by {
      TrailingSpacesAreSpace(t);
      assert s[k + n..] == t[n..];
    }
  }

  /** Two whitespace-only texts make a whitespace-only text. */
  lemma AllSpaceConcat(a: string, b: string)
    requires AllSpace(a) && AllSpace(b)
    ensures AllSpace(a + b)
  {
    forall i | 0 <= i < |a + b| ensures IsSpace((a + b)[i]) {
      if i >= |a| {
        assert (a + b)[i] == b[i - |a|];
      }
    }
  }

  /** A whitespace-only text is leading whitespace from end to end. */
  lemma {:induction false} LeadingSpacesOfAllSpace(s: string)
    requires AllSpace(s)
    ensures LeadingSpaces(s) == |s|
  {
    if s != [] {
      assert IsSpace(s[0]);
      assert AllSpace(s[1..]) by {
        forall i | 0 <= i < |s[1..]| ensures IsSpace(s[1..][i]) {
          assert s[1..][i] == s[i + 1];
        }
      }
      LeadingSpacesOfAllSpace(s[1..]);
    }
  }

  /** Stripping leaves nothing exactly when the text is whitespace only. */
  lemma StripEmpty(s: string)
    ensures Strip(s) == [] <==> AllSpace(s)
  {
    var k := LeadingSpaces(s);
    var t := s[k..];
    var n := |t| - TrailingSpaces(t);
    assert Strip(s) == t[..n];
    if Strip(s) == [] {
      assert n == 0;
      TrailingSpacesAreSpace(t);
      assert t[|t| - TrailingSpaces(t)..] == t;
      LeadingSpacesAreSpace(s);
      assert s == s[..k] + t;
      AllSpaceConcat(s[..k], t);
    }
    if AllSpace(s) {
      LeadingSpacesOfAllSpace(s);
      assert t == [];
    }
  }

  /** A text that neither starts nor ends with whitespace is left as it is. */
  lemma StripUnpadded(s: string)
    requires s != [] && !IsSpace(s[0]) && !IsSpace(s[|s| - 1])
    ensures Strip(s) == s
  {
  }

  /** Stripping twice is the same as stripping once. */
  lemma StripIdempotent(s: string)
    ensures Strip(Strip(s)) == Strip(s)
  {
  }

  /**
   ASCII upper-case letters map to lower case, every other character to itself: the result is
   never an ASCII capital, and it is an ASCII lower-case letter exactly when `c` is an ASCII letter.
   */
  function LowerChar(c: char): (d: char)
    ensures !('A' <= d <= 'Z')
    ensures ('a' <= d <= 'z') <==> ('A' <= c <= 'Z' || 'a' <= c <= 'z')
  {
    if 'A' <= c <= 'Z' then (c as int + 32) as char else c
  }

  /**
   Python's `s.lower()` restricted to ASCII letters: the length never changes, no ASCII capital
   is left, and every character that is not an ASCII letter stays where it was.
   */
  function Lower(s: string): (r: string)
    ensures |r| == |s|
    ensures forall i :: 0 <= i < |s| ==> r[i] == LowerChar(s[i])
    ensures forall i :: 0 <= i < |r| ==> !('A' <= r[i] <= 'Z')
    ensures forall i :: 0 <= i < |s| && !('A' <= s[i] <= 'Z') && !('a' <= s[i] <= 'z') ==> r[i] == s[i]
  {
    seq(|s|, i requires 0 <= i < |s| => LowerChar(s[i]))
  }

  /** Lower-casing an already lower-cased string changes nothing. */
  lemma LowerIdempotent(s: string)
    ensures Lower(Lower(s)) == Lower(s)
  {
    var low := Lower(s);
    assert forall i :: 0 <= i < |low| ==> Lower(low)[i] == low[i];
  }

  /** Two strings that differ only in the case of ASCII letters lower to the same string. */
  lemma LowerIgnoresCase(s: string, t: string)
    requires |s| == |t|
    requires forall i :: 0 <= i < |s| ==>
      || s[i] == t[i]
      || ('A' <= s[i] <= 'Z' && t[i] as int == s[i] as int + 32)
      || ('A' <= t[i] <= 'Z' && s[i] as int == t[i] as int + 32)
    ensures Lower(s) == Lower(t)
  {
    forall i | 0 <= i < |s| ensures Lower(s)[i] == Lower(t)[i] {
      if s[i] != t[i] && 'A' <= s[i] <= 'Z' && t[i] as int == s[i] as int + 32 {
        assert LowerChar(s[i]) as int == t[i] as int;
      }
    }
  }

  /** Python's `s.endswith(suffix)`. */
  predicate EndsWith(s: string, suffix: string)
  {
    |suffix| <= |s| && s[|s| - |suffix|..] == suffix
  }

  /** Total number of characters in a sequence of strings. */
  function SumLengths(parts: seq<string>): nat
  {
    if parts == [] then 0 else SumLengths(parts[..|parts| - 1]) + |parts[|parts| - 1]|
  }

  /**
   `"".join(parts)`: the parts one after another with no separator. Defined from the last part
   backwards, the way an accumulator `acc += part` builds it.
   */
  function Join(parts: seq<string>): string
  {
    if parts == [] then "" else Join(parts[..|parts| - 1]) + parts[|parts| - 1]
  }

  /** Joining two runs of parts is the concatenation of their joins. */
  lemma {:induction false} JoinAppend(a: seq<string>, b: seq<string>)
    ensures Join(a + b) == Join(a) + Join(b)
  {
    if b == [] {
      assert a + b == a;
    } else {
      var b' := b[..|b| - 1];
      assert (a + b)[..|a + b| - 1] == a + b';
      JoinAppend(a, b');
    }
  }

  /** The joined string is exactly as long as all its parts together. */
  lemma {:induction false} JoinLength(parts: seq<string>)
    ensures |Join(parts)| == SumLengths(parts)
  {
    if parts != [] {
      JoinLength(parts[..|parts| - 1]);
    }
  }

  /** Part `k` sits in the joined string right after the characters of parts `0..k`. */
  lemma JoinAt(parts: seq<string>, k: nat)
    requires k < |parts|
    ensures SumLengths(parts[..k]) + |parts[k]| <= |Join(parts)|
    ensures Join(parts)[SumLengths(parts[..k])..SumLengths(parts[..k]) + |parts[k]|] == parts[k]
  {
    var pre, post := parts[..k], parts[k + 1..];
    assert parts == pre + [parts[k]] + post;
    JoinAppend(pre + [parts[k]], post);
    JoinAppend(pre, [parts[k]]);
    assert Join([parts[k]]) == parts[k] by {
      assert [parts[k]][..0] == [];
    }
    JoinLength(pre);
  }

}
