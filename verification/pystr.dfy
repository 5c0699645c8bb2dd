/** Models of the Python `str` operations that the trivia pipeline relies on.
    Each function follows the CPython semantics for the arguments the pipeline
    passes; case mapping covers ASCII letters only. */
module PyStr {

  /** `c.isspace()`: the characters `str.strip()` removes. */
  predicate IsSpace(c: char)
  {
    var n := c as int;
    n == 0x20 || (0x09 <= n <= 0x0D) || (0x1C <= n <= 0x1F) || n == 0x85 || n == 0xA0
    || n == 0x1680 || (0x2000 <= n <= 0x200A) || n == 0x2028 || n == 0x2029
    || n == 0x202F || n == 0x205F || n == 0x3000
  }

  function LowerChar(c: char): char
  {
    if 'A' <= c <= 'Z' then (c as int + 32) as char else c
  }

  function UpperChar(c: char): char
  {
    if 'a' <= c <= 'z' then (c as int - 32) as char else c
  }

  /** `s.lower()` */
  function Lower(s: string): string
  {
    seq(|s|, i requires 0 <= i < |s| => LowerChar(s[i]))
  }

  /** `s.upper()` */
  function Upper(s: string): string
  {
    seq(|s|, i requires 0 <= i < |s| => UpperChar(s[i]))
  }

  /** `s.capitalize()`: the first character upper-cased, every later one lower-cased. */
  function Capitalize(s: string): string
  {
    if s == [] then [] else [UpperChar(s[0])] + Lower(s[1..])
  }

  /** `s.startswith(p)` */
  predicate StartsWith(s: string, p: string)
  {
    |p| <= |s| && s[..|p|] == p
  }

  /** `s.endswith(p)` */
  predicate EndsWith(s: string, p: string)
  {
    |p| <= |s| && s[|s| - |p|..] == p
  }

  /** `p` occurs in `s` starting at index `i`. */
  predicate OccursAt(s: string, p: string, i: int)
  {
    0 <= i && i + |p| <= |s| && s[i..i + |p|] == p
  }

  /** `s.find(p)`: the index of the leftmost occurrence of `p`, or -1
      (leftmost: `FindIsLeftmost`). */
  function Find(s: string, p: string): (i: int)
    ensures i == -1 || OccursAt(s, p, i)
    decreases |s|
  {
    if |s| < |p| then -1
    else if s[..|p|] == p then 0
    else
      var k := Find(s[1..], p);
      if k == -1 then -1
      else
        assert s[1..][k..k + |p|] == s[k + 1..k + 1 + |p|];
        k + 1
  }

  /** `s[1..]` holds the occurrences of `s` at positions one further on. */
  lemma OccursShift(s: string, p: string, j: int)
    requires s != [] && 1 <= j
    ensures OccursAt(s, p, j) <==> OccursAt(s[1..], p, j - 1)
  {
    if j + |p| <= |s| {
      assert s[1..][j - 1..j - 1 + |p|] == s[j..j + |p|];
    }
  }

  /** No occurrence lies before the one `Find` reports, and there is none
      at all when it reports -1. */
  lemma {:induction false} FindIsLeftmost(s: string, p: string, j: int)
    requires 0 <= j && (Find(s, p) == -1 || j < Find(s, p))
    ensures !OccursAt(s, p, j)
    decreases |s|
  {
    if |s| >= |p| && s[..|p|] != p {
      if j == 0 {
        assert s[0..|p|] == s[..|p|];
      } else {
        OccursShift(s, p, j);
        FindIsLeftmost(s[1..], p, j - 1);
      }
    }
  }

  /** `p in s` */
  predicate Contains(s: string, p: string)
  {
    Find(s, p) >= 0
  }

  /** `s.replace(p, n, 1)`: only the leftmost occurrence, the one `s.find(p)`
      reports, is replaced; an empty `p` is found at the very start, so `n`
      is prepended. */
  function ReplaceFirst(s: string, p: string, n: string): string
  {
    var i := Find(s, p);
    if i < 0 then s else s[..i] + n + s[i + |p|..]
  }

  /** `s.replace(p, n)` for a non-empty `p`: a left-to-right scan replacing
      every non-overlapping occurrence. */
  function ReplaceAll(s: string, p: string, n: string): string
    requires |p| > 0
    decreases |s|
  {
    if |s| < |p| then s
    else if s[..|p|] == p then n + ReplaceAll(s[|p|..], p, n)
    else [s[0]] + ReplaceAll(s[1..], p, n)
  }

  /** `s.split(sep)` for a non-empty `sep`: never empty, keeps empty parts. */
  function Split(s: string, sep: string): (parts: seq<string>)
    requires |sep| > 0
    ensures |parts| >= 1
    decreases |s|
  {
    if |s| < |sep| then [s]
    else if s[..|sep|] == sep then [""] + Split(s[|sep|..], sep)
    else
      var rest := Split(s[1..], sep);
      [[s[0]] + rest[0]] + rest[1..]
  }

  /** `sep.join(parts)` */
  function Join(parts: seq<string>, sep: string): string
  {
    if |parts| == 0 then ""
    else if |parts| == 1 then parts[0]
    else parts[0] + sep + Join(parts[1..], sep)
  }

  /** `s.lstrip()`: the suffix of `s` left after its leading whitespace. */
  function LStrip(s: string): (r: string)
    ensures |r| <= |s| && r == s[|s| - |r|..]
    ensures r != [] ==> !IsSpace(r[0])
    ensures forall k :: 0 <= k < |s| - |r| ==> IsSpace(s[k])
    decreases |s|
  {
    if s != [] && IsSpace(s[0]) then LStrip(s[1..]) else s
  }

  /** `s.rstrip()`: the prefix of `s` left before its trailing whitespace. */
  function RStrip(s: string): (r: string)
    ensures |r| <= |s| && r == s[..|r|]
    ensures r != [] ==> !IsSpace(r[|r| - 1])
    ensures forall k :: |r| <= k < |s| ==> IsSpace(s[k])
    decreases |s|
  {
    if s != [] && IsSpace(s[|s| - 1]) then RStrip(s[..|s| - 1]) else s
  }

  /** `s.strip()` */
  function Strip(s: string): string
  {
    RStrip(LStrip(s))
  }

  /** The index of the last `c` in `s`, or -1. */
  function LastIndexOf(s: string, c: char): (i: int)
    ensures -1 <= i < |s|
    ensures i >= 0 ==> s[i] == c
    ensures forall j :: i < j < |s| ==> s[j] != c
    decreases |s|
  {
    if s == [] then -1
    else if s[|s| - 1] == c then |s| - 1
    else LastIndexOf(s[..|s| - 1], c)
  }

  /** `s.rsplit(c, 1)[0]`: everything before the last `c`, or `s` when there is none. */
  function RSplitHead(s: string, c: char): (r: string)
    ensures s != [] && s[|s| - 1] == c ==> r == s[..|s| - 1]
    ensures LastIndexOf(s, c) == -1 ==> r == s
  {
    var i := LastIndexOf(s, c);
    if i < 0 then s else s[..i]
  }

  // ---------------------------------------------------------------------------
  // Properties of the helpers

  /** A stripped string has no whitespace at either end, and stripping again
      changes nothing. */
  lemma StripSpec(s: string)
    ensures Strip(s) != [] ==> !IsSpace(Strip(s)[0]) && !IsSpace(Strip(s)[|Strip(s)| - 1])
    ensures Strip(Strip(s)) == Strip(s)
  {
    var l := LStrip(s);
    var r := RStrip(l);
    if r != [] {
      assert r[0] == l[0];
      assert LStrip(r) == r;
      assert RStrip(r) == r;
    }
  }

  /** Stripping keeps a prefix whose first and last characters are not whitespace. */
  lemma StripKeepsPrefix(s: string, w: string)
    requires StartsWith(s, w) && w != []
    requires !IsSpace(w[0]) && !IsSpace(w[|w| - 1])
    ensures StartsWith(Strip(s), w)
  {
    assert LStrip(s) == s;
  }

  /** `s.upper()` is idempotent and ignores an earlier `lower()` or `capitalize()`. */
  lemma UpperLaws(s: string)
    ensures Upper(Upper(s)) == Upper(s)
    ensures Upper(Lower(s)) == Upper(s)
    ensures Upper(Capitalize(s)) == Upper(s)
  {
    if s != [] {
      assert Upper(Capitalize(s)) == [UpperChar(s[0])] + Upper(Lower(s[1..]));
      assert Upper(s) == [UpperChar(s[0])] + Upper(s[1..]);
    }
  }

  /** `lower()` maps every upper-case ASCII letter to its lower-case
      counterpart and keeps every other character; `upper()` is its mirror
      image; `capitalize()` leaves no lower-case letter in front and no
      upper-case letter after it, and differs from its argument only in case. */
  lemma CaseMappingSpec(s: string)
    ensures |Lower(s)| == |s| && |Upper(s)| == |s| && |Capitalize(s)| == |s|
    ensures forall i :: 0 <= i < |s| ==>
      && !('A' <= Lower(s)[i] <= 'Z')
      && (Lower(s)[i] == s[i] || ('A' <= s[i] <= 'Z' && Lower(s)[i] as int == s[i] as int + 32))
    ensures forall i :: 0 <= i < |s| ==>
      && !('a' <= Upper(s)[i] <= 'z')
      && (Upper(s)[i] == s[i] || ('a' <= s[i] <= 'z' && Upper(s)[i] as int == s[i] as int - 32))
    ensures s != [] ==> !('a' <= Capitalize(s)[0] <= 'z')
    ensures forall i :: 1 <= i < |s| ==> !('A' <= Capitalize(s)[i] <= 'Z')
    ensures Lower(Capitalize(s)) == Lower(s)
  {
    if s != [] {
      assert Lower(Capitalize(s)) == [LowerChar(UpperChar(s[0]))] + Lower(Lower(s[1..]));
      assert Lower(s) == [LowerChar(s[0])] + Lower(s[1..]);
    }
  }

  lemma LowerAppend(a: string, b: string)
    ensures Lower(a + b) == Lower(a) + Lower(b)
  {
  }

  /** Lower-casing changes no character into or out of whitespace, so it
      commutes with stripping. */
  lemma {:induction false} LowerLStrip(s: string)
    ensures Lower(LStrip(s)) == LStrip(Lower(s))
    decreases |s|
  {
    if s != [] {
      assert Lower(s)[0] == LowerChar(s[0]);
      assert IsSpace(Lower(s)[0]) == IsSpace(s[0]);
      if IsSpace(s[0]) {
        assert Lower(s)[1..] == Lower(s[1..]);
        LowerLStrip(s[1..]);
      }
    }
  }

  lemma {:induction false} LowerRStrip(s: string)
    ensures Lower(RStrip(s)) == RStrip(Lower(s))
    decreases |s|
  {
    if s != [] {
      assert Lower(s)[..|s| - 1] == Lower(s[..|s| - 1]);
      LowerRStrip(s[..|s| - 1]);
    }
  }

  lemma LowerStrip(s: string)
    ensures Lower(Strip(s)) == Strip(Lower(s))
  {
    LowerLStrip(s);
    LowerRStrip(LStrip(s));
  }

  /** Lower-casing the first occurrence of a word in place is invisible once
      the whole string is lower-cased. */
  lemma LowerReplaceFirstLower(s: string, p: string)
    ensures Lower(ReplaceFirst(s, p, Lower(p))) == Lower(s)
  {
    var i := Find(s, p);
    if i >= 0 {
      assert s == s[..i] + p + s[i + |p|..];
      LowerAppend(s[..i] + Lower(p), s[i + |p|..]);
      LowerAppend(s[..i], Lower(p));
      LowerAppend(s[..i] + p, s[i + |p|..]);
      LowerAppend(s[..i], p);
      assert Lower(Lower(p)) == Lower(p);
    }
  }

  /** `s.replace(p, n, 1)` replaces the leftmost occurrence of `p`, and leaves
      a string without any occurrence unchanged. */
  lemma ReplaceFirstSpec(s: string, p: string, n: string, i: nat)
    requires OccursAt(s, p, i) && forall j :: 0 <= j < i ==> !OccursAt(s, p, j)
    ensures ReplaceFirst(s, p, n) == s[..i] + n + s[i + |p|..]
  {
    var f := Find(s, p);
    if f == -1 || i < f {
      FindIsLeftmost(s, p, i);
    }
  }

  lemma ReplaceFirstMissing(s: string, p: string, n: string)
    requires forall j :: 0 <= j <= |s| ==> !OccursAt(s, p, j)
    ensures ReplaceFirst(s, p, n) == s
  {
  }

  /** Deleting every occurrence of `p` adds no character and does not
      lengthen the string; deleting a single character leaves none of it. */
  lemma {:induction false} ReplaceAllDeletes(s: string, p: string)
    requires |p| > 0
    ensures |ReplaceAll(s, p, "")| <= |s|
    ensures forall d :: d in ReplaceAll(s, p, "") ==> d in s
    ensures |p| == 1 ==> p[0] !in ReplaceAll(s, p, "")
    decreases |s|
  {
    if |s| < |p| {
      if |p| == 1 {
        assert s == [];
      }
    } else if s[..|p|] == p {
      ReplaceAllDeletes(s[|p|..], p);
      assert forall d :: d in s[|p|..] ==> d in s;
    } else {
      ReplaceAllDeletes(s[1..], p);
      assert forall d :: d in s[1..] ==> d in s;
      if |p| == 1 {
        assert s[0] != p[0] by { assert s[..1] == [s[0]]; }
      }
    }
  }

  /** Replacing a pattern that does not occur changes nothing. */
  lemma {:induction false} ReplaceAllMissing(s: string, p: string, n: string)
    requires |p| > 0 && !Contains(s, p)
    ensures ReplaceAll(s, p, n) == s
    decreases |s|
  {
    if |s| >= |p| {
      FindIsLeftmost(s, p, 0);
      assert s[..|p|] == s[0..|p|];
      ReplaceAllMissing(s[1..], p, n);
      assert s == [s[0]] + s[1..];
    }
  }

  /** A pattern whose last character does not occur in `s` is not in `s`. */
  lemma MissingLastCharNotContained(s: string, p: string)
    requires |p| > 0 && p[|p| - 1] !in s
    ensures !Contains(s, p)
  {
    if Find(s, p) >= 0 {
      assert false;
    }
  }

  lemma JoinCons(c: char, parts: seq<string>, sep: string)
    requires |parts| >= 1
    ensures Join([[c] + parts[0]] + parts[1..], sep) == [c] + Join(parts, sep)
  {
    var q := [[c] + parts[0]] + parts[1..];
    if |parts| > 1 {
      assert q[1..] == parts[1..];
    }
  }

  /** Splitting and joining with the same separator gives back the string. */
  lemma {:induction false} SplitJoin(s: string, sep: string)
    requires |sep| > 0
    ensures Join(Split(s, sep), sep) == s
    decreases |s|
  {
    if |s| < |sep| {
    } else if s[..|sep|] == sep {
      var rest := Split(s[|sep|..], sep);
      SplitJoin(s[|sep|..], sep);
      assert ([""] + rest)[1..] == rest;
      assert s == s[..|sep|] + s[|sep|..];
    } else {
      var rest := Split(s[1..], sep);
      SplitJoin(s[1..], sep);
      JoinCons(s[0], rest, sep);
      assert s == [s[0]] + s[1..];
    }
  }

  /** The first part of a split is a prefix of the string. */
  lemma {:induction false} SplitHeadIsPrefix(s: string, sep: string)
    requires |sep| > 0
    ensures StartsWith(s, Split(s, sep)[0])
    decreases |s|
  {
    if |s| >= |sep| && s[..|sep|] != sep {
      SplitHeadIsPrefix(s[1..], sep);
    }
  }

  /** No part of a split holds an occurrence of the separator. */
  lemma {:induction false} SplitPartFree(s: string, sep: string, i: nat, j: int)
    requires |sep| > 0 && i < |Split(s, sep)|
    ensures !OccursAt(Split(s, sep)[i], sep, j)
    decreases |s|
  {
    var parts := Split(s, sep);
    if |s| < |sep| {
    } else if s[..|sep|] == sep {
      if i > 0 {
        var rest := Split(s[|sep|..], sep);
        assert parts[i] == rest[i - 1];
        SplitPartFree(s[|sep|..], sep, i - 1, j);
      }
    } else {
      var rest := Split(s[1..], sep);
      if i > 0 {
        assert parts[i] == rest[i];
        SplitPartFree(s[1..], sep, i, j);
      } else {
        var part := parts[0];
        assert part == [s[0]] + rest[0];
        if j == 0 {
          SplitHeadIsPrefix(s[1..], sep);
          if |sep| <= |part| {
            assert part[..|sep|] == s[..|sep|];
          }
        } else if j > 0 {
          OccursShift(part, sep, j);
          assert part[1..] == rest[0];
          SplitPartFree(s[1..], sep, 0, j - 1);
        }
      }
    }
  }

  /** `s.split(sep)` cuts at every occurrence of the separator: no part
      contains it, and joining the parts with it gives back `s`. Empty parts
      are kept, since dropping one would break the round trip. */
  lemma SplitParts(s: string, sep: string)
    requires |sep| > 0
    ensures forall i :: 0 <= i < |Split(s, sep)| ==> !Contains(Split(s, sep)[i], sep)
    ensures Join(Split(s, sep), sep) == s
  {
    forall i | 0 <= i < |Split(s, sep)|
      ensures !Contains(Split(s, sep)[i], sep)
    {
      SplitPartFree(s, sep, i, Find(Split(s, sep)[i], sep));
    }
    SplitJoin(s, sep);
  }

  /** `s.replace(p, n) == n.join(s.split(p))`: replace-all agrees with
      splitting on the pattern and joining with the replacement. */
  lemma {:induction false} ReplaceAllIsJoinOfSplit(s: string, p: string, n: string)
    requires |p| > 0
    ensures ReplaceAll(s, p, n) == Join(Split(s, p), n)
    decreases |s|
  {
    if |s| < |p| {
    } else if s[..|p|] == p {
      var rest := Split(s[|p|..], p);
      ReplaceAllIsJoinOfSplit(s[|p|..], p, n);
      assert ([""] + rest)[1..] == rest;
    } else {
      ReplaceAllIsJoinOfSplit(s[1..], p, n);
      JoinCons(s[0], Split(s[1..], p), n);
    }
  }
}
