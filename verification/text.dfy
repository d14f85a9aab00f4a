/** String predicates standing for `startsWith`, `endsWith` and `includes`. */
module Text {

  predicate StartsWith(s: string, prefix: string) {
    |prefix| <= |s| && s[..|prefix|] == prefix
  }

  predicate EndsWith(s: string, suffix: string) {
    |suffix| <= |s| && s[|s| - |suffix|..] == suffix
  }

  /** `part` occurs in `s` starting at index `i`. */
  predicate OccursAt(s: string, part: string, i: int) {
    0 <= i && i + |part| <= |s| && s[i..i + |part|] == part
  }

  /** `s.includes(part)`. */
  predicate Contains(s: string, part: string) {
    exists i | 0 <= i <= |s| - |part| :: OccursAt(s, part, i)
  }

  /** A string that lacks one of the characters of `part` cannot contain it. */
  lemma MissingCharNotContained(s: string, part: string, c: char)
    requires c in part && c !in s
    ensures !Contains(s, part)
  {
    var j :| 0 <= j < |part| && part[j] == c;
    forall i | 0 <= i <= |s| - |part|
      ensures !OccursAt(s, part, i)
    {
      assert s[i..i + |part|][j] == s[i + j];
      assert s[i + j] in s;
    }
  }

  /** An occurrence of `part` cannot straddle a character that `part` lacks, so
      it lies wholly on one side of it. */
  lemma SeparatorSplit(a: string, sep: char, b: string, part: string)
    requires sep !in part
    requires !Contains(a, part) && !Contains(b, part)
    ensures !Contains(a + [sep] + b, part)
  {
    var s := a + [sep] + b;
    forall i | 0 <= i <= |s| - |part|
      ensures !OccursAt(s, part, i)
    {
      if i + |part| <= |a| {
        assert s[i..i + |part|] == a[i..i + |part|];
        assert !OccursAt(a, part, i);
      } else if i > |a| {
        var k := i - |a| - 1;
        assert s[i..i + |part|] == b[k..k + |part|];
        assert !OccursAt(b, part, k);
      } else {
        var j := |a| - i;
        assert s[i..i + |part|][j] == sep;
        assert part[j] != sep by { assert part[j] in part; }
      }
    }
  }

  /** Stripping a prefix that is present leaves the rest of the string. */
  lemma StripPrefix(prefix: string, rest: string)
    ensures StartsWith(prefix + rest, prefix)
    ensures (prefix + rest)[|prefix|..] == rest
  {
    assert (prefix + rest)[..|prefix|] == prefix;
  }
}
