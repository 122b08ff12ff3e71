/**
 * The two string tests the site configuration relies on, stated over
 * `seq<char>`: JavaScript's `String.prototype.includes` (substring search)
 * and the prefix test used to describe the sitemap's exclusion pattern.
 */
module Text {

  /** `p` is a prefix of `s`. */
  predicate IsPrefix(p: string, s: string)
  {
    |p| <= |s| && s[..|p|] == p
  }

  /**
   * `s.includes(sub)`: `sub` occurs in `s` at some position. Written as the
   * left-to-right scan the JavaScript algorithm performs; `OccursAt` below is
   * the index-based reference definition.
   */
  predicate Includes(s: string, sub: string)
    decreases |s|
  {
    IsPrefix(sub, s) || (|s| > 0 && Includes(s[1..], sub))
  }

  /** `sub` occurs in `s` starting at index `i`. */
  predicate OccursAt(s: string, sub: string, i: int)
  {
    0 <= i && i + |sub| <= |s| && s[i..i + |sub|] == sub
  }

  /** The scan finds `sub` exactly when some index holds an occurrence. */
  lemma {:induction false} IncludesIffOccurs(s: string, sub: string)
    ensures Includes(s, sub) <==> exists i :: OccursAt(s, sub, i)
    decreases |s|
  {
    if IsPrefix(sub, s) {
      assert OccursAt(s, sub, 0);
    } else if |s| == 0 {
      assert forall i :: !OccursAt(s, sub, i);
    } else {
      IncludesIffOccurs(s[1..], sub);
      if Includes(s[1..], sub) {
        var i :| OccursAt(s[1..], sub, i);
        assert s[1..][i..i + |sub|] == s[i + 1..i + 1 + |sub|];
        assert OccursAt(s, sub, i + 1);
      } else {
        forall i | 0 < i
          ensures !OccursAt(s, sub, i)
        {
          if i + |sub| <= |s| {
            assert s[1..][i - 1..i - 1 + |sub|] == s[i..i + |sub|];
            assert !OccursAt(s[1..], sub, i - 1);
          }
        }
        assert !OccursAt(s, sub, 0);
      }
    }
  }

  /** A string never includes a longer one. */
  lemma {:induction false} IncludesNoLonger(s: string, sub: string)
    ensures Includes(s, sub) ==> |sub| <= |s|
    decreases |s|
  {
    if !IsPrefix(sub, s) && |s| > 0 {
      IncludesNoLonger(s[1..], sub);
    }
  }

  /**
   * Every occurrence of `sub` in `s` contains `sub[j]`; so when no character
   * of `s` equals `sub[j]`, `s` does not include `sub`.
   */
  lemma IncludesNeedsChar(s: string, sub: string, j: nat)
    requires j < |sub|
    requires forall k :: 0 <= k < |s| ==> s[k] != sub[j]
    ensures !Includes(s, sub)
  {
    forall i | 0 <= i && i + |sub| <= |s|
      ensures !OccursAt(s, sub, i)
    {
      assert s[i..i + |sub|][j] == s[i + j];
    }
    IncludesIffOccurs(s, sub);
  }
}
