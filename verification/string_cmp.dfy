/**
 * The key order of a pfs `ChannelMap`: `string_cmp` is `s1.compare(s2) < 0`,
 * the plain lexicographic order of `std::string`.  A character of the string
 * stands for one byte; comparing code points is comparing the bytes as
 * unsigned values, which is what `std::char_traits<char>` does.
 */
module StringCmp {

  /**
   * Sign of `s1.compare(s2)`: the first differing character decides, and when
   * one string is a prefix of the other the shorter one is smaller.  The real
   * `compare` may return any negative or positive int; only its sign is used.
   */
  function Compare(s1: string, s2: string): (r: int)
    ensures -1 <= r <= 1
    ensures r == 0 <==> s1 == s2
  {
    if |s1| == 0 && |s2| == 0 then 0
    else if |s1| == 0 then -1
    else if |s2| == 0 then 1
    else if s1[0] < s2[0] then -1
    else if s2[0] < s1[0] then 1
    else
      var r := Compare(s1[1..], s2[1..]);
      assert r == 0 ==> s1 == s2 by {
        if r == 0 { assert s1 == [s1[0]] + s1[1..] && s2 == [s2[0]] + s2[1..]; }
      }
      assert s1 == s2 ==> s1[1..] == s2[1..];
      r
  }

  /** `string_cmp::operator()`: the strict "less than" of the channel map. */
  predicate Less(s1: string, s2: string)
  {
    Compare(s1, s2) < 0
  }

  /** `s1` is a proper prefix of `s2`. */
  ghost predicate ProperPrefix(s1: string, s2: string)
  {
    |s1| < |s2| && s1 == s2[..|s1|]
  }

  /** `s1` and `s2` agree before position `k` and `s1` is smaller at `k`. */
  ghost predicate SmallerAt(s1: string, s2: string, k: nat)
  {
    k < |s1| && k < |s2| && s1[..k] == s2[..k] && s1[k] < s2[k]
  }

  /**
   * Independent characterisation of the same order: `s1` is a proper prefix
   * of `s2`, or at the first position where they differ `s1` has the smaller
   * character.
   */
  ghost predicate LexLess(s1: string, s2: string)
  {
    ProperPrefix(s1, s2) || exists k: nat :: SmallerAt(s1, s2, k)
  }

  lemma ProperPrefixTail(s1: string, s2: string)
    requires |s1| > 0 && |s2| > 0 && s1[0] == s2[0]
    ensures ProperPrefix(s1, s2) <==> ProperPrefix(s1[1..], s2[1..])
  {
    if |s1| < |s2| {
      assert s1 == [s1[0]] + s1[1..];
      assert s2[..|s1|] == [s2[0]] + s2[1..][..|s1| - 1];
    }
  }

  lemma SmallerAtTail(s1: string, s2: string)
    requires |s1| > 0 && |s2| > 0 && s1[0] == s2[0]
    ensures (exists k: nat :: SmallerAt(s1, s2, k)) <==> (exists k: nat :: SmallerAt(s1[1..], s2[1..], k))
  {
    var t1, t2 := s1[1..], s2[1..];
    if k: nat :| SmallerAt(s1, s2, k) {
      assert k != 0;
      assert t1[..k - 1] == s1[1..k] && t2[..k - 1] == s2[1..k];
      assert SmallerAt(t1, t2, k - 1);
    }
    if k: nat :| SmallerAt(t1, t2, k) {
      assert s1[..k + 1] == [s1[0]] + t1[..k] && s2[..k + 1] == [s2[0]] + t2[..k];
      assert SmallerAt(s1, s2, k + 1);
    }
  }

  /** `Less` agrees with the prefix-or-first-difference reading, both ways. */
  lemma {:induction false} LessIsLexLess(s1: string, s2: string)
    ensures Less(s1, s2) <==> LexLess(s1, s2)
    decreases |s1|
  {
    if |s1| == 0 || |s2| == 0 {
      if |s1| == 0 && |s2| > 0 { assert ProperPrefix(s1, s2); }
    } else if s1[0] < s2[0] {
      assert SmallerAt(s1, s2, 0);
    } else if s2[0] < s1[0] {
      assert !ProperPrefix(s1, s2);
      forall k: nat | 0 < k <= |s1| && k <= |s2|
        ensures s1[..k] != s2[..k]
      {
        assert s1[..k][0] != s2[..k][0];
      }
    } else {
      assert s1[0] == s2[0];
      LessIsLexLess(s1[1..], s2[1..]);
      ProperPrefixTail(s1, s2);
      SmallerAtTail(s1, s2);
    }
  }

  /** Swapping the operands of `compare` negates its sign. */
  lemma {:induction false} CompareAntisymmetric(s1: string, s2: string)
    ensures Compare(s1, s2) == -Compare(s2, s1)
    decreases |s1|
  {
    if |s1| > 0 && |s2| > 0 && s1[0] == s2[0] {
      CompareAntisymmetric(s1[1..], s2[1..]);
    }
  }

  /** `string_cmp` is irreflexive: no channel name sorts before itself. */
  lemma LessIrreflexive(s: string)
    ensures !Less(s, s)
  {
  }

  /** `string_cmp` is asymmetric. */
  lemma LessAsymmetric(s1: string, s2: string)
    ensures Less(s1, s2) ==> !Less(s2, s1)
  {
    CompareAntisymmetric(s1, s2);
  }

  /** Two distinct names are always ordered one way or the other. */
  lemma LessConnected(s1: string, s2: string)
    ensures s1 != s2 ==> Less(s1, s2) || Less(s2, s1)
  {
    CompareAntisymmetric(s1, s2);
  }

  /** `string_cmp` is transitive, so it is a strict weak (indeed total) order. */
  lemma {:induction false} LessTransitive(s1: string, s2: string, s3: string)
    requires Less(s1, s2) && Less(s2, s3)
    ensures Less(s1, s3)
    decreases |s1|
  {
    if |s1| > 0 && |s2| > 0 && |s3| > 0 && s1[0] == s2[0] == s3[0] {
      LessTransitive(s1[1..], s2[1..], s3[1..]);
    }
  }
}
