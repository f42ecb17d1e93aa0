/** The substring helpers of cmd/main_test.go. */
module MainTest {
  import opened Text

  /** containsSubstring: scan every start index for an occurrence. */
  method ContainsSubstring(s: string, sub: string) returns (b: bool)
    ensures b <==> Occurs(s, sub)
  {
    var i := 0;
    while i <= |s| - |sub|
      invariant 0 <= i
      invariant forall j :: 0 <= j < i ==> !OccursAt(s, sub, j)
      decreases |s| - |sub| - i
    {
      if s[i..i + |sub|] == sub {
        assert OccursAt(s, sub, i);
        return true;
      }
      i := i + 1;
    }
    assert forall j :: OccursAt(s, sub, j) ==> j <= |s| - |sub|;
    return false;
  }

  /**
   * contains: a length check, equality, a prefix test and a suffix test, and
   * only then the scan. It means the same as the scan on its own.
   */
  method Contains(s: string, sub: string) returns (b: bool)
    ensures b <==> Occurs(s, sub)
  {
    if |s| < |sub| {
      NoRoom(s, sub);
      return false;
    }
    if s == sub {
      assert OccursAt(s, sub, 0);
      return true;
    }
    if |s| == |sub| {
      NoRoom(s, sub);
      return false;
    }
    if s[..|sub|] == sub {
      assert OccursAt(s, sub, 0);
      return true;
    }
    if s[|s| - |sub|..] == sub {
      assert OccursAt(s, sub, |s| - |sub|);
      return true;
    }
    b := ContainsSubstring(s, sub);
  }

  /** A string too short for `sub`, or as long as it and different, does not contain it. */
  lemma NoRoom(s: string, sub: string)
    requires |s| < |sub| || (|s| == |sub| && s != sub)
    ensures !Occurs(s, sub)
  {
    if |s| == |sub| {
      assert s[0..|sub|] == s;
    }
  }

  /** Every string contains itself and the empty string. */
  lemma ContainsSelfAndEmpty(s: string)
    ensures Occurs(s, s)
    ensures Occurs(s, [])
  {
    assert OccursAt(s, s, 0);
    assert OccursAt(s, [], 0);
  }
}
