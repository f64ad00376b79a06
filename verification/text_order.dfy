/**
 * The order used to compare sort keys: lexicographic order on strings,
 * comparing characters by code point.
 */
module TextOrder {

  /** `a` sorts before `b` or is equal to it. */
  predicate LexLe(a: string, b: string)
    decreases |a|
  {
    if |a| == 0 then true
    else if |b| == 0 then false
    else if a[0] != b[0] then a[0] < b[0]
    else LexLe(a[1..], b[1..])
  }

  /**
   * The textbook definition: `a` is a prefix of `b`, or at the first position
   * where they differ `a` has the smaller character.
   */
  ghost predicate LexLeSpec(a: string, b: string) {
    || a <= b
    || exists i :: 0 <= i < |a| && i < |b| && a[..i] == b[..i] && a[i] < b[i]
  }

  lemma LexLeMatchesSpec(a: string, b: string)
    ensures LexLe(a, b) <==> LexLeSpec(a, b)
  {
    if LexLe(a, b) {
      LexLeImpliesSpec(a, b);
    }
    if LexLeSpec(a, b) {
      SpecImpliesLexLe(a, b);
    }
  }

  lemma {:induction false} LexLeImpliesSpec(a: string, b: string)
    requires LexLe(a, b)
    ensures LexLeSpec(a, b)
    decreases |a|
  {
    if |a| == 0 {
      assert a <= b;
    } else if a[0] != b[0] {
      assert a[..0] == b[..0];
    } else {
      LexLeImpliesSpec(a[1..], b[1..]);
      if a[1..] <= b[1..] {
        assert a == [a[0]] + a[1..];
        assert b == [b[0]] + b[1..];
        assert a <= b;
      } else {
        var i :| 0 <= i < |a[1..]| && i < |b[1..]| && a[1..][..i] == b[1..][..i] && a[1..][i] < b[1..][i];
        assert a[..i + 1] == [a[0]] + a[1..][..i];
        assert b[..i + 1] == [b[0]] + b[1..][..i];
        assert a[i + 1] < b[i + 1];
      }
    }
  }

  lemma {:induction false} SpecImpliesLexLe(a: string, b: string)
    requires LexLeSpec(a, b)
    ensures LexLe(a, b)
    decreases |a|
  {
    if |a| == 0 || |b| == 0 {
    } else if a <= b {
      assert a[1..] <= b[1..];
      SpecImpliesLexLe(a[1..], b[1..]);
    } else {
      var i :| 0 <= i < |a| && i < |b| && a[..i] == b[..i] && a[i] < b[i];
      if i > 0 {
        assert a[0] == a[..i][0];
        assert a[1..][..i - 1] == a[..i][1..];
        assert b[1..][..i - 1] == b[..i][1..];
        assert a[1..][i - 1] < b[1..][i - 1];
        SpecImpliesLexLe(a[1..], b[1..]);
      }
    }
  }

  lemma {:induction false} LexLeReflexive(a: string)
    ensures LexLe(a, a)
    decreases |a|
  {
    if |a| > 0 {
      LexLeReflexive(a[1..]);
    }
  }

  lemma {:induction false} LexLeAntisymmetric(a: string, b: string)
    requires LexLe(a, b) && LexLe(b, a)
    ensures a == b
    decreases |a|
  {
    if |a| > 0 && |b| > 0 {
      LexLeAntisymmetric(a[1..], b[1..]);
      assert a == [a[0]] + a[1..];
      assert b == [b[0]] + b[1..];
    }
  }

  lemma {:induction false} LexLeTransitive(a: string, b: string, c: string)
    requires LexLe(a, b) && LexLe(b, c)
    ensures LexLe(a, c)
    decreases |a|
  {
    if |a| > 0 && |b| > 0 && |c| > 0 && a[0] == b[0] && b[0] == c[0] {
      LexLeTransitive(a[1..], b[1..], c[1..]);
    }
  }

  lemma {:induction false} LexLeTotal(a: string, b: string)
    ensures LexLe(a, b) || LexLe(b, a)
    decreases |a|
  {
    if |a| > 0 && |b| > 0 && a[0] == b[0] {
      LexLeTotal(a[1..], b[1..]);
    }
  }
}
