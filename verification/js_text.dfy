/**
  JavaScript string values and the order that the relational operators
  `<` and `>` put on them. A JavaScript string is a sequence of UTF-16 code
  units, and two strings compare code unit by code unit, a proper prefix
  coming before every extension of it (the IsLessThan abstract operation of
  ECMA-262, case "both operands are Strings"). Dafny's own `<` on sequences
  means "proper prefix", so the order is defined here.
 */
module JsText {

  /** One UTF-16 code unit. */
  newtype CodeUnit = x: int | 0 <= x < 0x1_0000

  type JsString = seq<CodeUnit>

  /** `a < b` on two JavaScript strings. */
  predicate Less(a: JsString, b: JsString)
  {
    if |b| == 0 then false
    else if |a| == 0 then true
    else if a[0] != b[0] then a[0] < b[0]
    else Less(a[1..], b[1..])
  }

  /** `a > b` on two JavaScript strings, as the sort comparators write it. */
  predicate Greater(a: JsString, b: JsString)
  {
    Less(b, a)
  }

  /** `a <= b`: not greater. */
  predicate AtMost(a: JsString, b: JsString)
  {
    !Less(b, a)
  }

  /** `p` is a prefix of `s` (IsStringPrefix in ECMA-262). */
  ghost predicate IsPrefix(p: JsString, s: JsString)
  {
    |p| <= |s| && s[..|p|] == p
  }

  /**
    The order as ECMA-262 states it: if `b` is a prefix of `a` the answer is
    false; otherwise, if `a` is a prefix of `b` it is true; otherwise the
    first code unit where the two differ decides.
   */
  ghost predicate IsLessThan(a: JsString, b: JsString)
  {
    if IsPrefix(b, a) then false
    else if IsPrefix(a, b) then true
    else exists k :: 0 <= k < |a| && k < |b| && a[..k] == b[..k] && a[k] != b[k] && a[k] < b[k]
  }

  /** The recursive `Less` and the prefix/first-difference definition agree on all inputs. */
  lemma {:induction false} LessIsIsLessThan(a: JsString, b: JsString)
    ensures Less(a, b) <==> IsLessThan(a, b)
  {
    if |b| == 0 {
      assert IsPrefix(b, a);
    } else if |a| == 0 {
      assert !IsPrefix(b, a);
      assert IsPrefix(a, b);
    } else if a[0] != b[0] {
      assert !IsPrefix(b, a) && !IsPrefix(a, b);
      assert a[..0] == b[..0];
      if IsLessThan(a, b) {
        var k :| 0 <= k < |a| && k < |b| && a[..k] == b[..k] && a[k] != b[k] && a[k] < b[k];
      }
    } else {
      LessIsIsLessThan(a[1..], b[1..]);
      PrefixOfTails(a, b);
      PrefixOfTails(b, a);
      if IsLessThan(a[1..], b[1..]) && !IsPrefix(b[1..], a[1..]) && !IsPrefix(a[1..], b[1..]) {
        var k :| 0 <= k < |a[1..]| && k < |b[1..]| && a[1..][..k] == b[1..][..k]
          && a[1..][k] != b[1..][k] && a[1..][k] < b[1..][k];
        assert a[..k + 1] == [a[0]] + a[1..][..k];
        assert b[..k + 1] == [b[0]] + b[1..][..k];
        assert a[k + 1] == a[1..][k] && b[k + 1] == b[1..][k];
      }
      if IsLessThan(a, b) && !IsPrefix(b, a) && !IsPrefix(a, b) {
        var k :| 0 <= k < |a| && k < |b| && a[..k] == b[..k] && a[k] != b[k] && a[k] < b[k];
        assert k > 0;
        assert a[1..][..k - 1] == a[..k][1..] == b[..k][1..] == b[1..][..k - 1];
        assert a[1..][k - 1] == a[k] && b[1..][k - 1] == b[k];
      }
    }
  }

  /** When the heads agree, prefixing is decided by the tails. */
  lemma PrefixOfTails(a: JsString, b: JsString)
    requires |a| > 0 && |b| > 0 && a[0] == b[0]
    ensures IsPrefix(a, b) <==> IsPrefix(a[1..], b[1..])
  {
    if IsPrefix(a[1..], b[1..]) {
      assert b[..|a|] == [b[0]] + b[1..][..|a| - 1];
      assert a == [a[0]] + a[1..];
    }
    if IsPrefix(a, b) {
      assert b[1..][..|a| - 1] == b[..|a|][1..];
    }
  }

  lemma {:induction false} LessIrreflexive(a: JsString)
    ensures !Less(a, a)
  {
    if |a| > 0 {
      LessIrreflexive(a[1..]);
    }
  }

  lemma {:induction false} LessTransitive(a: JsString, b: JsString, c: JsString)
    requires Less(a, b) && Less(b, c)
    ensures Less(a, c)
  {
    if |a| > 0 && a[0] == b[0] && b[0] == c[0] {
      LessTransitive(a[1..], b[1..], c[1..]);
    }
  }

  /** Any two strings are equal or ordered one way round. */
  lemma {:induction false} LessTrichotomy(a: JsString, b: JsString)
    ensures a == b || Less(a, b) || Less(b, a)
  {
    if |a| > 0 && |b| > 0 && a[0] == b[0] {
      LessTrichotomy(a[1..], b[1..]);
      if a[1..] == b[1..] {
        assert a == [a[0]] + a[1..] && b == [b[0]] + b[1..];
      }
    }
  }

  lemma LessAsymmetric(a: JsString, b: JsString)
    requires Less(a, b)
    ensures !Less(b, a)
  {
    if Less(b, a) {
      LessTransitive(a, b, a);
      LessIrreflexive(a);
    }
  }

  /** `AtMost` is transitive. */
  lemma AtMostTransitive(a: JsString, b: JsString, c: JsString)
    requires AtMost(a, b) && AtMost(b, c)
    ensures AtMost(a, c)
  {
    if Less(c, a) {
      LessTrichotomy(a, b);
      LessTrichotomy(b, c);
      if a != b && b != c {
        LessTransitive(a, b, c);
        LessAsymmetric(a, c);
      }
    }
  }

  lemma AtMostAntisymmetric(a: JsString, b: JsString)
    requires AtMost(a, b) && AtMost(b, a)
    ensures a == b
  {
    LessTrichotomy(a, b);
  }
}
