/**
 * The applicant record (`enrollee`) and its comparison operators.
 *
 * Every operator looks at `name` only: two applicants with the same name are
 * "equal" whatever their faculty, speciality and score, and otherwise the
 * lexicographic order of the names decides.
 */
module Enrollees {

  /** An applicant: full name (the key), faculty, speciality and exam score. */
  datatype Enrollee = Enrollee(name: string, faculty: string, speciality: string, result: int)

  /**
   * Strict lexicographic order of strings, as `std::string::operator<` has it:
   * the first differing character decides, and a proper prefix is smaller.
   * (Dafny's own `<` on sequences is the proper-prefix relation only.)
   */
  predicate LexLess(a: string, b: string)
  {
    if |b| == 0 then false
    else if |a| == 0 then true
    else if a[0] != b[0] then a[0] < b[0]
    else LexLess(a[1..], b[1..])
  }

  /** Reference definition: `a` is a proper prefix of `b`, or the two agree up to a first position where `a` is smaller. */
  ghost predicate FirstDifferenceLess(a: string, b: string)
  {
    (|a| < |b| && a == b[..|a|]) ||
    exists k :: 0 <= k < |a| && k < |b| && a[..k] == b[..k] && a[k] < b[k]
  }

  lemma {:induction false} LexLessIsFirstDifference(a: string, b: string)
    ensures LexLess(a, b) <==> FirstDifferenceLess(a, b)
  {
    if |b| == 0 {
      assert !FirstDifferenceLess(a, b);
    } else if |a| == 0 {
      assert a == b[..0];
    } else if a[0] != b[0] {
      if a[0] < b[0] {
        assert a[..0] == b[..0];
      } else {
        // every common prefix longer than zero already differs at position 0
        forall k | 0 < k <= |a| && k <= |b|
          ensures a[..k] != b[..k]
        {
          assert a[..k][0] == a[0] && b[..k][0] == b[0];
        }
      }
    } else {
      var a', b' := a[1..], b[1..];
      LexLessIsFirstDifference(a', b');
      if FirstDifferenceLess(a', b') {
        if |a'| < |b'| && a' == b'[..|a'|] {
          assert a == [a[0]] + a' && b[..|a|] == [b[0]] + b'[..|a'|];
        } else {
          var k :| 0 <= k < |a'| && k < |b'| && a'[..k] == b'[..k] && a'[k] < b'[k];
          assert a[..k + 1] == [a[0]] + a'[..k] && b[..k + 1] == [b[0]] + b'[..k];
          assert a[k + 1] == a'[k] && b[k + 1] == b'[k];
        }
      }
      if FirstDifferenceLess(a, b) {
        if |a| < |b| && a == b[..|a|] {
          assert a' == b'[..|a'|];
        } else {
          var k :| 0 <= k < |a| && k < |b| && a[..k] == b[..k] && a[k] < b[k];
          assert k != 0;
          assert a'[..k - 1] == a[..k][1..] && b'[..k - 1] == b[..k][1..];
          assert a'[k - 1] == a[k] && b'[k - 1] == b[k];
        }
      }
    }
  }

  lemma {:induction false} LexLessAsymmetric(a: string, b: string)
    ensures LexLess(a, b) ==> !LexLess(b, a)
  {
    if |a| > 0 && |b| > 0 && a[0] == b[0] {
      LexLessAsymmetric(a[1..], b[1..]);
    }
  }

  lemma LexLessIrreflexive(a: string)
    ensures !LexLess(a, a)
  {
    LexLessAsymmetric(a, a);
  }

  lemma {:induction false} LexLessTransitive(a: string, b: string, c: string)
    requires LexLess(a, b) && LexLess(b, c)
    ensures LexLess(a, c)
  {
    if |a| > 0 && a[0] == b[0] && b[0] == c[0] {
      LexLessTransitive(a[1..], b[1..], c[1..]);
    }
  }

  /** Two different strings are always ordered one way or the other. */
  lemma {:induction false} LexLessConnected(a: string, b: string)
    ensures a == b || LexLess(a, b) || LexLess(b, a)
  {
    if |a| > 0 && |b| > 0 && a[0] == b[0] {
      assert a == [a[0]] + a[1..] && b == [b[0]] + b[1..];
      LexLessConnected(a[1..], b[1..]);
    }
  }

  /** `operator<` (Lab1V16.cpp:31-39): false on equal names, else the name order. */
  function Less(x: Enrollee, y: Enrollee): (r: bool)
    ensures r <==> LexLess(x.name, y.name)
  {
    LexLessIrreflexive(x.name);
    if x.name == y.name then false else LexLess(x.name, y.name)
  }

  /** `operator>` (Lab1V16.cpp:46-54): false on equal names, else the reversed name order. */
  function Greater(x: Enrollee, y: Enrollee): (r: bool)
    ensures r <==> LexLess(y.name, x.name)
    ensures r <==> Less(y, x)
  {
    LexLessIrreflexive(x.name);
    if x.name == y.name then false else LexLess(y.name, x.name)
  }

  /** `operator<=` (Lab1V16.cpp:61-69): true on equal names; it is the negation of `>`. */
  function LessEq(x: Enrollee, y: Enrollee): (r: bool)
    ensures r <==> !LexLess(y.name, x.name)
    ensures r <==> !Greater(x, y)
  {
    LexLessIrreflexive(x.name);
    LexLessAsymmetric(x.name, y.name);
    LexLessConnected(x.name, y.name);
    if x.name == y.name then true else LexLess(x.name, y.name)
  }

  /** `operator>=` (Lab1V16.cpp:76-84): true on equal names; it is the negation of `<`. */
  function GreaterEq(x: Enrollee, y: Enrollee): (r: bool)
    ensures r <==> !LexLess(x.name, y.name)
    ensures r <==> !Less(x, y)
  {
    LexLessIrreflexive(x.name);
    LexLessAsymmetric(x.name, y.name);
    LexLessConnected(x.name, y.name);
    if x.name == y.name then true else LexLess(y.name, x.name)
  }

  /**
   * `operator==` (Lab1V16.cpp:86-94): equality of names only. It is exactly
   * the equivalence induced by the order: neither record is below the other.
   */
  function Equal(x: Enrollee, y: Enrollee): (r: bool)
    ensures r <==> !Less(x, y) && !Less(y, x)
  {
    LexLessIrreflexive(x.name);
    LexLessConnected(x.name, y.name);
    x.name == y.name
  }

  /** For any two records exactly one of `<`, `==`, `>` holds. */
  lemma Trichotomy(x: Enrollee, y: Enrollee)
    ensures Less(x, y) || Equal(x, y) || Greater(x, y)
    ensures !(Less(x, y) && Equal(x, y))
    ensures !(Less(x, y) && Greater(x, y))
    ensures !(Equal(x, y) && Greater(x, y))
  {
    LexLessAsymmetric(x.name, y.name);
  }

  /** Records that agree on `name` compare alike under every operator, whatever their other fields. */
  lemma KeyOnly(x: Enrollee, x': Enrollee, y: Enrollee)
    requires x.name == x'.name
    ensures Equal(x, x') && LessEq(x, x') && GreaterEq(x, x')
    ensures !Less(x, x') && !Greater(x, x')
    ensures Less(x, y) == Less(x', y) && Greater(x, y) == Greater(x', y)
    ensures LessEq(x, y) == LessEq(x', y) && GreaterEq(x, y) == GreaterEq(x', y)
    ensures Equal(x, y) == Equal(x', y)
  {
    LexLessIrreflexive(x.name);
  }

  lemma LessEqTransitive(x: Enrollee, y: Enrollee, z: Enrollee)
    requires LessEq(x, y) && LessEq(y, z)
    ensures LessEq(x, z)
  {
    if LexLess(z.name, x.name) {
      LexLessConnected(y.name, z.name);
      if LexLess(y.name, z.name) {
        LexLessTransitive(y.name, z.name, x.name);
      }
    }
  }

  lemma LessLessEqTransitive(x: Enrollee, y: Enrollee, z: Enrollee)
    requires Less(x, y) && LessEq(y, z)
    ensures Less(x, z)
  {
    LexLessConnected(y.name, z.name);
    if y.name != z.name {
      LexLessTransitive(x.name, y.name, z.name);
    }
  }

  lemma LessEqLessTransitive(x: Enrollee, y: Enrollee, z: Enrollee)
    requires LessEq(x, y) && Less(y, z)
    ensures Less(x, z)
  {
    LexLessConnected(x.name, y.name);
    if x.name != y.name {
      LexLessTransitive(x.name, y.name, z.name);
    }
  }

  /** `<=` is total: every pair of records is comparable. */
  lemma LessEqTotal(x: Enrollee, y: Enrollee)
    ensures LessEq(x, y) || LessEq(y, x)
  {
    LexLessAsymmetric(x.name, y.name);
  }

  /** Ascending by name: every earlier record is `<=` every later one. */
  ghost predicate Sorted(s: seq<Enrollee>)
  {
    forall i, j :: 0 <= i < j < |s| ==> LessEq(s[i], s[j])
  }

  /** The keys of a sequence of records, in order. */
  function Names(s: seq<Enrollee>): seq<string>
  {
    seq(|s|, i requires 0 <= i < |s| => s[i].name)
  }
}
