/**
  The order in which a bbolt bucket keeps its keys: byte-wise lexicographic
  comparison, as bytes.Compare defines it.  The keys of the ITEMS bucket are
  ASCII, so comparing characters compares bytes.
 */
module KeyOrder {
  import opened Keys

  /** a sorts strictly before b. */
  predicate KeyLess(a: string, b: string)
    decreases |a|
  {
    if |a| == 0 then |b| > 0
    else |b| > 0 && (a[0] < b[0] || (a[0] == b[0] && KeyLess(a[1..], b[1..])))
  }

  lemma {:induction false} KeyLessIrreflexive(a: string)
    ensures !KeyLess(a, a)
    decreases |a|
  {
    if |a| > 0 {
      KeyLessIrreflexive(a[1..]);
    }
  }

  lemma {:induction false} KeyLessTransitive(a: string, b: string, c: string)
    requires KeyLess(a, b) && KeyLess(b, c)
    ensures KeyLess(a, c)
    decreases |a|
  {
    if |a| > 0 && a[0] == b[0] && b[0] == c[0] {
      KeyLessTransitive(a[1..], b[1..], c[1..]);
    }
  }

  lemma {:induction false} KeyLessTotal(a: string, b: string)
    ensures a == b || KeyLess(a, b) || KeyLess(b, a)
    decreases |a|
  {
    if |a| > 0 && |b| > 0 && a[0] == b[0] {
      KeyLessTotal(a[1..], b[1..]);
      if a[1..] == b[1..] {
        assert a == [a[0]] + a[1..] && b == [b[0]] + b[1..];
      }
    }
  }

  lemma KeyLessAsymmetric(a: string, b: string)
    requires KeyLess(a, b)
    ensures !KeyLess(b, a)
  {
    if KeyLess(b, a) {
      KeyLessTransitive(a, b, a);
      KeyLessIrreflexive(a);
    }
  }

  /** Appending one character to two keys of equal length decides a tie and nothing else. */
  lemma {:induction false} KeyLessAppend(p: string, q: string, x: char, y: char)
    requires |p| == |q|
    ensures KeyLess(p + [x], q + [y]) <==> KeyLess(p, q) || (p == q && x < y)
    decreases |p|
  {
    if |p| == 0 {
      assert p + [x] == [x] && q + [y] == [y];
      assert [x][1..] == [] && [y][1..] == [];
    } else {
      assert (p + [x])[1..] == p[1..] + [x];
      assert (q + [y])[1..] == q[1..] + [y];
      KeyLessAppend(p[1..], q[1..], x, y);
      if p[0] == q[0] && p[1..] == q[1..] {
        assert p == [p[0]] + p[1..] && q == [q[0]] + q[1..];
      }
    }
  }

  lemma {:induction false} FormatUintLengthMonotone(a: nat, b: nat)
    requires a <= b
    ensures |FormatUint(a)| <= |FormatUint(b)|
    decreases b
  {
    if a >= 10 {
      FormatUintLengthMonotone(a / 10, b / 10);
    }
  }

  lemma DivModOrder(a: nat, b: nat)
    ensures a < b <==> a / 10 < b / 10 || (a / 10 == b / 10 && a % 10 < b % 10)
  {
    assert a == a / 10 * 10 + a % 10;
    assert b == b / 10 * 10 + b % 10;
  }

  /** Among numerals of the same length, key order is numeric order. */
  lemma {:induction false} SameLengthKeyOrderIsNumeric(a: nat, b: nat)
    requires |FormatUint(a)| == |FormatUint(b)|
    ensures KeyLess(FormatUint(a), FormatUint(b)) <==> a < b
    decreases a
  {
    if a < 10 || b < 10 {
      assert a < 10 && b < 10;
      assert FormatUint(a)[1..] == [] && FormatUint(b)[1..] == [];
    } else {
      var p, q := FormatUint(a / 10), FormatUint(b / 10);
      assert FormatUint(a) == p + [DigitChar(a % 10)];
      assert FormatUint(b) == q + [DigitChar(b % 10)];
      KeyLessAppend(p, q, DigitChar(a % 10), DigitChar(b % 10));
      SameLengthKeyOrderIsNumeric(a / 10, b / 10);
      FormatUintInjective(a / 10, b / 10);
      DivModOrder(a, b);
    }
  }

  /**
    Numeric order of identifiers is "shorter numeral first, then key order":
    the bucket's own order agrees with it only between numerals of one length.
   */
  lemma NumericOrderIsLengthThenKeyOrder(a: nat, b: nat)
    ensures a < b <==>
      |FormatUint(a)| < |FormatUint(b)| ||
      (|FormatUint(a)| == |FormatUint(b)| && KeyLess(FormatUint(a), FormatUint(b)))
  {
    if a <= b {
      FormatUintLengthMonotone(a, b);
    } else {
      FormatUintLengthMonotone(b, a);
    }
    if |FormatUint(a)| == |FormatUint(b)| {
      SameLengthKeyOrderIsNumeric(a, b);
    }
  }

  /** The bucket lists identifier 10 before identifier 9. */
  lemma KeyOrderIsNotNumericOrder()
    ensures FormatUint(10) == "10" && FormatUint(9) == "9"
    ensures KeyLess(FormatUint(10), FormatUint(9))
  {
    assert FormatUint(1) == "1";
  }

  /** k is the first of keys in key order. */
  predicate IsLeastKey(k: string, keys: set<string>) {
    k in keys && forall x | x in keys && x != k :: KeyLess(k, x)
  }

  lemma {:induction false} LeastKeyExists(keys: set<string>)
    requires keys != {}
    ensures exists k :: IsLeastKey(k, keys)
    decreases keys
  {
    var x :| x in keys;
    if keys == {x} {
      assert IsLeastKey(x, keys);
    } else {
      LeastKeyExists(keys - {x});
      var m :| IsLeastKey(m, keys - {x});
      KeyLessTotal(x, m);
      if KeyLess(x, m) {
        forall y | y in keys && y != x
          ensures KeyLess(x, y)
        {
          if y != m {
            KeyLessTransitive(x, m, y);
          }
        }
        assert IsLeastKey(x, keys);
      } else {
        assert IsLeastKey(m, keys);
      }
    }
  }

  lemma LeastKeyUnique(k1: string, k2: string, keys: set<string>)
    requires IsLeastKey(k1, keys) && IsLeastKey(k2, keys)
    ensures k1 == k2
  {
    if k1 != k2 {
      KeyLessAsymmetric(k1, k2);
    }
  }

  ghost function LeastKey(keys: set<string>): (k: string)
    requires keys != {}
    ensures IsLeastKey(k, keys)
  {
    LeastKeyExists(keys);
    var k :| IsLeastKey(k, keys);
    k
  }

  /** The keys of a bucket in the order a cursor visits them: least key first. */
  ghost function SortedKeys(keys: set<string>): (ks: seq<string>)
    ensures |ks| == |keys|
    ensures forall k :: k in ks <==> k in keys
    decreases keys
  {
    if keys == {} then []
    else
      var k := LeastKey(keys);
      [k] + SortedKeys(keys - {k})
  }

  /** The cursor visits the keys in strictly increasing byte order. */
  lemma {:induction false} SortedKeysAscending(keys: set<string>)
    ensures forall i, j | 0 <= i < j < |SortedKeys(keys)| :: KeyLess(SortedKeys(keys)[i], SortedKeys(keys)[j])
    decreases keys
  {
    if keys != {} {
      var k := LeastKey(keys);
      var ks := SortedKeys(keys);
      var tail := SortedKeys(keys - {k});
      assert ks == [k] + tail;
      SortedKeysAscending(keys - {k});
      forall i, j | 0 <= i < j < |ks|
        ensures KeyLess(ks[i], ks[j])
      {
        assert ks[j] == tail[j - 1];
        if i > 0 {
          assert ks[i] == tail[i - 1];
        } else {
          assert ks[j] in keys - {k};
        }
      }
    }
  }
}
