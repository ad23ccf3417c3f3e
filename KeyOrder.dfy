/**
 The ordering a `std::map<std::string, V>` keeps its keys in, and the sequence
 in which iterating such a map visits them.

 `std::string`'s `operator<` compares character by character; the first
 differing character decides, and a proper prefix comes before the longer
 string. Characters are compared by their code, as `std::char_traits<char>`
 compares bytes.
 */
module KeyOrder {

  /** Strict lexicographic order on strings. */
  predicate Less(a: string, b: string)
  {
    if |a| == 0 then |b| > 0
    else if |b| == 0 then false
    else a[0] < b[0] || (a[0] == b[0] && Less(a[1..], b[1..]))
  }

  lemma {:induction false} LessIrreflexive(a: string)
    ensures !Less(a, a)
  {
    if |a| > 0 {
      LessIrreflexive(a[1..]);
    }
  }

  lemma {:induction false} LessTransitive(a: string, b: string, c: string)
    requires Less(a, b) && Less(b, c)
    ensures Less(a, c)
  {
    if |a| > 0 && a[0] == b[0] && b[0] == c[0] {
      LessTransitive(a[1..], b[1..], c[1..]);
    }
  }

  lemma LessAsymmetric(a: string, b: string)
    requires Less(a, b)
    ensures !Less(b, a)
  {
    if Less(b, a) {
      LessTransitive(a, b, a);
      LessIrreflexive(a);
    }
  }

  /** Any two strings are ordered one way or the other, or are equal. */
  lemma {:induction false} LessTrichotomy(a: string, b: string)
    ensures Less(a, b) || a == b || Less(b, a)
  {
    if |a| > 0 && |b| > 0 && a[0] == b[0] {
      LessTrichotomy(a[1..], b[1..]);
      if a[1..] == b[1..] {
        assert a == [a[0]] + a[1..];
        assert b == [b[0]] + b[1..];
      }
    }
  }

  /** `m` is the key an ordered map visits first among the keys `s`. */
  predicate IsLeast(m: string, s: set<string>)
  {
    m in s && forall x :: x in s && x != m ==> Less(m, x)
  }

  lemma LeastExists(s: set<string>)
    requires s != {}
    ensures exists m :: IsLeast(m, s)
  {
    var x :| x in s;
    if s == {x} {
      assert IsLeast(x, s);
    } else {
      var rest := s - {x};
      LeastExists(rest);
      var m :| IsLeast(m, rest);
      LessTrichotomy(x, m);
      if Less(x, m) {
        forall y | y in s && y != x
          ensures Less(x, y)
        {
          if y != m {
            LessTransitive(x, m, y);
          }
        }
        assert IsLeast(x, s);
      } else {
        assert IsLeast(m, s);
      }
    }
  }

  lemma LeastUnique(m1: string, m2: string, s: set<string>)
    requires IsLeast(m1, s) && IsLeast(m2, s)
    ensures m1 == m2
  {
    if m1 != m2 {
      LessAsymmetric(m1, m2);
      assert false;
    }
  }

  ghost function Least(s: set<string>): (m: string)
    requires s != {}
    ensures IsLeast(m, s)
  {
    LeastExists(s);
    var m :| IsLeast(m, s);
    m
  }

  /** Every element comes strictly before every later one. */
  ghost predicate StrictlySorted(q: seq<string>)
  {
    forall i, j :: 0 <= i < j < |q| ==> Less(q[i], q[j])
  }

  /** The keys `s` in the order an ordered map iterates over them. */
  ghost function SortedKeys(s: set<string>): seq<string>
  {
    if s == {} then []
    else
      var m := Least(s);
      [m] + SortedKeys(s - {m})
  }

  /**
   The enumeration holds every key exactly once, nothing else, and in
   strictly ascending order.
   */
  lemma {:induction false} SortedKeysSpec(s: set<string>)
    ensures |SortedKeys(s)| == |s|
    ensures forall x :: x in SortedKeys(s) <==> x in s
    ensures StrictlySorted(SortedKeys(s))
  {
    if s != {} {
      var m := Least(s);
      var rest := s - {m};
      SortedKeysSpec(rest);
      var tail := SortedKeys(rest);
      var q := SortedKeys(s);
      assert q == [m] + tail;
      forall i, j | 0 <= i < j < |q|
        ensures Less(q[i], q[j])
      {
        assert q[j] == tail[j - 1];
        if i > 0 {
          assert q[i] == tail[i - 1];
        }
      }
    }
  }

  /**
   A strictly ascending sequence of exactly the keys `s` is the enumeration
   of `s`: the order is determined by the key set alone.
   */
  lemma {:induction false} SortedKeysUnique(q: seq<string>, s: set<string>)
    requires StrictlySorted(q)
    requires forall x :: x in q <==> x in s
    ensures q == SortedKeys(s)
  {
    if q == [] {
      assert s == {};
    } else {
      assert IsLeast(q[0], s) by {
        forall x | x in s && x != q[0]
          ensures Less(q[0], x)
        {
          var j :| 0 <= j < |q| && q[j] == x;
        }
      }
      LeastUnique(q[0], Least(s), s);
      var rest := s - {q[0]};
      forall x
        ensures x in q[1..] <==> x in rest
      {
        if x in q[1..] {
          var j :| 1 <= j < |q| && q[j] == x;
          if x == q[0] {
            LessIrreflexive(x);
          }
        }
        if x in rest {
          var j :| 0 <= j < |q| && q[j] == x;
          assert j != 0;
          assert q[1..][j - 1] == x;
        }
      }
      SortedKeysUnique(q[1..], rest);
    }
  }
}
