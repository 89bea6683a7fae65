/** Strings as compare_and_replace handles them: Python's ordering of `str`,
    the sorted listing of a set of names, suffix tests and the editor
    swap-file pattern `.*.swp`. */
module Paths {
  /** `a < b` on Python strings: code points compared from the left, a
      proper prefix sorting first. */
  predicate Below(a: string, b: string)
  {
    if a == [] then b != []
    else b != [] && (a[0] < b[0] || (a[0] == b[0] && Below(a[1..], b[1..])))
  }

  lemma BelowIrreflexive(a: string)
    ensures !Below(a, a)
  {
    if a != [] {
      BelowIrreflexive(a[1..]);
    }
  }

  lemma BelowTransitive(a: string, b: string, c: string)
    requires Below(a, b) && Below(b, c)
    ensures Below(a, c)
  {
    if a != [] && a[0] == b[0] && b[0] == c[0] {
      BelowTransitive(a[1..], b[1..], c[1..]);
    }
  }

  lemma BelowTotal(a: string, b: string)
    ensures a == b || Below(a, b) || Below(b, a)
  {
    if a != [] && b != [] && a[0] == b[0] {
      BelowTotal(a[1..], b[1..]);
      if a[1..] == b[1..] {
        assert a == [a[0]] + a[1..] && b == [b[0]] + b[1..];
      }
    }
  }

  /** `m` is the smallest member of `s`. */
  predicate IsLeast(m: string, s: set<string>)
  {
    m in s && forall x | x in s :: x == m || Below(m, x)
  }

  lemma LeastExists(s: set<string>)
    requires s != {}
    ensures exists m :: IsLeast(m, s)
  {
    var x :| x in s;
    if s == {x} {
      assert IsLeast(x, s);
    } else {
      LeastExists(s - {x});
      var m :| IsLeast(m, s - {x});
      BelowTotal(x, m);
      if Below(x, m) {
        forall y | y in s
          ensures y == x || Below(x, y)
        {
          if y != x && y != m {
            BelowTransitive(x, m, y);
          }
        }
        assert IsLeast(x, s);
      } else {
        assert IsLeast(m, s);
      }
    }
  }

  lemma LeastUnique(s: set<string>)
    ensures forall a, b :: IsLeast(a, s) && IsLeast(b, s) ==> a == b
  {
    forall a, b | IsLeast(a, s) && IsLeast(b, s)
      ensures a == b
    {
      if a != b {
        BelowTransitive(a, b, a);
        BelowIrreflexive(a);
      }
    }
  }

  /** Ascending under Python's string order, hence without repetitions. */
  predicate StrictlySorted(xs: seq<string>)
  {
    forall i, j | 0 <= i < j < |xs| :: Below(xs[i], xs[j])
  }

  /** The members of `s` in ascending order, as Python's `sorted` lists a
      set of distinct strings. */
  function SortedSeq(s: set<string>): (r: seq<string>)
    ensures StrictlySorted(r)
    ensures forall x :: x in r <==> x in s
    ensures |r| == |s|
    decreases s
  {
    if s == {} then []
    else
      LeastExists(s);
      LeastUnique(s);
      var m :| IsLeast(m, s);
      [m] + SortedSeq(s - {m})
  }

  predicate EndsWith(s: string, suffix: string)
  {
    |suffix| <= |s| && s[|s| - |suffix|..] == suffix
  }

  /** `fnmatchcase(name, '.*.swp')`: a leading dot, then anything, then
      `.swp`; the two dots are distinct characters, so at least five long. */
  predicate IsSwapName(name: string)
  {
    |name| >= 5 && name[0] == '.' && EndsWith(name, ".swp")
  }

  /** A directory entry name as a real filesystem allows it: no separator. */
  predicate SlashFree(name: string)
  {
    '/' !in name
  }
}
