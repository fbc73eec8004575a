/** Generic facts about sequences and finite sets used throughout the model. */
module Seqs {

  ghost predicate Distinct<T>(s: seq<T>) {
    forall i, j :: 0 <= i < j < |s| ==> s[i] != s[j]
  }

  function Elems<T>(s: seq<T>): set<T> {
    set x | x in s
  }

  /** A non-empty sequence is its front followed by its last element. */
  lemma InitLast<T>(s: seq<T>)
    requires s != []
    ensures s == s[..|s| - 1] + [s[|s| - 1]]
  {
  }

  /** The reversal of a sequence, as List.Reverse and Stack.ToList produce it. */
  function Rev<T>(s: seq<T>): (r: seq<T>)
    ensures |r| == |s|
  {
    if s == [] then [] else [s[|s| - 1]] + Rev(s[..|s| - 1])
  }

  function Flatten<T>(ss: seq<seq<T>>): seq<T> {
    if ss == [] then [] else Flatten(ss[..|ss| - 1]) + ss[|ss| - 1]
  }

  lemma {:induction false} RevAt<T>(s: seq<T>, k: nat)
    requires k < |s|
    ensures Rev(s)[k] == s[|s| - 1 - k]
  {
    var t := s[..|s| - 1];
    assert Rev(s) == [s[|s| - 1]] + Rev(t);
    if k > 0 {
      RevAt(t, k - 1);
      assert Rev(s)[k] == Rev(t)[k - 1];
    }
  }

  lemma RevSnoc<T>(a: seq<T>, x: T)
    ensures Rev(a + [x]) == [x] + Rev(a)
  {
    assert (a + [x])[..|a|] == a;
  }

  lemma {:induction false} RevCons<T>(x: T, s: seq<T>)
    ensures Rev([x] + s) == Rev(s) + [x]
  {
    if s != [] {
      var init := s[..|s| - 1];
      assert ([x] + s)[..|s|] == [x] + init;
      RevCons(x, init);
    }
  }

  lemma {:induction false} RevRev<T>(s: seq<T>)
    ensures Rev(Rev(s)) == s
  {
    if s != [] {
      var init := s[..|s| - 1];
      RevCons(s[|s| - 1], Rev(init));
      RevRev(init);
      assert s == init + [s[|s| - 1]];
    }
  }

  /** Reversal keeps the elements, and a repetition-free sequence stays repetition-free. */
  lemma RevElems<T>(s: seq<T>)
    ensures Elems(Rev(s)) == Elems(s)
    ensures Distinct(s) ==> Distinct(Rev(s))
  {
    forall k | 0 <= k < |s| ensures Rev(s)[k] == s[|s| - 1 - k] {
      RevAt(s, k);
    }
    forall x | x in Elems(s) ensures x in Elems(Rev(s)) {
      var i :| 0 <= i < |s| && s[i] == x;
      assert Rev(s)[|s| - 1 - i] == x;
    }
  }

  /** The last m elements of the reversal are the reversal of the first m. */
  lemma RevSuffix<T>(s: seq<T>, m: nat)
    requires m <= |s|
    ensures Rev(s)[|s| - m..] == Rev(s[..m])
  {
    var r, t := Rev(s), Rev(s[..m]);
    var u := r[|s| - m..];
    assert |u| == m == |t|;
    forall a | 0 <= a < m ensures u[a] == t[a] {
      RevAt(s, |s| - m + a);
      RevAt(s[..m], a);
      assert u[a] == r[|s| - m + a];
      assert s[..m][m - 1 - a] == s[m - 1 - a];
    }
    assert u == t;
  }

  lemma DistinctConcat<T>(a: seq<T>, b: seq<T>)
    ensures Distinct(a + b) <==> Distinct(a) && Distinct(b) && Elems(a) !! Elems(b)
  {
    if Distinct(a + b) {
      forall i, j | 0 <= i < j < |a| ensures a[i] != a[j] {
        assert a[i] == (a + b)[i] && a[j] == (a + b)[j];
      }
      forall i, j | 0 <= i < j < |b| ensures b[i] != b[j] {
        assert b[i] == (a + b)[|a| + i] && b[j] == (a + b)[|a| + j];
      }
      forall i, j | 0 <= i < |a| && 0 <= j < |b| ensures a[i] != b[j] {
        assert (a + b)[i] == a[i] && (a + b)[|a| + j] == b[j];
      }
    }
    if Distinct(a) && Distinct(b) && Elems(a) !! Elems(b) {
      forall i, j | 0 <= i < j < |a + b| ensures (a + b)[i] != (a + b)[j] {
        if j < |a| {
        } else if i >= |a| {
          assert (a + b)[i] == b[i - |a|] && (a + b)[j] == b[j - |a|];
        } else {
          assert (a + b)[i] == a[i] && a[i] in Elems(a);
          assert (a + b)[j] == b[j - |a|] && b[j - |a|] in Elems(b);
        }
      }
    }
  }

  lemma ElemsConcat<T>(a: seq<T>, b: seq<T>)
    ensures Elems(a + b) == Elems(a) + Elems(b)
  {
  }

  lemma FlattenSnoc<T>(ss: seq<seq<T>>, s: seq<T>)
    ensures Flatten(ss + [s]) == Flatten(ss) + s
  {
    assert (ss + [s])[..|ss|] == ss;
  }

  lemma SubsetCard<T>(a: set<T>, b: set<T>)
    requires a <= b
    ensures |a| <= |b|
  {
    assert b == a + (b - a);
  }

  lemma StrictSubsetCard<T>(a: set<T>, b: set<T>)
    requires a < b
    ensures |a| < |b|
  {
    assert b == a + (b - a);
  }

  /** A sequence without repetitions has as many elements as its set. */
  lemma {:induction false} DistinctCard<T>(s: seq<T>)
    requires Distinct(s)
    ensures |Elems(s)| == |s|
  {
    if s != [] {
      var t := s[..|s| - 1];
      assert s == t + [s[|s| - 1]];
      DistinctConcat(t, [s[|s| - 1]]);
      DistinctCard(t);
      ElemsConcat(t, [s[|s| - 1]]);
      assert s[|s| - 1] !in Elems(t);
      assert Elems(s) == Elems(t) + {s[|s| - 1]};
    }
  }

  /** A repetition-free sequence drawn from a set is no longer than the set. */
  lemma DistinctWithinCard<T>(s: seq<T>, b: set<T>)
    requires Distinct(s) && Elems(s) <= b
    ensures |s| <= |b|
  {
    DistinctCard(s);
    SubsetCard(Elems(s), b);
  }
}
