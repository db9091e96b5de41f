/** Facts about key sequences: the recency order of a cache is a sequence without repetitions,
    and every removal is a filter over it. */
module Order {

  predicate NoDup<T(==)>(s: seq<T>) {
    s == [] || (s[0] !in s[1..] && NoDup(s[1..]))
  }

  lemma {:induction false} NoDupAppend<T(!new)>(s: seq<T>, t: seq<T>)
    ensures NoDup(s + t) <==> NoDup(s) && NoDup(t) && forall x :: x in s ==> x !in t
  {
    if s == [] {
      assert s + t == t;
    } else {
      assert (s + t)[1..] == s[1..] + t;
      NoDupAppend(s[1..], t);
    }
  }

  function Elems<T(==,!new)>(s: seq<T>): (r: set<T>) {
    set x | x in s
  }

  /** The elements of `s` that lie in `a`, in their old order. */
  function Keep<T(==)>(s: seq<T>, a: set<T>): seq<T> {
    if s == [] then [] else (if s[0] in a then [s[0]] else []) + Keep(s[1..], a)
  }

  /** `x` stands somewhere before `y`. */
  ghost predicate Before<T(!new)>(s: seq<T>, x: T, y: T) {
    exists i, j :: 0 <= i < j < |s| && s[i] == x && s[j] == y
  }

  lemma {:induction false} KeepIn<T(!new)>(s: seq<T>, a: set<T>)
    ensures forall x :: x in Keep(s, a) <==> x in s && x in a
    ensures |Keep(s, a)| <= |s|
  {
    if s != [] {
      KeepIn(s[1..], a);
    }
  }

  lemma {:induction false} KeepAppend<T(!new)>(s: seq<T>, t: seq<T>, a: set<T>)
    ensures Keep(s + t, a) == Keep(s, a) + Keep(t, a)
  {
    if s == [] {
      assert s + t == t;
    } else {
      var head, rest, last := if s[0] in a then [s[0]] else [], Keep(s[1..], a), Keep(t, a);
      KeepAppend(s[1..], t, a);
      assert Keep(s + t, a) == head + (rest + last) by {
        assert (s + t)[0] == s[0] && (s + t)[1..] == s[1..] + t;
      }
      assert head + (rest + last) == (head + rest) + last;
    }
  }

  lemma {:induction false} KeepAgree<T(!new)>(s: seq<T>, a: set<T>, b: set<T>)
    requires forall x :: x in s ==> (x in a <==> x in b)
    ensures Keep(s, a) == Keep(s, b)
  {
    if s != [] {
      KeepAgree(s[1..], a, b);
    }
  }

  lemma {:induction false} KeepAll<T(!new)>(s: seq<T>, a: set<T>)
    requires forall x :: x in s ==> x in a
    ensures Keep(s, a) == s
  {
    if s != [] {
      KeepAll(s[1..], a);
    }
  }

  lemma {:induction false} KeepNone<T(!new)>(s: seq<T>, a: set<T>)
    requires forall x :: x in s ==> x !in a
    ensures Keep(s, a) == []
  {
    if s != [] {
      KeepNone(s[1..], a);
    }
  }

  lemma {:induction false} KeepKeep<T(!new)>(s: seq<T>, a: set<T>, b: set<T>)
    ensures Keep(Keep(s, a), b) == Keep(s, a * b)
  {
    if s != [] {
      KeepKeep(s[1..], a, b);
      KeepAppend(if s[0] in a then [s[0]] else [], Keep(s[1..], a), b);
    }
  }

  lemma {:induction false} KeepNoDup<T(!new)>(s: seq<T>, a: set<T>)
    requires NoDup(s)
    ensures NoDup(Keep(s, a))
  {
    if s != [] {
      KeepNoDup(s[1..], a);
      KeepIn(s[1..], a);
      NoDupAppend(if s[0] in a then [s[0]] else [], Keep(s[1..], a));
    }
  }

  lemma {:induction false} ElemsCount<T(!new)>(s: seq<T>)
    requires NoDup(s)
    ensures |Elems(s)| == |s|
  {
    if s != [] {
      ElemsCount(s[1..]);
      assert Elems(s) == {s[0]} + Elems(s[1..]);
    }
  }

  lemma SliceNoDup<T(!new)>(s: seq<T>, n: nat)
    requires NoDup(s) && n <= |s|
    ensures NoDup(s[..n]) && NoDup(s[n..])
    ensures Elems(s[..n]) !! Elems(s[n..])
    ensures Elems(s) == Elems(s[..n]) + Elems(s[n..])
  {
    assert s == s[..n] + s[n..];
    NoDupAppend(s[..n], s[n..]);
  }

  /** Filtering away exactly the first `n` elements leaves the suffix. */
  lemma KeepSuffix<T(!new)>(s: seq<T>, n: nat, a: set<T>)
    requires NoDup(s) && n <= |s|
    requires forall x :: x in s ==> (x in a <==> x !in s[..n])
    ensures Keep(s, a) == s[n..]
  {
    SliceNoDup(s, n);
    assert s == s[..n] + s[n..];
    KeepAppend(s[..n], s[n..], a);
    KeepNone(s[..n], a);
    forall x | x in s[n..] ensures x in a {
      assert x in Elems(s[n..]);
    }
    KeepAll(s[n..], a);
  }

  lemma KeepPrefix<T(!new)>(s: seq<T>, n: nat)
    requires NoDup(s) && n <= |s|
    ensures Keep(s, Elems(s[..n])) == s[..n]
  {
    SliceNoDup(s, n);
    assert s == s[..n] + s[n..];
    KeepAppend(s[..n], s[n..], Elems(s[..n]));
    KeepAll(s[..n], Elems(s[..n]));
    forall x | x in s[n..] ensures x !in Elems(s[..n]) {
      assert x in Elems(s[n..]);
    }
    KeepNone(s[n..], Elems(s[..n]));
  }

  /** A filter never swaps two elements. */
  lemma {:induction false} KeepBefore<T(!new)>(s: seq<T>, a: set<T>, x: T, y: T)
    requires NoDup(s) && x in a && y in a
    ensures Before(Keep(s, a), x, y) <==> Before(s, x, y)
  {
    if s != [] {
      var t := s[1..];
      KeepBefore(t, a, x, y);
      KeepIn(t, a);
      BeforeCons(s[0], t, x, y);
      BeforeCons(s[0], Keep(t, a), x, y);
      assert s == [s[0]] + t;
      assert Keep(s, a) == if s[0] in a then [s[0]] + Keep(t, a) else Keep(t, a);
    }
  }

  lemma BeforeCons<T(!new)>(h: T, t: seq<T>, x: T, y: T)
    ensures Before([h] + t, x, y) <==> (x == h && y in t) || Before(t, x, y)
  {
    var s := [h] + t;
    if x == h && y in t {
      var j :| 0 <= j < |t| && t[j] == y;
      assert s[0] == x && s[j + 1] == y;
    }
    if Before(t, x, y) {
      var i, j :| 0 <= i < j < |t| && t[i] == x && t[j] == y;
      assert s[i + 1] == x && s[j + 1] == y;
    }
    if Before(s, x, y) {
      var i, j :| 0 <= i < j < |s| && s[i] == x && s[j] == y;
      assert t[j - 1] == y;
      if i > 0 {
        assert t[i - 1] == x;
      }
    }
  }

  lemma BeforeSnoc<T(!new)>(s: seq<T>, z: T, x: T, y: T)
    ensures Before(s + [z], x, y) <==> Before(s, x, y) || (x in s && y == z)
  {
    var t := s + [z];
    if x in s && y == z {
      var i :| 0 <= i < |s| && s[i] == x;
      assert t[i] == x && t[|s|] == y;
    }
    if Before(s, x, y) {
      var i, j :| 0 <= i < j < |s| && s[i] == x && s[j] == y;
      assert t[i] == x && t[j] == y;
    }
    if Before(t, x, y) {
      var i, j :| 0 <= i < j < |t| && t[i] == x && t[j] == y;
      assert s[i] == x;
      if j < |s| {
        assert s[j] == y;
      }
    }
  }

  lemma MinusMinus<K, V>(m: map<K, V>, a: set<K>, b: set<K>)
    ensures (m - a) - b == m - (a + b)
  {
  }

  lemma PrefixElems<T(!new)>(s: seq<T>, n: nat)
    requires n < |s|
    ensures Elems(s[..n + 1]) == Elems(s[..n]) + Elems(s[n..][..1])
  {
  }

  lemma SliceSlice<T>(s: seq<T>, n: nat)
    requires n < |s|
    ensures s[n..][1..] == s[n + 1..]
  {
  }

  lemma PrefixDistinct<T(!new)>(s: seq<T>, i: nat)
    requires NoDup(s) && i < |s|
    ensures s[i] !in s[..i]
  {
    assert s == s[..i] + s[i..];
    NoDupAppend(s[..i], s[i..]);
  }

  lemma Smaller<T(!new)>(a: set<T>, b: set<T>, x: T)
    requires a <= b && x in b && x !in a
    ensures |a| < |b|
  {
    assert b == a + {x} + (b - a - {x});
  }

  lemma HeadBefore<T(!new)>(s: seq<T>, y: T)
    requires s != []
    ensures y in s && y != s[0] ==> Before(s, s[0], y)
  {
  }

  lemma LastBefore<T(!new)>(s: seq<T>, x: T)
    requires s != []
    ensures x in s && x != s[|s| - 1] ==> Before(s, x, s[|s| - 1])
  {
  }

  lemma PastPrefix<T(!new)>(s: seq<T>, i: nat, x: T) returns (j: nat)
    requires i <= |s| && x in s && x !in s[..i]
    ensures i <= j < |s| && s[j] == x
  {
    assert s == s[..i] + s[i..];
    var m :| 0 <= m < |s| - i && s[i..][m] == x;
    j := i + m;
  }
}
