/** Generic sequence helpers shared by the table model and the text pipeline. */
module Seqs {

  /** An ASCII decimal digit. */
  predicate IsDigit(c: char)
  {
    '0' <= c <= '9'
  }

  /** A non-empty sequence is its front followed by its last element. */
  lemma Snoc<T>(s: seq<T>)
    requires s != []
    ensures s[..|s| - 1] + [s[|s| - 1]] == s
  {
  }

  /** Two sequences with the same elements at the same positions are equal. */
  lemma Extensional<T>(a: seq<T>, b: seq<T>)
    requires |a| == |b| && forall i :: 0 <= i < |a| ==> a[i] == b[i]
    ensures a == b
  {
  }

  lemma SingletonInit<T>(x: T)
    ensures [x][..0] == [] && [x][0] == x
  {
  }

  lemma ConcatAssoc<T>(a: seq<T>, b: seq<T>, c: seq<T>)
    ensures a + b + c == a + (b + c)
  {
  }

  lemma AppendEmpty<T>(s: seq<T>)
    ensures s + [] == s
  {
  }

  /** Dropping the last element of a concatenation drops it from the second part. */
  lemma ConcatInit<T>(a: seq<T>, b: seq<T>)
    requires b != []
    ensures (a + b)[..|a + b| - 1] == a + b[..|b| - 1] && (a + b)[|a + b| - 1] == b[|b| - 1]
  {
  }

  /** A sequence is its prefix of length `n` followed by the rest. */
  lemma SplitAt<T>(s: seq<T>, n: nat)
    requires n <= |s|
    ensures s[..n] + s[n..] == s
  {
  }

  /** A non-empty sequence is its first element followed by the rest. */
  lemma Cons<T>(s: seq<T>)
    requires s != []
    ensures [s[0]] + s[1..] == s
  {
  }

  /** Growing a prefix by one element. */
  lemma PrefixStep<T>(s: seq<T>, i: nat)
    requires i < |s|
    ensures s[..i + 1] == s[..i] + [s[i]] && s[..i + 1][..i] == s[..i]
  {
  }

  /** The elements of `s` that satisfy `keep`, in their original order. */
  function Filter<T>(s: seq<T>, keep: T -> bool): (r: seq<T>)
    ensures |r| <= |s|
    ensures forall x :: x in r ==> x in s && keep(x)
  {
    if s == [] then []
    else Filter(s[..|s| - 1], keep) + (if keep(s[|s| - 1]) then [s[|s| - 1]] else [])
  }

  /** `f` applied to every element, in order. */
  function Map<A, B>(s: seq<A>, f: A -> B): (r: seq<B>)
    ensures |r| == |s| && forall i :: 0 <= i < |s| ==> r[i] == f(s[i])
  {
    seq(|s|, i requires 0 <= i < |s| => f(s[i]))
  }

  /** Mapping a prefix one element longer appends the image of that element. */
  lemma MapPrefix<A, B>(s: seq<A>, f: A -> B, i: nat)
    requires i <= |s|
    ensures Map(s[..0], f) == []
    ensures i < |s| ==> Map(s[..i + 1], f) == Map(s[..i], f) + [f(s[i])]
    ensures Map(s[..|s|], f) == Map(s, f)
  {
    assert s[..|s|] == s;
  }

  /** `a` is obtained from `b` by deleting elements (greedy match from the end). */
  predicate IsSubseq<T(==)>(a: seq<T>, b: seq<T>)
    decreases |b|
  {
    if a == [] then true
    else if b == [] then false
    else if a[|a| - 1] == b[|b| - 1] then IsSubseq(a[..|a| - 1], b[..|b| - 1])
    else IsSubseq(a, b[..|b| - 1])
  }

  lemma {:induction false} SubseqRefl<T>(s: seq<T>)
    ensures IsSubseq(s, s)
    decreases |s|
  {
    if s != [] { SubseqRefl(s[..|s| - 1]); }
  }

  lemma {:induction false} SubseqExtend<T>(a: seq<T>, b: seq<T>, x: T)
    requires IsSubseq(a, b)
    ensures IsSubseq(a, b + [x])
    decreases |a| + |b|, 1
  {
    var b' := b + [x];
    assert b'[..|b'| - 1] == b;
    if a != [] && a[|a| - 1] == x {
      SubseqDrop(a, b);
    }
  }

  lemma {:induction false} SubseqDrop<T>(a: seq<T>, b: seq<T>)
    requires a != [] && IsSubseq(a, b)
    ensures IsSubseq(a[..|a| - 1], b)
    decreases |a| + |b|, 0
  {
    var a', b' := a[..|a| - 1], b[..|b| - 1];
    assert b' + [b[|b| - 1]] == b;
    if a[|a| - 1] == b[|b| - 1] {
      SubseqExtend(a', b', b[|b| - 1]);
    } else {
      SubseqDrop(a, b');
      SubseqExtend(a', b', b[|b| - 1]);
    }
  }

  /** Deleting from the front: a prefix element may be skipped or matched. */
  lemma {:induction false} SubseqConsRight<T>(a: seq<T>, b: seq<T>, x: T)
    requires IsSubseq(a, b)
    ensures IsSubseq(a, [x] + b)
    decreases |a| + |b|
  {
    if a != [] {
      var b' := b[..|b| - 1];
      assert ([x] + b)[..|[x] + b| - 1] == [x] + b';
      if a[|a| - 1] == b[|b| - 1] {
        SubseqConsRight(a[..|a| - 1], b', x);
      } else {
        SubseqConsRight(a, b', x);
      }
    }
  }

  lemma {:induction false} SubseqConsBoth<T>(a: seq<T>, b: seq<T>, x: T)
    requires IsSubseq(a, b)
    ensures IsSubseq([x] + a, [x] + b)
    decreases |a| + |b|
  {
    if b == [] {
      assert [x] + b == [x] + a;
      assert ([x] + a)[..1 - 1] == [];
    } else {
      var b' := b[..|b| - 1];
      assert ([x] + b)[..|[x] + b| - 1] == [x] + b';
      if a == [] {
        if b[|b| - 1] != x {
          SubseqConsBoth(a, b', x);
        }
      } else {
        assert ([x] + a)[..|[x] + a| - 1] == [x] + a[..|a| - 1];
        if a[|a| - 1] == b[|b| - 1] {
          SubseqConsBoth(a[..|a| - 1], b', x);
        } else {
          SubseqConsBoth(a, b', x);
        }
      }
    }
  }

  /** Every element of a subsequence occurs in the sequence it was taken from. */
  lemma {:induction false} SubseqMember<T>(a: seq<T>, b: seq<T>, x: T)
    requires IsSubseq(a, b) && x in a
    ensures x in b
    decreases |b|
  {
    var b' := b[..|b| - 1];
    assert b == b' + [b[|b| - 1]];
    if a[|a| - 1] == b[|b| - 1] {
      assert a == a[..|a| - 1] + [a[|a| - 1]];
      if x != a[|a| - 1] {
        SubseqMember(a[..|a| - 1], b', x);
      }
    } else {
      SubseqMember(a, b', x);
    }
  }

  /** Filtering only deletes: the kept elements form a subsequence of the input. */
  lemma {:induction false} FilterIsSubseq<T>(s: seq<T>, keep: T -> bool)
    ensures IsSubseq(Filter(s, keep), s)
    decreases |s|
  {
    if s != [] {
      var init := s[..|s| - 1];
      FilterIsSubseq(init, keep);
      assert init + [s[|s| - 1]] == s;
      if keep(s[|s| - 1]) {
        assert Filter(s, keep)[..|Filter(s, keep)| - 1] == Filter(init, keep);
      } else {
        SubseqExtend(Filter(init, keep), init, s[|s| - 1]);
        assert Filter(s, keep) == Filter(init, keep);
      }
    }
  }

  /** Filtering keeps every occurrence of a kept value and no occurrence of a dropped one. */
  lemma {:induction false} FilterCount<T>(s: seq<T>, keep: T -> bool, x: T)
    ensures multiset(Filter(s, keep))[x] == if keep(x) then multiset(s)[x] else 0
    decreases |s|
  {
    if s != [] {
      var init := s[..|s| - 1];
      FilterCount(init, keep, x);
      assert s == init + [s[|s| - 1]];
      assert multiset(s) == multiset(init) + multiset{s[|s| - 1]};
    }
  }

  /** A value survives filtering exactly when it occurs in the input and is kept. */
  lemma FilterMember<T>(s: seq<T>, keep: T -> bool, x: T)
    ensures x in Filter(s, keep) <==> x in s && keep(x)
  {
    FilterCount(s, keep, x);
  }

  /** Filtering distributes over concatenation. */
  lemma {:induction false} FilterConcat<T>(a: seq<T>, b: seq<T>, keep: T -> bool)
    ensures Filter(a + b, keep) == Filter(a, keep) + Filter(b, keep)
    decreases |b|
  {
    if b != [] {
      var b' := b[..|b| - 1];
      assert (a + b)[..|a + b| - 1] == a + b';
      FilterConcat(a, b', keep);
    } else {
      assert a + b == a;
    }
  }

  /** Filtering twice is filtering once by the conjunction of the two predicates. */
  lemma {:induction false} FilterTwice<T>(s: seq<T>, p: T -> bool, q: T -> bool, both: T -> bool)
    requires forall x :: both(x) == (p(x) && q(x))
    ensures Filter(Filter(s, p), q) == Filter(s, both)
    decreases |s|
  {
    if s != [] {
      var init := s[..|s| - 1];
      var last := s[|s| - 1];
      FilterTwice(init, p, q, both);
      FilterConcat(Filter(init, p), if p(last) then [last] else [], q);
      assert Filter([last], q) == Filter([], q) + (if q(last) then [last] else []) by {
        assert [last][..0] == [];
      }
    }
  }

  /** Filtering a sequence with a given first element. */
  lemma FilterCons<T>(x: T, s: seq<T>, keep: T -> bool)
    ensures Filter([x] + s, keep) == (if keep(x) then [x] else []) + Filter(s, keep)
  {
    FilterConcat([x], s, keep);
    FilterSingle(x, keep);
  }

  /** Some kept element has property `p` exactly when some element of the input is kept and has it. */
  lemma FilterExists<T>(s: seq<T>, keep: T -> bool, p: T -> bool)
    ensures (exists j :: 0 <= j < |Filter(s, keep)| && p(Filter(s, keep)[j])) <==>
            (exists i :: 0 <= i < |s| && keep(s[i]) && p(s[i]))
  {
    var r := Filter(s, keep);
    if exists j :: 0 <= j < |r| && p(r[j]) {
      var j :| 0 <= j < |r| && p(r[j]);
      assert r[j] in r;
      var i :| 0 <= i < |s| && s[i] == r[j];
    }
    if exists i :: 0 <= i < |s| && keep(s[i]) && p(s[i]) {
      var i :| 0 <= i < |s| && keep(s[i]) && p(s[i]);
      FilterMember(s, keep, s[i]);
      var j :| 0 <= j < |r| && r[j] == s[i];
    }
  }

  lemma FilterSingle<T>(x: T, keep: T -> bool)
    ensures Filter([x], keep) == if keep(x) then [x] else []
  {
    assert [x][..0] == [];
  }

  /** A filter that keeps nothing gives the empty sequence. */
  lemma FilterNone<T>(s: seq<T>, keep: T -> bool)
    requires forall x :: x in s ==> !keep(x)
    ensures Filter(s, keep) == []
  {
    if Filter(s, keep) != [] {
      assert Filter(s, keep)[0] in Filter(s, keep);
      assert false;
    }
  }

  /** A filter that keeps everything is the identity. */
  lemma {:induction false} FilterAll<T>(s: seq<T>, keep: T -> bool)
    requires forall x :: x in s ==> keep(x)
    ensures Filter(s, keep) == s
    decreases |s|
  {
    if s != [] {
      var init := s[..|s| - 1];
      Snoc(s);
      forall x | x in init ensures keep(x) {
        assert x in init + [s[|s| - 1]];
      }
      FilterAll(init, keep);
    }
  }
}
