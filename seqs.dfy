/** Generic facts about sequences: order-preserving subsequences, removal of
    later duplicates by a key (what `new Set(...)` and the finding
    deduplicator do), and splitting a list into pages. */
module Seqs {

  /** `a` is `b` with some elements left out, the rest kept in order. */
  predicate IsSubseq<T(==)>(a: seq<T>, b: seq<T>)
    decreases |b|
  {
    if a == [] then true
    else if b == [] then false
    else if a[|a| - 1] == b[|b| - 1] then IsSubseq(a[..|a| - 1], b[..|b| - 1])
    else IsSubseq(a, b[..|b| - 1])
  }

  lemma {:induction false} SubseqLength<T>(a: seq<T>, b: seq<T>)
    requires IsSubseq(a, b)
    ensures |a| <= |b|
    decreases |b|
  {
    if a != [] {
      if a[|a| - 1] == b[|b| - 1] {
        SubseqLength(a[..|a| - 1], b[..|b| - 1]);
      } else {
        SubseqLength(a, b[..|b| - 1]);
      }
    }
  }

  lemma {:induction false} SubseqElements<T>(a: seq<T>, b: seq<T>)
    requires IsSubseq(a, b)
    ensures forall x :: x in a ==> x in b
    decreases |b|
  {
    if a != [] {
      if a[|a| - 1] == b[|b| - 1] {
        SubseqElements(a[..|a| - 1], b[..|b| - 1]);
        assert a == a[..|a| - 1] + [a[|a| - 1]];
        assert b == b[..|b| - 1] + [b[|b| - 1]];
      } else {
        SubseqElements(a, b[..|b| - 1]);
        assert b == b[..|b| - 1] + [b[|b| - 1]];
      }
    }
  }

  lemma {:induction false} SubseqSkip<T>(a: seq<T>, b: seq<T>, x: T)
    requires IsSubseq(a, b)
    ensures IsSubseq(a, b + [x])
    decreases |b|, 1
  {
    assert (b + [x])[..|b|] == b;
    if a != [] && a[|a| - 1] == x {
      SubseqDropLast(a, b);
    }
  }

  lemma {:induction false} SubseqDropLast<T>(a: seq<T>, b: seq<T>)
    requires a != [] && IsSubseq(a, b)
    ensures IsSubseq(a[..|a| - 1], b)
    decreases |b|, 0
  {
    var a', b' := a[..|a| - 1], b[..|b| - 1];
    assert b' + [b[|b| - 1]] == b;
    if a[|a| - 1] != b[|b| - 1] {
      SubseqDropLast(a, b');
    }
    SubseqSkip(a', b', b[|b| - 1]);
  }

  lemma SubseqKeep<T>(a: seq<T>, b: seq<T>, x: T)
    requires IsSubseq(a, b)
    ensures IsSubseq(a + [x], b + [x])
  {
    assert (a + [x])[..|a|] == a;
    assert (b + [x])[..|b|] == b;
  }

  lemma {:induction false} SubseqRefl<T>(a: seq<T>)
    ensures IsSubseq(a, a)
    decreases |a|
  {
    if a != [] {
      SubseqRefl(a[..|a| - 1]);
    }
  }

  /** The keys of the elements of `s`. */
  function Keys<T, K>(s: seq<T>, key: T -> K): set<K>
    decreases |s|
  {
    if s == [] then {} else Keys(s[..|s| - 1], key) + {key(s[|s| - 1])}
  }

  lemma {:induction false} KeyAt<T, K>(s: seq<T>, key: T -> K, i: nat)
    requires i < |s|
    ensures key(s[i]) in Keys(s, key)
    decreases |s|
  {
    if i < |s| - 1 {
      KeyAt(s[..|s| - 1], key, i);
    }
  }

  lemma {:induction false} KeyIndex<T, K>(s: seq<T>, key: T -> K, k: K) returns (i: nat)
    requires k in Keys(s, key)
    ensures i < |s| && key(s[i]) == k
    decreases |s|
  {
    if k == key(s[|s| - 1]) {
      i := |s| - 1;
    } else {
      i := KeyIndex(s[..|s| - 1], key, k);
    }
  }

  lemma {:induction false} NotInKeys<T, K>(s: seq<T>, key: T -> K, k: K)
    requires forall i :: 0 <= i < |s| ==> key(s[i]) != k
    ensures k !in Keys(s, key)
    decreases |s|
  {
    if s != [] {
      NotInKeys(s[..|s| - 1], key, k);
    }
  }

  lemma KeysSnoc<T, K>(s: seq<T>, x: T, key: T -> K)
    ensures Keys(s + [x], key) == Keys(s, key) + {key(x)}
  {
    assert (s + [x])[..|s|] == s;
  }

  predicate KeysDistinct<T, K(==)>(s: seq<T>, key: T -> K) {
    forall i, j :: 0 <= i < j < |s| ==> key(s[i]) != key(s[j])
  }

  /** Index `i` holds the first element of `s` with its key. */
  predicate IsFirstOccurrence<T, K(==)>(s: seq<T>, key: T -> K, i: int)
    requires 0 <= i < |s|
  {
    forall j :: 0 <= j < i ==> key(s[j]) != key(s[i])
  }

  /** The elements of `s` whose key has not been seen before, in order:
      the first occurrence of every key. */
  function DedupeBy<T, K(==)>(s: seq<T>, key: T -> K): seq<T>
    decreases |s|
  {
    if s == [] then []
    else
      var d := DedupeBy(s[..|s| - 1], key);
      if key(s[|s| - 1]) in Keys(d, key) then d else d + [s[|s| - 1]]
  }

  /** The result is an order-preserving subsequence of the input. */
  lemma {:induction false} DedupeIsSubseq<T, K>(s: seq<T>, key: T -> K)
    ensures IsSubseq(DedupeBy(s, key), s)
    ensures |DedupeBy(s, key)| <= |s|
    decreases |s|
  {
    if s != [] {
      var p, last := s[..|s| - 1], s[|s| - 1];
      var d := DedupeBy(p, key);
      DedupeIsSubseq(p, key);
      assert p + [last] == s;
      if key(last) in Keys(d, key) {
        SubseqSkip(d, p, last);
      } else {
        SubseqKeep(d, p, last);
      }
    }
    SubseqLength(DedupeBy(s, key), s);
  }

  /** Every key of the input is the key of some output element. */
  lemma {:induction false} DedupeKeys<T, K>(s: seq<T>, key: T -> K)
    ensures Keys(DedupeBy(s, key), key) == Keys(s, key)
    decreases |s|
  {
    if s != [] {
      var p := s[..|s| - 1];
      DedupeKeys(p, key);
      if key(s[|s| - 1]) !in Keys(DedupeBy(p, key), key) {
        KeysSnoc(DedupeBy(p, key), s[|s| - 1], key);
      }
    }
  }

  /** No two output elements share a key. */
  lemma {:induction false} DedupeKeysDistinct<T, K>(s: seq<T>, key: T -> K)
    ensures KeysDistinct(DedupeBy(s, key), key)
    decreases |s|
  {
    if s != [] {
      var p := s[..|s| - 1];
      var d := DedupeBy(p, key);
      DedupeKeysDistinct(p, key);
      if key(s[|s| - 1]) !in Keys(d, key) {
        var d' := d + [s[|s| - 1]];
        forall i, j | 0 <= i < j < |d'| ensures key(d'[i]) != key(d'[j]) {
          if j == |d| {
            KeyAt(d, key, i);
          }
        }
      }
    }
  }

  /** A sequence whose keys are already distinct is left as it is. */
  lemma {:induction false} DedupeDistinct<T, K>(s: seq<T>, key: T -> K)
    requires KeysDistinct(s, key)
    ensures DedupeBy(s, key) == s
    decreases |s|
  {
    if s != [] {
      var p := s[..|s| - 1];
      DedupeDistinct(p, key);
      NotInKeys(p, key, key(s[|s| - 1]));
      assert p + [s[|s| - 1]] == s;
    }
  }

  /** Deduplicating twice is the same as deduplicating once. */
  lemma DedupeIdempotent<T, K>(s: seq<T>, key: T -> K)
    ensures DedupeBy(DedupeBy(s, key), key) == DedupeBy(s, key)
  {
    DedupeKeysDistinct(s, key);
    DedupeDistinct(DedupeBy(s, key), key);
  }

  /** The first occurrence of every key is kept. */
  lemma {:induction false} DedupeKeepsFirstOccurrences<T, K>(s: seq<T>, key: T -> K)
    ensures forall i :: 0 <= i < |s| && IsFirstOccurrence(s, key, i) ==> s[i] in DedupeBy(s, key)
    decreases |s|
  {
    if s != [] {
      var p, last := s[..|s| - 1], s[|s| - 1];
      DedupeKeepsFirstOccurrences(p, key);
      DedupeKeys(p, key);
      forall i | 0 <= i < |s| && IsFirstOccurrence(s, key, i) ensures s[i] in DedupeBy(s, key) {
        if i < |s| - 1 {
          assert IsFirstOccurrence(p, key, i);
        } else {
          NotInKeys(p, key, key(last));
        }
      }
    }
  }

  /** Every kept element is the first occurrence of its key. */
  lemma {:induction false} DedupeKeepsOnlyFirstOccurrences<T, K>(s: seq<T>, key: T -> K, x: T)
      returns (i: nat)
    requires x in DedupeBy(s, key)
    ensures i < |s| && s[i] == x && IsFirstOccurrence(s, key, i)
    decreases |s|
  {
    var p, last := s[..|s| - 1], s[|s| - 1];
    var d := DedupeBy(p, key);
    if x in d {
      i := DedupeKeepsOnlyFirstOccurrences(p, key, x);
      assert IsFirstOccurrence(p, key, i);
    } else {
      DedupeKeys(p, key);
      forall j | 0 <= j < |s| - 1 ensures key(s[j]) != key(last) {
        KeyAt(p, key, j);
      }
      i := |s| - 1;
    }
  }

  /** Kept elements come in the order of their first occurrences: the
      i-th and j-th kept elements, i < j, first occur at positions a < b. */
  lemma {:induction false} DedupeOrder<T, K>(s: seq<T>, key: T -> K, i: nat, j: nat) returns (a: nat, b: nat)
    requires i < j < |DedupeBy(s, key)|
    ensures a < b < |s| && s[a] == DedupeBy(s, key)[i] && s[b] == DedupeBy(s, key)[j]
    ensures IsFirstOccurrence(s, key, a) && IsFirstOccurrence(s, key, b)
    decreases |s|
  {
    var p, last := s[..|s| - 1], s[|s| - 1];
    var d := DedupeBy(p, key);
    if j < |d| {
      a, b := DedupeOrder(p, key, i, j);
      assert IsFirstOccurrence(p, key, a) && IsFirstOccurrence(p, key, b);
    } else {
      assert d[i] in d;
      a := DedupeKeepsOnlyFirstOccurrences(p, key, d[i]);
      assert IsFirstOccurrence(p, key, a);
      DedupeKeys(p, key);
      forall k | 0 <= k < |s| - 1 ensures key(s[k]) != key(last) {
        KeyAt(p, key, k);
      }
      b := |s| - 1;
    }
  }

  lemma {:induction false} DistinctKeysCount<T, K>(s: seq<T>, key: T -> K)
    requires KeysDistinct(s, key)
    ensures |Keys(s, key)| == |s|
    decreases |s|
  {
    if s != [] {
      var p := s[..|s| - 1];
      DistinctKeysCount(p, key);
      NotInKeys(p, key, key(s[|s| - 1]));
    }
  }

  /** The output has one element per distinct key of the input. */
  lemma DedupeLength<T, K>(s: seq<T>, key: T -> K)
    ensures |DedupeBy(s, key)| == |Keys(s, key)|
  {
    DedupeKeys(s, key);
    DedupeKeysDistinct(s, key);
    DistinctKeysCount(DedupeBy(s, key), key);
  }

  /** The concatenation of a list of pages. */
  function Flatten<T>(pages: seq<seq<T>>): seq<T>
    decreases |pages|
  {
    if pages == [] then [] else pages[0] + Flatten(pages[1..])
  }

  /** `s` cut into pages of `size` elements; only the last page may be
      shorter, and no page is empty. */
  function Chunks<T>(s: seq<T>, size: nat): (pages: seq<seq<T>>)
    requires size > 0
    ensures forall k :: 0 <= k < |pages| ==> 0 < |pages[k]| <= size
    ensures forall k :: 0 <= k < |pages| - 1 ==> |pages[k]| == size
    decreases |s|
  {
    if |s| == 0 then []
    else if |s| <= size then [s]
    else [s[..size]] + Chunks(s[size..], size)
  }

  lemma {:induction false} FlattenChunks<T>(s: seq<T>, size: nat)
    requires size > 0
    ensures Flatten(Chunks(s, size)) == s
    decreases |s|
  {
    if |s| > size {
      FlattenChunks(s[size..], size);
      assert s[..size] + s[size..] == s;
    }
  }

  /** The elements satisfying `p`, in order (`Array.prototype.filter`). */
  function Filter<T>(s: seq<T>, p: T -> bool): (r: seq<T>)
    ensures |r| <= |s|
    ensures forall k :: 0 <= k < |r| ==> p(r[k])
    decreases |s|
  {
    if s == [] then [] else (if p(s[0]) then [s[0]] else []) + Filter(s[1..], p)
  }

  lemma {:induction false} FilterAppend<T>(a: seq<T>, b: seq<T>, p: T -> bool)
    ensures Filter(a + b, p) == Filter(a, p) + Filter(b, p)
    decreases |a|
  {
    if a == [] {
      assert a + b == b;
    } else {
      assert (a + b)[1..] == a[1..] + b;
      FilterAppend(a[1..], b, p);
    }
  }

  /** An element satisfying `p` is kept. */
  lemma {:induction false} FilterKeeps<T>(s: seq<T>, p: T -> bool, i: nat) returns (k: nat)
    requires i < |s| && p(s[i])
    ensures k < |Filter(s, p)| && Filter(s, p)[k] == s[i]
    decreases |s|
  {
    if i == 0 {
      k := 0;
    } else {
      var k' := FilterKeeps(s[1..], p, i - 1);
      k := k' + (if p(s[0]) then 1 else 0);
    }
  }

  /** Every kept element comes from the input. */
  lemma {:induction false} FilterFrom<T>(s: seq<T>, p: T -> bool, k: nat) returns (i: nat)
    requires k < |Filter(s, p)|
    ensures i < |s| && s[i] == Filter(s, p)[k]
    decreases |s|
  {
    if p(s[0]) && k == 0 {
      i := 0;
    } else {
      var i' := FilterFrom(s[1..], p, if p(s[0]) then k - 1 else k);
      i := i' + 1;
    }
  }

  /** The filtered list is an order-preserving subsequence of the input. */
  lemma {:induction false} FilterIsSubseq<T>(s: seq<T>, p: T -> bool)
    ensures IsSubseq(Filter(s, p), s)
    decreases |s|
  {
    if s != [] {
      var init, x := s[..|s| - 1], s[|s| - 1];
      assert init + [x] == s;
      FilterAppend(init, [x], p);
      var one: seq<T> := [x];
      assert one[1..] == [];
      FilterIsSubseq(init, p);
      if p(x) {
        SubseqKeep(Filter(init, p), init, x);
      } else {
        assert Filter(s, p) == Filter(init, p);
        SubseqSkip(Filter(init, p), init, x);
      }
    }
  }

  /** `s` back to front (`Array.prototype.reverse`). */
  function Reverse<T>(s: seq<T>): (r: seq<T>)
    ensures |r| == |s|
    ensures forall k :: 0 <= k < |s| ==> r[k] == s[|s| - 1 - k]
    decreases |s|
  {
    if s == [] then [] else Reverse(s[1..]) + [s[0]]
  }

  /** A non-empty sequence is its prefix and its last element. */
  lemma DropLastAppend<T>(s: seq<T>)
    requires s != []
    ensures s[..|s| - 1] + [s[|s| - 1]] == s
  {
  }

  lemma AppendAssoc<T>(a: seq<T>, b: seq<T>, c: seq<T>)
    ensures a + (b + c) == (a + b) + c
  {
  }

  /** A prefix one longer is the prefix and the next element. */
  lemma TakeOneMore<T>(s: seq<T>, i: nat)
    requires i < |s|
    ensures s[..i + 1] == s[..i] + [s[i]]
  {
  }

  lemma ReverseReverse<T>(s: seq<T>)
    ensures Reverse(Reverse(s)) == s
  {
  }

  lemma ReverseAppend<T>(a: seq<T>, b: seq<T>)
    ensures Reverse(a + b) == Reverse(b) + Reverse(a)
  {
    assert forall k :: 0 <= k < |a| + |b| ==> Reverse(a + b)[k] == (Reverse(b) + Reverse(a))[k];
  }

  /** `f` maps a concatenation to the concatenation of the images, as
      `filter` and `map` do. */
  ghost predicate Distributes<T(!new), U>(f: seq<T> -> seq<U>) {
    forall a, b :: f(a + b) == f(a) + f(b)
  }

  /** What a page loop gathers from the responses `pages` (page 1 first):
      it stops at an empty page, and after a page shorter than `size`;
      `f` is applied to each page before it is appended. */
  function Collect<T, U>(pages: seq<seq<T>>, size: nat, f: seq<T> -> seq<U>): seq<U>
    decreases |pages|
  {
    if pages == [] || |pages[0]| == 0 then []
    else f(pages[0]) + (if |pages[0]| < size then [] else Collect(pages[1..], size, f))
  }

  /** Pages after a short one are never looked at. */
  lemma {:induction false} CollectIgnoresAfterShort<T, U>(pages: seq<seq<T>>, extra: seq<seq<T>>, size: nat, f: seq<T> -> seq<U>)
    requires pages != [] && |pages[|pages| - 1]| < size
    ensures Collect(pages + extra, size, f) == Collect(pages, size, f)
    decreases |pages|
  {
    var all := pages + extra;
    assert all[0] == pages[0];
    if |pages| > 1 && 0 < |pages[0]| && |pages[0]| >= size {
      assert all[1..] == pages[1..] + extra;
      CollectIgnoresAfterShort(pages[1..], extra, size, f);
    }
  }

  /** A whole list served in pages of `size` is gathered completely, and
      comes out as `f` of the list. */
  lemma {:induction false} CollectChunks<T(!new), U>(s: seq<T>, size: nat, f: seq<T> -> seq<U>)
    requires size > 0 && Distributes(f)
    ensures Collect(Chunks(s, size), size, f) == f(s)
    decreases |s|
  {
    if |s| > size {
      var pages := Chunks(s, size);
      assert pages[0] == s[..size] && pages[1..] == Chunks(s[size..], size);
      CollectChunks(s[size..], size, f);
      var a, b := s[..size], s[size..];
      assert a + b == s;
      assert f(a + b) == f(a) + f(b);
    } else if |s| > 0 {
      var e: seq<T> := [];
      assert s + e == s;
      assert f(s + e) == f(s) + f(e);
    } else {
      var e: seq<T> := [];
      assert e + e == e;
      assert f(e + e) == f(e) + f(e);
    }
  }
}
