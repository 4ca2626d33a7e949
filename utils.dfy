/** Order-preserving de-duplication, the fallback `unique` generator of the archive
    utilities. `Unique` is the branch without a key (the `seen` set holds elements),
    `UniqueBy` the branch with a key (the `seen` set holds keys). Both are specified by
    recursive functions over the remaining input and the keys seen so far. */
module Utils {

  /** No element occurs twice. */
  predicate Distinct<T(==)>(xs: seq<T>) {
    forall i, j :: 0 <= i < j < |xs| ==> xs[i] != xs[j]
  }

  /** `a` is obtained from `b` by deleting elements (relative order kept). */
  predicate SubsequenceOf<T(==)>(a: seq<T>, b: seq<T>)
    decreases |b|
  {
    && |a| <= |b|
    && (a == [] || (b != [] && ((a[0] == b[0] && SubsequenceOf(a[1..], b[1..])) || SubsequenceOf(a, b[1..]))))
  }

  /** What `unique(xs)` yields when `seen` already holds the given elements. */
  function DedupFrom<T(==)>(xs: seq<T>, seen: set<T>): seq<T>
  {
    if xs == [] then []
    else if xs[0] in seen then DedupFrom(xs[1..], seen)
    else [xs[0]] + DedupFrom(xs[1..], seen + {xs[0]})
  }

  /** What `unique(xs, key)` yields when `seen` already holds the given keys. */
  function DedupByFrom<T, K(==)>(xs: seq<T>, key: T -> K, seen: set<K>): seq<T>
  {
    if xs == [] then []
    else if key(xs[0]) in seen then DedupByFrom(xs[1..], key, seen)
    else [xs[0]] + DedupByFrom(xs[1..], key, seen + {key(xs[0])})
  }

  /** The first element of `xs` whose key is `k`, if any. */
  function FirstWithKey<T, K(==)>(xs: seq<T>, key: T -> K, k: K): Option<T>
  {
    if xs == [] then None
    else if key(xs[0]) == k then Some(xs[0])
    else FirstWithKey(xs[1..], key, k)
  }

  datatype Option<T> = None | Some(value: T)

  function Identity<T>(x: T): T { x }

  /** `unique(iterable)` without a key: a loop over the input that skips every element
      already in `seen` and adds each yielded one to it. */
  method Unique<T(==)>(xs: seq<T>) returns (ys: seq<T>)
    ensures ys == DedupFrom(xs, {})
  {
    var seen: set<T> := {};
    ys := [];
    var i := 0;
    while i < |xs|
      invariant 0 <= i <= |xs|
      invariant ys + DedupFrom(xs[i..], seen) == DedupFrom(xs, {})
    {
      var element := xs[i];
      assert xs[i..][1..] == xs[i + 1..];
      if element !in seen {
        seen := seen + {element};
        ys := ys + [element];
      }
      i := i + 1;
    }
  }

  /** `unique(iterable, key)`: an element is yielded when its key is not yet in `seen`,
      and its key is then added. */
  method UniqueBy<T, K(==)>(xs: seq<T>, key: T -> K) returns (ys: seq<T>)
    ensures ys == DedupByFrom(xs, key, {})
  {
    var seen: set<K> := {};
    ys := [];
    var i := 0;
    while i < |xs|
      invariant 0 <= i <= |xs|
      invariant ys + DedupByFrom(xs[i..], key, seen) == DedupByFrom(xs, key, {})
    {
      var element := xs[i];
      var k := key(element);
      assert xs[i..][1..] == xs[i + 1..];
      if k !in seen {
        seen := seen + {k};
        ys := ys + [element];
      }
      i := i + 1;
    }
  }

  /** The key-less branch is the keyed one with the identity as key. */
  lemma {:induction false} DedupIsDedupByIdentity<T>(xs: seq<T>, seen: set<T>)
    ensures DedupFrom(xs, seen) == DedupByFrom(xs, Identity, seen)
    decreases |xs|
  {
    if xs != [] {
      DedupIsDedupByIdentity(xs[1..], seen);
      DedupIsDedupByIdentity(xs[1..], seen + {xs[0]});
    }
  }

  /** Every element yielded is in the input and was not seen before; every input element
      not seen before is yielded. */
  lemma {:induction false} DedupMembers<T>(xs: seq<T>, seen: set<T>)
    ensures forall x :: x in DedupFrom(xs, seen) <==> x in xs && x !in seen
    decreases |xs|
  {
    if xs != [] {
      DedupMembers(xs[1..], seen);
      DedupMembers(xs[1..], seen + {xs[0]});
      assert xs == [xs[0]] + xs[1..];
    }
  }

  /** No element is yielded twice. */
  lemma {:induction false} DedupDistinct<T>(xs: seq<T>, seen: set<T>)
    ensures Distinct(DedupFrom(xs, seen))
    decreases |xs|
  {
    if xs != [] {
      if xs[0] !in seen {
        DedupDistinct(xs[1..], seen + {xs[0]});
        DedupMembers(xs[1..], seen + {xs[0]});
      } else {
        DedupDistinct(xs[1..], seen);
      }
    }
  }

  /** The output keeps the input's relative order. */
  lemma {:induction false} DedupSubsequence<T>(xs: seq<T>, seen: set<T>)
    ensures SubsequenceOf(DedupFrom(xs, seen), xs)
    decreases |xs|
  {
    if xs != [] {
      if xs[0] in seen {
        DedupSubsequence(xs[1..], seen);
      } else {
        var rest := DedupFrom(xs[1..], seen + {xs[0]});
        DedupSubsequence(xs[1..], seen + {xs[0]});
        assert ([xs[0]] + rest)[1..] == rest;
      }
    }
  }

  /** De-duplicating a concatenation: the second part is de-duplicated against everything
      the first part contains. */
  lemma {:induction false} DedupAppend<T>(xs: seq<T>, ys: seq<T>, seen: set<T>)
    ensures DedupFrom(xs + ys, seen) == DedupFrom(xs, seen) + DedupFrom(ys, seen + set x | x in xs)
    decreases |xs|
  {
    if xs == [] {
      assert xs + ys == ys;
      assert seen + (set x | x in xs) == seen;
    } else {
      assert (xs + ys)[1..] == xs[1..] + ys;
      var seen' := if xs[0] in seen then seen else seen + {xs[0]};
      DedupAppend(xs[1..], ys, seen');
      assert seen' + (set x | x in xs[1..]) == seen + (set x | x in xs);
    }
  }

  /** A list without repetitions, none of whose elements was seen before, comes out
      unchanged. */
  lemma {:induction false} DedupOfDistinct<T>(xs: seq<T>, seen: set<T>)
    requires Distinct(xs)
    requires forall x :: x in xs ==> x !in seen
    ensures DedupFrom(xs, seen) == xs
    decreases |xs|
  {
    if xs != [] {
      var tail := xs[1..];
      assert Distinct(tail) by {
        forall i, j | 0 <= i < j < |tail| ensures tail[i] != tail[j] {
          assert tail[i] == xs[i + 1] && tail[j] == xs[j + 1];
        }
      }
      forall x | x in tail ensures x !in seen + {xs[0]} {
        var k :| 0 <= k < |tail| && tail[k] == x;
        assert xs[k + 1] == x;
      }
      DedupOfDistinct(tail, seen + {xs[0]});
    }
  }

  /** With a key, the keys of the yielded elements are pairwise distinct and none of them
      was seen before. */
  lemma {:induction false} DedupByKeysDistinct<T, K>(xs: seq<T>, key: T -> K, seen: set<K>)
    ensures forall y :: y in DedupByFrom(xs, key, seen) ==> key(y) !in seen
    ensures forall i, j :: 0 <= i < j < |DedupByFrom(xs, key, seen)| ==>
              key(DedupByFrom(xs, key, seen)[i]) != key(DedupByFrom(xs, key, seen)[j])
    decreases |xs|
  {
    if xs != [] {
      if key(xs[0]) in seen {
        DedupByKeysDistinct(xs[1..], key, seen);
      } else {
        DedupByKeysDistinct(xs[1..], key, seen + {key(xs[0])});
      }
    }
  }

  /** With a key, every key occurring in the input (and not seen before) is the key of a
      yielded element. */
  lemma {:induction false} DedupByCoversKeys<T, K>(xs: seq<T>, key: T -> K, seen: set<K>)
    ensures forall x :: x in xs && key(x) !in seen ==>
              key(x) in (set y | y in DedupByFrom(xs, key, seen) :: key(y))
    decreases |xs|
  {
    if xs != [] {
      var seen' := if key(xs[0]) in seen then seen else seen + {key(xs[0])};
      DedupByCoversKeys(xs[1..], key, seen');
      assert xs == [xs[0]] + xs[1..];
    }
  }

  /** With a key, each yielded element is the first element of the input that carries its
      key: the first representative is kept. */
  lemma {:induction false} DedupByKeepsFirst<T, K>(xs: seq<T>, key: T -> K, seen: set<K>)
    ensures forall y :: y in DedupByFrom(xs, key, seen) ==>
              key(y) !in seen && FirstWithKey(xs, key, key(y)) == Some(y)
    decreases |xs|
  {
    if xs != [] {
      if key(xs[0]) in seen {
        DedupByKeepsFirst(xs[1..], key, seen);
      } else {
        DedupByKeepsFirst(xs[1..], key, seen + {key(xs[0])});
      }
    }
  }

  /** With a key, the output keeps the input's relative order. */
  lemma {:induction false} DedupBySubsequence<T, K>(xs: seq<T>, key: T -> K, seen: set<K>)
    ensures SubsequenceOf(DedupByFrom(xs, key, seen), xs)
    decreases |xs|
  {
    if xs != [] {
      if key(xs[0]) in seen {
        DedupBySubsequence(xs[1..], key, seen);
      } else {
        var rest := DedupByFrom(xs[1..], key, seen + {key(xs[0])});
        DedupBySubsequence(xs[1..], key, seen + {key(xs[0])});
        assert ([xs[0]] + rest)[1..] == rest;
      }
    }
  }

  /** ASCII lower-casing, enough for the key used in the examples below. */
  function Lower(c: char): char
  {
    if 'A' <= c <= 'Z' then (c as int - 'A' as int + 'a' as int) as char else c
  }

  /** One step of the key-less recursion, on an explicit head and tail. */
  lemma DedupCons<T>(x: T, rest: seq<T>, seen: set<T>)
    ensures DedupFrom([x] + rest, seen) ==
            if x in seen then DedupFrom(rest, seen) else [x] + DedupFrom(rest, seen + {x})
  {
    assert ([x] + rest)[1..] == rest;
  }

  /** One step of the keyed recursion, on an explicit head and tail. */
  lemma DedupByCons<T, K>(x: T, rest: seq<T>, key: T -> K, seen: set<K>)
    ensures DedupByFrom([x] + rest, key, seen) ==
            if key(x) in seen then DedupByFrom(rest, key, seen) else [x] + DedupByFrom(rest, key, seen + {key(x)})
  {
    assert ([x] + rest)[1..] == rest;
  }

  /** `n` copies of `x`. */
  function Repeat<T>(x: T, n: nat): (r: seq<T>)
    ensures |r| == n && forall i :: 0 <= i < n ==> r[i] == x
  {
    seq(n, _ => x)
  }

  /** Elements that were all seen before are skipped. */
  lemma {:induction false} DedupSkip<T>(run: seq<T>, rest: seq<T>, seen: set<T>)
    requires forall i :: 0 <= i < |run| ==> run[i] in seen
    ensures DedupFrom(run + rest, seen) == DedupFrom(rest, seen)
    decreases |run|
  {
    if run != [] {
      var tail := run[1..];
      DedupCons(run[0], tail + rest, seen);
      assert run + rest == [run[0]] + (tail + rest);
      assert forall i :: 0 <= i < |tail| ==> tail[i] == run[i + 1];
      DedupSkip(tail, rest, seen);
    } else {
      assert run + rest == rest;
    }
  }

  /** A run of `n` copies of `x`: yielded once if `x` is new, not at all otherwise. */
  lemma DedupRun<T>(x: T, n: nat, rest: seq<T>, seen: set<T>)
    requires n >= 1
    ensures DedupFrom(Repeat(x, n) + rest, seen) ==
            (if x in seen then [] else [x]) + DedupFrom(rest, seen + {x})
  {
    var run := Repeat(x, n);
    var tail := run[1..];
    DedupCons(x, tail + rest, seen);
    assert run + rest == [x] + (tail + rest);
    if x in seen {
      assert seen + {x} == seen;
    }
    assert forall i :: 0 <= i < |tail| ==> tail[i] == x;
    DedupSkip(tail, rest, seen + {x});
  }

  /** Elements whose keys were all seen before are skipped. */
  lemma {:induction false} DedupBySkip<T, K>(run: seq<T>, rest: seq<T>, key: T -> K, seen: set<K>)
    requires forall i :: 0 <= i < |run| ==> key(run[i]) in seen
    ensures DedupByFrom(run + rest, key, seen) == DedupByFrom(rest, key, seen)
    decreases |run|
  {
    if run != [] {
      var tail := run[1..];
      DedupByCons(run[0], tail + rest, key, seen);
      assert run + rest == [run[0]] + (tail + rest);
      assert forall i :: 0 <= i < |tail| ==> tail[i] == run[i + 1];
      DedupBySkip(tail, rest, key, seen);
    } else {
      assert run + rest == rest;
    }
  }

  /** A run of elements sharing the key `k`: its first element is yielded if `k` is new,
      and nothing else of it. */
  lemma DedupByRun<T, K>(run: seq<T>, rest: seq<T>, key: T -> K, k: K, seen: set<K>)
    requires run != [] && forall i :: 0 <= i < |run| ==> key(run[i]) == k
    ensures DedupByFrom(run + rest, key, seen) ==
            (if k in seen then [] else [run[0]]) + DedupByFrom(rest, key, seen + {k})
  {
    var tail := run[1..];
    DedupByCons(run[0], tail + rest, key, seen);
    assert run + rest == [run[0]] + (tail + rest);
    if k in seen {
      assert seen + {k} == seen;
    }
    assert forall i :: 0 <= i < |tail| ==> tail[i] == run[i + 1];
    DedupBySkip(tail, rest, key, seen + {k});
  }

  /** Worked example without a key: 'AAABBCCCCDD' gives 'ABCD'. */
  lemma UniqueExampleRuns(xs: string)
    requires xs == "AAABBCCCCDD"
    ensures DedupFrom(xs, {}) == "ABCD"
  {
    var a, b, c, d := Repeat('A', 3), Repeat('B', 2), Repeat('C', 4), Repeat('D', 2);
    var s0: set<char> := {};
    var s1 := s0 + {'A'};
    var s2 := s1 + {'B'};
    var s3 := s2 + {'C'};
    assert xs == a + (b + (c + (d + [])));
    DedupRun('D', 2, [], s3);
    DedupRun('C', 4, d + [], s2);
    DedupRun('B', 2, c + (d + []), s1);
    DedupRun('A', 3, b + (c + (d + [])), s0);
  }

  /** The part of the mixed-case example after 'AaAA', as runs of equal characters. */
  lemma UniqueExampleMixedCaseTail(seen: set<char>)
    requires 'B' !in seen && 'b' !in seen && 'C' !in seen && 'D' !in seen && 'd' !in seen
    ensures DedupFrom(Repeat('B', 1) + (Repeat('b', 1) + (Repeat('C', 3) + (Repeat('D', 1) + Repeat('d', 1)))), seen)
            == "BbCDd"
  {
    var s1 := seen + {'B'};
    var s2 := s1 + {'b'};
    var s3 := s2 + {'C'};
    var s4 := s3 + {'D'};
    var r4 := Repeat('d', 1);
    var r3 := Repeat('D', 1) + r4;
    var r2 := Repeat('C', 3) + r3;
    var r1 := Repeat('b', 1) + r2;
    assert r4 == Repeat('d', 1) + [];
    DedupRun('d', 1, [], s4);
    DedupRun('D', 1, r4, s3);
    DedupRun('C', 3, r3, s2);
    DedupRun('b', 1, r2, s1);
    DedupRun('B', 1, r1, seen);
  }

  /** Worked example without a key, where case matters: 'AaAABbCCCDd' gives 'AaBbCDd'. */
  lemma UniqueExampleMixedCase(xs: string)
    requires xs == "AaAABbCCCDd"
    ensures DedupFrom(xs, {}) == "AaBbCDd"
  {
    var tail := Repeat('B', 1) + (Repeat('b', 1) + (Repeat('C', 3) + (Repeat('D', 1) + Repeat('d', 1))));
    var s0: set<char> := {};
    var s1 := s0 + {'A'};
    var s2 := s1 + {'a'};
    var r2 := Repeat('A', 2) + tail;
    var r1 := Repeat('a', 1) + r2;
    assert DedupFrom(r2, s2) == "BbCDd" by {
      assert s2 + {'A'} == s2 && 'A' in s2;
      UniqueExampleMixedCaseTail(s2);
      DedupRun('A', 2, tail, s2);
    }
    assert DedupFrom(r1, s1) == ['a'] + "BbCDd" by {
      assert 'a' !in s1;
      DedupRun('a', 1, r2, s1);
    }
    assert DedupFrom(Repeat('A', 1) + r1, s0) == ['A'] + (['a'] + "BbCDd") by {
      DedupRun('A', 1, r1, s0);
    }
    assert xs == Repeat('A', 1) + r1 by {
      assert xs == Repeat('A', 1) + (Repeat('a', 1) + (Repeat('A', 2) + (Repeat('B', 1) + (Repeat('b', 1) + (Repeat('C', 3) + (Repeat('D', 1) + Repeat('d', 1)))))));
    }
  }

  /** The part of the keyed example after 'AaBb'. */
  lemma UniqueExampleLowerKeyTail(rest: string, seen: set<char>)
    requires rest == "cCDd" && seen == {'a', 'b'}
    ensures DedupByFrom(rest, Lower, seen) == "cD"
  {
    var s1 := seen + {'c'};
    assert Lower('c') == 'c' && Lower('C') == 'c' && Lower('D') == 'd' && Lower('d') == 'd';
    assert rest == "cC" + ("Dd" + []);
    DedupByRun("Dd", [], Lower, 'd', s1);
    DedupByRun("cC", "Dd" + [], Lower, 'c', seen);
  }

  /** Worked example with a key: 'AaBbcCDd' keyed by lower case gives 'ABcD'. */
  lemma UniqueExampleLowerKey()
    ensures DedupByFrom("AaBbcCDd", Lower, {}) == "ABcD"
  {
    var tail := "cCDd";
    var s0: set<char> := {};
    var s1 := s0 + {'a'};
    var s2 := s1 + {'b'};
    UniqueExampleLowerKeyTail(tail, s2);
    assert Lower('A') == 'a' && Lower('a') == 'a' && Lower('B') == 'b' && Lower('b') == 'b';
    assert "AaBbcCDd" == "Aa" + ("Bb" + tail);
    DedupByRun("Bb", tail, Lower, 'b', s1);
    DedupByRun("Aa", "Bb" + tail, Lower, 'a', s0);
  }
}
