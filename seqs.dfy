/** The DOM child-list operations the application relies on (removeChild,
    appendChild, insertBefore), stated on sequences of element ids, with the
    facts about them that the drag, reorder and delete code needs. */
module Seqs {

  /** Elements are identified by a string: a tab's `data-section`, a card's
      `data-card-id`, a section's id. */
  type Id = string

  /** No element occurs twice: a DOM node has at most one position among its
      parent's children. */
  predicate Distinct(s: seq<Id>) {
    forall i, j :: 0 <= i < j < |s| ==> s[i] != s[j]
  }

  /** `s` with every member of `xs` left out, in the original order. */
  function Without(s: seq<Id>, xs: set<Id>): (r: seq<Id>)
    ensures |r| <= |s|
  {
    if s == [] then []
    else (if s[0] in xs then [] else [s[0]]) + Without(s[1..], xs)
  }

  /** `parent.removeChild(x)` (and `x.remove()`): `x` leaves the list. */
  function Remove(s: seq<Id>, x: Id): (r: seq<Id>)
  {
    Without(s, {x})
  }

  /** The first position of `x` in `s`. */
  function IndexOf(s: seq<Id>, x: Id): (k: nat)
    requires x in s
    ensures k < |s| && s[k] == x && x !in s[..k]
  {
    if s[0] == x then 0 else 1 + IndexOf(s[1..], x)
  }

  /** `parent.appendChild(x)`: `x` is detached from where it was and becomes
      the last child. */
  function Appended(s: seq<Id>, x: Id): (r: seq<Id>)
  {
    Remove(s, x) + [x]
  }

  /** `parent.insertBefore(x, ref)` for a reference child `ref` other than
      `x`: `x` is detached and re-inserted just before `ref`. */
  function InsertedBefore(s: seq<Id>, x: Id, ref: Id): (r: seq<Id>)
    requires ref in s && ref != x
  {
    var t := Remove(s, x);
    WithoutIn(s, {x}, ref);
    var k := IndexOf(t, ref);
    t[..k] + [x] + t[k..]
  }

  /** Appending every element of `xs` in turn, as a `forEach(appendChild)`
      loop does. */
  function AppendAll(s: seq<Id>, xs: seq<Id>): (r: seq<Id>)
    decreases |xs|
  {
    if xs == [] then s else AppendAll(Appended(s, xs[0]), xs[1..])
  }

  /** `s` with `x`'s membership switched: `classList.toggle`. */
  function Flip(s: set<Id>, x: Id): (r: set<Id>)
    ensures x in r <==> x !in s
    ensures forall y :: y != x ==> (y in r <==> y in s)
  {
    if x in s then s - {x} else s + {x}
  }

  /** `s` keeps, in order, the elements of `t` that it contains, and nothing
      else: "the others keep their relative order". */
  predicate SameOrderOutside(s: seq<Id>, t: seq<Id>, x: Id) {
    Remove(s, x) == Remove(t, x)
  }

  // ---------------------------------------------------------------------
  // Facts about Without
  // ---------------------------------------------------------------------

  lemma {:induction false} WithoutConcat(a: seq<Id>, b: seq<Id>, xs: set<Id>)
    ensures Without(a + b, xs) == Without(a, xs) + Without(b, xs)
  {
    if a == [] {
      assert a + b == b;
    } else {
      assert (a + b)[1..] == a[1..] + b;
      WithoutConcat(a[1..], b, xs);
    }
  }

  /** What survives the filter: exactly the elements outside `xs`. */
  lemma {:induction false} WithoutIn(s: seq<Id>, xs: set<Id>, y: Id)
    ensures y in Without(s, xs) <==> y in s && y !in xs
  {
    if s != [] {
      WithoutIn(s[1..], xs, y);
      assert s == [s[0]] + s[1..];
    }
  }

  lemma {:induction false} WithoutNone(s: seq<Id>, xs: set<Id>)
    requires forall i :: 0 <= i < |s| ==> s[i] !in xs
    ensures Without(s, xs) == s
  {
    if s != [] {
      WithoutNone(s[1..], xs);
    }
  }

  lemma {:induction false} WithoutTwice(s: seq<Id>, xs: set<Id>, ys: set<Id>)
    ensures Without(Without(s, xs), ys) == Without(s, xs + ys)
  {
    if s != [] {
      var head := if s[0] in xs then [] else [s[0]];
      WithoutConcat(head, Without(s[1..], xs), ys);
      WithoutTwice(s[1..], xs, ys);
      if s[0] !in xs {
        assert Without(head, ys) == Without([s[0]], ys) == (if s[0] in ys then [] else [s[0]]) + Without([], ys);
      }
    }
  }

  lemma {:induction false} WithoutDistinct(s: seq<Id>, xs: set<Id>)
    requires Distinct(s)
    ensures Distinct(Without(s, xs))
  {
    if s != [] {
      WithoutDistinct(s[1..], xs);
      if s[0] !in xs {
        WithoutIn(s[1..], xs, s[0]);
        assert s[0] !in s[1..];
      }
    }
  }

  /** Removing the element at position `k` of a distinct list cuts it out. */
  lemma {:induction false} RemoveAt(s: seq<Id>, k: nat)
    requires Distinct(s) && k < |s|
    ensures Remove(s, s[k]) == s[..k] + s[k + 1..]
  {
    var x := s[k];
    var front, back := s[..k], s[k + 1..];
    assert s == front + [x] + back;
    assert x !in front && x !in back by {
      forall i | 0 <= i < |front| ensures front[i] != x {
        assert front[i] == s[i];
      }
      forall i | 0 <= i < |back| ensures back[i] != x {
        assert back[i] == s[k + 1 + i];
      }
    }
    RemoveAround(front, x, back);
  }

  /** In a distinct list, removing one element and appending it again keeps
      the multiset of elements. */
  lemma {:induction false} RemoveMultiset(s: seq<Id>, x: Id)
    requires Distinct(s) && x in s
    ensures multiset(Remove(s, x)) + multiset{x} == multiset(s)
  {
    var k := IndexOf(s, x);
    RemoveAt(s, k);
    assert s == s[..k] + [x] + s[k + 1..];
  }

  lemma RemoveAbsent(s: seq<Id>, x: Id)
    requires x !in s
    ensures Remove(s, x) == s
  {
    WithoutNone(s, {x});
  }

  // ---------------------------------------------------------------------
  // Facts about the child-list operations
  // ---------------------------------------------------------------------

  /** Adding a fresh element anywhere keeps a list distinct. */
  lemma DistinctInsert(t: seq<Id>, k: nat, x: Id)
    requires Distinct(t) && x !in t && k <= |t|
    ensures Distinct(t[..k] + [x] + t[k..])
  {
    var r := t[..k] + [x] + t[k..];
    forall i, j | 0 <= i < j < |r| ensures r[i] != r[j] {
      assert r[i] == (if i < k then t[i] else if i == k then x else t[i - 1]);
      assert r[j] == (if j < k then t[j] else if j == k then x else t[j - 1]);
    }
  }

  /** Removing `x` from `a + [x] + b` when `x` is in neither part. */
  lemma RemoveAround(a: seq<Id>, x: Id, b: seq<Id>)
    requires x !in a && x !in b
    ensures Remove(a + [x] + b, x) == a + b
  {
    var ax := a + [x];
    WithoutConcat(ax, b, {x});
    WithoutConcat(a, [x], {x});
    RemoveAbsent(a, x);
    RemoveAbsent(b, x);
    assert [x][1..] == [];
    assert Without([x], {x}) == [];
    assert Without(ax, {x}) == a;
  }

  /** appendChild on a distinct list keeps it distinct, makes `x` last and
      leaves the other children in order; when `x` was already a child it
      is a permutation. */
  lemma AppendedFacts(s: seq<Id>, x: Id)
    requires Distinct(s)
    ensures Distinct(Appended(s, x))
    ensures Appended(s, x)[|Appended(s, x)| - 1] == x
    ensures SameOrderOutside(Appended(s, x), s, x)
    ensures x in s ==> multiset(Appended(s, x)) == multiset(s)
  {
    var t := Remove(s, x);
    WithoutDistinct(s, {x});
    WithoutIn(s, {x}, x);
    DistinctInsert(t, |t|, x);
    assert t[..|t|] + [x] + t[|t|..] == t + [x] + [] == Appended(s, x);
    RemoveAround(t, x, []);
    assert t + [] == t;
    if x in s {
      RemoveMultiset(s, x);
    }
  }

  /** Inserting a fresh element at position `k` of a distinct list. */
  lemma InsertAtFacts(t: seq<Id>, k: nat, x: Id)
    requires Distinct(t) && x !in t && k <= |t|
    ensures Distinct(t[..k] + [x] + t[k..])
    ensures Remove(t[..k] + [x] + t[k..], x) == t
    ensures multiset(t[..k] + [x] + t[k..]) == multiset(t) + multiset{x}
  {
    DistinctInsert(t, k, x);
    assert x !in t[..k] && x !in t[k..] by {
      assert forall y :: y in t[..k] ==> y in t;
      assert forall y :: y in t[k..] ==> y in t;
    }
    RemoveAround(t[..k], x, t[k..]);
    assert t[..k] + t[k..] == t;
    assert multiset(t) == multiset(t[..k]) + multiset(t[k..]);
  }

  /** insertBefore puts `x` immediately before `ref`, keeps every other
      element in order, and, on a distinct list it already belongs to, is a
      permutation. */
  lemma InsertedBeforeFacts(s: seq<Id>, x: Id, ref: Id)
    requires ref in s && ref != x && Distinct(s)
    ensures var r := InsertedBefore(s, x, ref);
      && Distinct(r)
      && exists k :: 0 <= k < |r| - 1 && r[k] == x && r[k + 1] == ref
    ensures SameOrderOutside(InsertedBefore(s, x, ref), s, x)
    ensures x in s ==> multiset(InsertedBefore(s, x, ref)) == multiset(s)
  {
    var t := Remove(s, x);
    WithoutDistinct(s, {x});
    WithoutIn(s, {x}, ref);
    WithoutIn(s, {x}, x);
    var k := IndexOf(t, ref);
    var r := InsertedBefore(s, x, ref);
    assert r == t[..k] + [x] + t[k..];
    assert r[k] == x && r[k + 1] == ref;
    InsertAtFacts(t, k, x);
    if x in s {
      RemoveMultiset(s, x);
    }
  }

  /** Appending a distinct list of nodes one by one moves them, in that
      order, behind everything else, which keeps its order. */
  lemma {:induction false} AppendAllFacts(s: seq<Id>, xs: seq<Id>)
    requires Distinct(xs)
    ensures AppendAll(s, xs) == Without(s, set x | x in xs) + xs
    decreases |xs|
  {
    if xs == [] {
      WithoutNone(s, {});
      assert (set x | x in xs) == {};
    } else {
      var x, rest := xs[0], xs[1..];
      var restSet := set y | y in rest;
      AppendAllFacts(Appended(s, x), rest);
      assert x !in rest;
      WithoutConcat(Remove(s, x), [x], restSet);
      assert Without([x], restSet) == [x] + Without([], restSet);
      WithoutTwice(s, {x}, restSet);
      assert {x} + restSet == set y | y in xs;
      assert xs == [x] + rest;
    }
  }

  /** Appending nodes that are already children of a distinct list keeps it a
      distinct permutation. */
  lemma {:induction false} AppendAllPermutes(s: seq<Id>, xs: seq<Id>)
    requires Distinct(s)
    requires forall i :: 0 <= i < |xs| ==> xs[i] in s
    ensures Distinct(AppendAll(s, xs))
    ensures multiset(AppendAll(s, xs)) == multiset(s)
    decreases |xs|
  {
    if xs != [] {
      AppendedFacts(s, xs[0]);
      var s' := Appended(s, xs[0]);
      assert forall i :: 0 <= i < |xs[1..]| ==> xs[1..][i] in s' by {
        forall i | 0 <= i < |xs[1..]| ensures xs[1..][i] in s' {
          assert xs[1..][i] == xs[i + 1];
          assert xs[i + 1] in multiset(s);
        }
      }
      AppendAllPermutes(s', xs[1..]);
    }
  }

  /** Appending one more element after a run of appends. */
  lemma {:induction false} AppendAllSnoc(s: seq<Id>, xs: seq<Id>, x: Id)
    ensures AppendAll(s, xs + [x]) == Appended(AppendAll(s, xs), x)
    decreases |xs|
  {
    if xs == [] {
      assert xs + [x] == [x];
      assert [x][1..] == [];
    } else {
      assert (xs + [x])[0] == xs[0];
      assert (xs + [x])[1..] == xs[1..] + [x];
      AppendAllSnoc(Appended(s, xs[0]), xs[1..], x);
    }
  }

  /** Only the members of `s` matter to the filter. */
  lemma {:induction false} WithoutSame(s: seq<Id>, xs: set<Id>, ys: set<Id>)
    requires forall i :: 0 <= i < |s| ==> (s[i] in xs <==> s[i] in ys)
    ensures Without(s, xs) == Without(s, ys)
  {
    if s != [] {
      WithoutSame(s[1..], xs, ys);
    }
  }

  /** In a distinct list the first position of an element is its only one. */
  lemma IndexOfAt(s: seq<Id>, k: nat)
    requires Distinct(s) && k < |s|
    ensures IndexOf(s, s[k]) == k
  {
  }
}
