/** Lists that are the same but for their order, seen through a function. */
module Permutations {

  function Mapped<A, B>(f: A -> B, s: seq<A>): (r: seq<B>)
    ensures |r| == |s| && forall i :: 0 <= i < |s| ==> r[i] == f(s[i])
  {
    seq(|s|, i requires 0 <= i < |s| => f(s[i]))
  }

  lemma Around<A>(s: seq<A>, x: A) returns (front: seq<A>, back: seq<A>)
    requires x in multiset(s)
    ensures s == front + [x] + back && |front + back| < |s|
    ensures multiset(front + back) == multiset(s) - multiset{x}
  {
    var k :| 0 <= k < |s| && s[k] == x;
    front, back := s[..k], s[k + 1..];
    assert s == front + [x] + back;
  }

  lemma MappedAround<A, B>(f: A -> B, front: seq<A>, x: A, back: seq<A>)
    ensures multiset(Mapped(f, front + [x] + back)) == multiset(Mapped(f, front + back)) + multiset{f(x)}
  {
    assert Mapped(f, front + [x] + back) == Mapped(f, front) + [f(x)] + Mapped(f, back);
    assert Mapped(f, front + back) == Mapped(f, front) + Mapped(f, back);
  }

  lemma NothingLeft<A>(s: seq<A>)
    requires multiset(s) == multiset{}
    ensures s == []
  {
    assert |s| == |multiset(s)|;
  }

  lemma Cancelled<A>(a: multiset<A>, b: multiset<A>, x: A)
    requires a + multiset{x} == b + multiset{x}
    ensures a == b
  {
    forall y ensures a[y] == b[y] {
      assert (a + multiset{x})[y] == (b + multiset{x})[y];
    }
  }

  lemma Restored<A>(a: multiset<A>, x: A)
    requires x in a
    ensures a - multiset{x} + multiset{x} == a
  {}

  /** Reordered lists have reordered images. */
  lemma {:induction false} MappedPermutes<A, B>(f: A -> B, a: seq<A>, b: seq<A>)
    requires multiset(a) == multiset(b)
    ensures multiset(Mapped(f, a)) == multiset(Mapped(f, b))
    decreases |a|
  {
    hide Mapped;
    if a == [] {
      assert multiset(b) == multiset{};
      NothingLeft(b);
      return;
    }
    var front, back := Around(a, a[0]);
    var front', back' := Around(b, a[0]);
    MappedAround(f, front, a[0], back);
    MappedAround(f, front', a[0], back');
    MappedPermutes(f, front + back, front' + back');
  }

  /** No two different members, one of each list, have one image. */
  ghost predicate Tells<A(!new), B>(f: A -> B, a: seq<A>, b: seq<A>) {
    forall x, y :: x in a && y in b && f(x) == f(y) ==> x == y
  }

  /** And then only reordered lists have reordered images. */
  lemma {:induction false} MappedReflects<A(!new), B>(f: A -> B, a: seq<A>, b: seq<A>)
    requires Tells(f, a, b) && multiset(Mapped(f, a)) == multiset(Mapped(f, b))
    ensures multiset(a) == multiset(b)
    decreases |a|
  {
    hide Mapped;
    if a == [] {
      assert multiset(Mapped(f, b)) == multiset{};
      NothingLeft(Mapped(f, b));
      return;
    }
    AlsoThere(f, a, b);
    var x := a[0];
    var front, back := Around(a, x);
    var front', back' := Around(b, x);
    MappedAround(f, front, x, back);
    MappedAround(f, front', x, back');
    Cancelled(multiset(Mapped(f, front + back)), multiset(Mapped(f, front' + back')), f(x));
    TellsAround(f, front, front', x, back, back');
    hide Tells;
    MappedReflects(f, front + back, front' + back');
    Restored(multiset(a), x);
    Restored(multiset(b), x);
  }

  lemma AlsoThere<A(!new), B>(f: A -> B, a: seq<A>, b: seq<A>)
    requires a != [] && Tells(f, a, b) && multiset(Mapped(f, a)) == multiset(Mapped(f, b))
    ensures a[0] in multiset(a) && a[0] in multiset(b)
  {
    assert a[0] in a && Mapped(f, a)[0] == f(a[0]);
    assert f(a[0]) in multiset(Mapped(f, b));
    var i :| 0 <= i < |b| && Mapped(f, b)[i] == f(a[0]);
    assert b[i] in b;
  }

  lemma TellsAround<A(!new), B>(f: A -> B, front: seq<A>, front': seq<A>, x: A, back: seq<A>, back': seq<A>)
    requires Tells(f, front + [x] + back, front' + [x] + back')
    ensures Tells(f, front + back, front' + back')
  {
    assert forall y :: y in front + back ==> y in front + [x] + back;
    assert forall y :: y in front' + back' ==> y in front' + [x] + back';
  }
}
